/**
 The file store behind the CRUD handler: files and directories by path, with the operations
 of the real file system. A path is the list of its components between slashes.
 */
module Filesystem {
  import opened Wrappers
  import opened Sequences
  import opened Segments
  import opened Streams

  type Path = seq<string>

  datatype Node = Dir | File(data: string)

  type Store = map<Path, Node>

  function PathOf(name: string): (p: Path)
    ensures p != []
  {
    Split(name, "/")
  }

  /** Everything above a node is a directory of the store. */
  predicate TreeClosed(nodes: Store) {
    forall p, k | p in nodes && 0 < k < |p| :: p[..k] in nodes && nodes[p[..k]].Dir?
  }

  /** The proper ancestors of a path. */
  function Ancestors(p: Path): set<Path> {
    set k | 0 < k < |p| :: p[..k]
  }

  predicate FileAbove(nodes: Store, p: Path) {
    exists q | q in Ancestors(p) :: q in nodes && nodes[q].File?
  }

  /** No ancestor of `p` is a file, and `p` is not a directory. */
  predicate Writable(nodes: Store, p: Path) {
    !FileAbove(nodes, p) && (p in nodes ==> nodes[p].File?)
  }

  /** The missing directories above `p` cannot be created because one of them is a file. */
  predicate WriteThrows(nodes: Store, p: Path)
    requires p != []
  {
    Front(p) != [] && Front(p) !in nodes && FileAbove(nodes, p)
  }

  /** The store after writing a file: missing ancestors are created as directories. */
  function Written(nodes: Store, p: Path, data: string): Store {
    (nodes + map q | q in Ancestors(p) :: Dir)[p := File(data)]
  }

  /** The store after an attempt to write a file, whether it reports success, nothing or throws. */
  function AfterWrite(nodes: Store, p: Path, data: string): Store {
    if Writable(nodes, p) then Written(nodes, p, data) else nodes
  }

  /** What reading the node at `p` to its end delivers: a directory opens but has no lines. */
  function DataAt(nodes: Store, p: Path): string
    requires p in nodes
  {
    if nodes[p].File? then nodes[p].data else ""
  }

  /** A file, or a directory with nothing in it. */
  predicate Removable(nodes: Store, p: Path) {
    p in nodes && (nodes[p].File? || Children(nodes, p) == {})
  }

  function AfterDelete(nodes: Store, p: Path): Store {
    if Removable(nodes, p) then nodes - {p} else nodes
  }

  /** The names in a directory. */
  function Children(nodes: Store, p: Path): set<string> {
    set q | q in nodes && |q| == |p| + 1 && q[..|p|] == p :: q[|p|]
  }

  lemma ChildIn(nodes: Store, p: Path, c: string)
    ensures c in Children(nodes, p) <==> p + [c] in nodes
  {
    assert (p + [c])[..|p|] == p && (p + [c])[|p|] == c;
    if c in Children(nodes, p) {
      var q :| q in nodes && |q| == |p| + 1 && q[..|p|] == p && q[|p|] == c;
      assert q == p + [c];
    }
  }

  /** Writing keeps the tree closed. */
  lemma WrittenClosed(nodes: Store, p: Path, data: string)
    requires TreeClosed(nodes) && Writable(nodes, p)
    ensures TreeClosed(Written(nodes, p, data))
  {
    forall q, k | q in Written(nodes, p, data) && 0 < k < |q|
      ensures q[..k] in Written(nodes, p, data) && Written(nodes, p, data)[q[..k]].Dir?
    {
      WrittenAbove(nodes, p, data, q, k);
    }
  }

  lemma WrittenAbove(nodes: Store, p: Path, data: string, q: Path, k: nat)
    requires TreeClosed(nodes) && Writable(nodes, p) && q in Written(nodes, p, data) && 0 < k < |q|
    ensures q[..k] in Written(nodes, p, data) && Written(nodes, p, data)[q[..k]].Dir?
  {
    var r := q[..k];
    if q == p {
      assert r in Ancestors(p);
    } else if q in Ancestors(p) {
      var j :| 0 < j < |p| && q == p[..j];
      assert r == p[..k];
      assert r in Ancestors(p);
    } else {
      assert r in nodes && nodes[r].Dir?;
    }
    if r in Ancestors(p) {
      var j :| 0 < j < |p| && r == p[..j];
      assert |r| < |p|;
    }
  }

  /** So does removing what can be removed. */
  lemma DeletedClosed(nodes: Store, p: Path)
    requires TreeClosed(nodes)
    ensures TreeClosed(AfterDelete(nodes, p))
  {
    if Removable(nodes, p) {
      forall q, k | q in nodes && q != p && 0 < k < |q|
        ensures q[..k] != p
      {
        if q[..k] == p {
          var c := q[|p|];
          assert q[..|p| + 1] == p + [c];
          ChildIn(nodes, p, c);
        }
      }
    }
  }

  /** The reading loop: a newline goes back in for every line that had one. */
  method AppendLines(file: InputStream, contents: string) returns (r: string)
    requires file.Valid()
    modifies file`pos, file`eof, file`fail
    ensures r == contents + old(file.Remaining())
  {
    hide LineRead;
    r := contents;
    while true
      invariant file.Valid()
      invariant r + file.Remaining() == contents + old(file.Remaining())
      decreases |file.Remaining()|
    {
      ghost var before, soFar := file.Remaining(), r;
      var more, line := file.GetLine();
      LineReadShrinks(before, more, line, file.Remaining(), file.Good());
      if !more {
        break;
      }
      LineBack(soFar, before, line, file.Remaining(), file.Good());
      r := r + line;
      if file.Good() {
        r := r + ['\n'];
      }
    }
    assert r + "" == r;
  }

  lemma LineBack(a: string, s: string, line: string, rest: string, good: bool)
    requires LineRead(s, true, line, rest, good)
    ensures a + s == a + line + (if good then ['\n'] else "") + rest
    ensures !good ==> a + s == a + line + rest
  {
  }

  class RealFilesystem {
    var nodes: Store

    constructor (nodes: Store)
      ensures this.nodes == nodes
    {
      this.nodes := nodes;
    }

    method FileExists(filename: string) returns (r: bool)
      ensures r == (PathOf(filename) in nodes)
    {
      r := PathOf(filename) in nodes;
    }

    /** Appends the file, read line by line, to `contents`; a directory opens but reads as empty. */
    method ReadFile(filename: string, contents: string) returns (ok: bool, r: string)
      ensures ok == (PathOf(filename) in nodes)
      ensures r == if ok then contents + DataAt(nodes, PathOf(filename)) else contents
    {
      ok, r := false, contents;
      if PathOf(filename) in nodes {
        var file := new InputStream(DataAt(nodes, PathOf(filename)));
        r := AppendLines(file, contents);
        ok := true;
      }
    }

    /**
     Creates the directories above the file if its own is missing, which throws where a file is
     in the way; then writes, unless the path cannot be opened as a file.
     */
    method WriteFile(filename: string, contents: string) returns (threw: bool)
      requires TreeClosed(nodes)
      modifies this
      ensures threw == WriteThrows(old(nodes), PathOf(filename))
      ensures nodes == AfterWrite(old(nodes), PathOf(filename), contents)
    {
      hide PathOf;
      var p := PathOf(filename);
      ParentDecides(nodes, p);
      if Front(p) != [] && Front(p) !in nodes {
        if FileAbove(nodes, p) {
          return true;
        }
        nodes := nodes + map q | q in Ancestors(p) :: Dir;
      }
      if (Front(p) == [] || nodes[Front(p)].Dir?) && (p in nodes ==> nodes[p].File?) {
        nodes := nodes[p := File(contents)];
      }
      threw := false;
    }

    /** Removes a file or an empty directory; a directory with something in it makes it throw. */
    method DeleteFile(filename: string) returns (threw: bool, r: bool)
      modifies this
      ensures r == Removable(old(nodes), PathOf(filename))
      ensures threw == (PathOf(filename) in old(nodes) && !r)
      ensures nodes == AfterDelete(old(nodes), PathOf(filename))
    {
      var p := PathOf(filename);
      threw, r := false, p in nodes;
      if r && nodes[p].Dir? && Children(nodes, p) != {} {
        return true, false;
      }
      nodes := nodes - {p};
    }

    /** The names in a directory, each once, in no particular order; None where it throws. */
    method ListFiles(path: string) returns (fileNames: Option<seq<string>>)
      ensures fileNames.Some? <==> PathOf(path) in nodes && nodes[PathOf(path)].Dir?
      ensures fileNames.Some? ==> Enumerates(fileNames.value, Children(nodes, PathOf(path)))
    {
      if PathOf(path) !in nodes || nodes[PathOf(path)].File? {
        return None;
      }
      var names := [];
      var rest := Children(nodes, PathOf(path));
      while rest != {}
        invariant rest <= Children(nodes, PathOf(path))
        invariant Enumerates(names, Children(nodes, PathOf(path)) - rest)
        decreases |rest|
      {
        var name :| name in rest;
        names := names + [name];
        rest := rest - {name};
      }
      fileNames := Some(names);
    }
  }

  ghost predicate Enumerates(names: seq<string>, all: set<string>) {
    && (forall n :: n in names <==> n in all)
    && (forall i, j | 0 <= i < j < |names| :: names[i] != names[j])
  }

  /** In a closed tree, the node right above a path tells whether a file is in the way. */
  lemma ParentDecides(nodes: Store, p: Path)
    requires p != [] && TreeClosed(nodes)
    ensures Front(p) in Ancestors(p) <==> Front(p) != []
    ensures Front(p) == [] ==> Ancestors(p) == {}
    ensures Front(p) != [] && Front(p) in nodes ==>
              && (FileAbove(nodes, p) <==> nodes[Front(p)].File?)
              && (nodes[Front(p)].Dir? ==> nodes + (map q | q in Ancestors(p) :: Dir) == nodes)
    ensures Front(p) != [] && Front(p) !in nodes ==> p !in nodes
  {
    var up := Front(p);
    assert p[..|p| - 1] == up;
    if up != [] && up in nodes {
      forall q | q in Ancestors(p) && q != up
        ensures q in nodes && nodes[q].Dir?
      {
        var k :| 0 < k < |p| && q == p[..k];
        assert q == up[..k];
      }
    }
  }
}

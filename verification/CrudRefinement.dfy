/**
 The store as a map from (entity, identifier) to data: every run of requests on files and
 directories is a run of the map, and what was written last is what is read.
 */
module CrudRefinement {
  import opened Wrappers
  import opened Sequences
  import opened Decimal
  import opened Segments
  import opened Filesystem
  import opened Identifiers
  import opened CrudStore
  import opened Crud

  /** The abstract state: instances with their data, and the entities that have a directory. */
  datatype Abstract = Abstract(data: map<Key, string>, dirs: set<seq<string>>)

  function KeyOf(base: Path, p: Path): Key
    requires Below(base, p)
  {
    Key(p[|base|..|p| - 1], Last(p))
  }

  lemma KeyOfPath(base: Path, key: Key)
    ensures Below(base, KeyPath(base, key)) && KeyOf(base, KeyPath(base, key)) == key
  {
    var p := KeyPath(base, key);
    assert p[..|base|] == base;
    assert p[|base|..|p| - 1] == key.entity;
  }

  lemma PathOfKey(base: Path, p: Path)
    requires Below(base, p)
    ensures KeyPath(base, KeyOf(base, p)) == p
  {
    assert p == p[..|base|] + p[|base|..|p| - 1] + [p[|p| - 1]];
  }

  function Keys(nodes: Store, base: Path): (ks: set<Key>)
    ensures forall k :: k in ks <==> KeyPath(base, k) in nodes && nodes[KeyPath(base, k)].File?
  {
    forall k
      ensures KeyPath(base, k) in nodes && nodes[KeyPath(base, k)].File? ==>
                Below(base, KeyPath(base, k)) && KeyOf(base, KeyPath(base, k)) == k
    {
      KeyOfPath(base, k);
    }
    forall p | Below(base, p)
      ensures KeyPath(base, KeyOf(base, p)) == p
    {
      PathOfKey(base, p);
    }
    set p | p in nodes && Below(base, p) && nodes[p].File? :: KeyOf(base, p)
  }

  function Abs(nodes: Store, base: Path): Abstract {
    Abstract(map k | k in Keys(nodes, base) :: nodes[KeyPath(base, k)].data,
             set p | p in nodes && base <= p && nodes[p].Dir? :: p[|base|..])
  }

  lemma InDirs(nodes: Store, base: Path, e: seq<string>)
    ensures e in Abs(nodes, base).dirs <==> base + e in nodes && nodes[base + e].Dir?
  {
    assert (base + e)[|base|..] == e;
    if e in Abs(nodes, base).dirs {
      var p :| p in nodes && base <= p && nodes[p].Dir? && p[|base|..] == e;
      assert p == base + e;
    }
  }

  // ---------------------------------------------------------------- the map's own operations

  /** The key whose path is the first `k` components of an entity. */
  function KeyAt(e: seq<string>, k: nat): Key
    requires 0 < k <= |e|
  {
    Key(e[..k - 1], e[k - 1])
  }

  /** Some instance stands where the entity `e`, or one above it, would need a directory. */
  predicate FileOver(a: Abstract, e: seq<string>) {
    exists k | 0 < k <= |e| :: KeyAt(e, k) in a.data
  }

  /** A write to `key` succeeds: no instance is in the way and no directory stands there. */
  predicate Free(a: Abstract, key: Key) {
    key.entity + [key.id] !in a.dirs && !FileOver(a, key.entity)
  }

  /** A write to `key` throws: directories are missing and an instance is in their way. */
  predicate Throws(a: Abstract, key: Key) {
    key.entity != [] && FileOver(a, Front(key.entity))
  }

  /** An instance or a directory has this name. */
  predicate Present(a: Abstract, key: Key) {
    key in a.data || key.entity + [key.id] in a.dirs
  }

  /** `n` is the least positive number whose name is not taken in `e`. */
  predicate LeastFreeId(a: Abstract, e: seq<string>, n: nat) {
    1 <= n && !Present(a, Key(e, Numeral(n))) && forall k | 1 <= k < n :: Present(a, Key(e, Numeral(k)))
  }

  /** Writing one instance: it and the directories above it appear, nothing else changes. */
  predicate Writes(a: Abstract, key: Key, data: string, b: Abstract) {
    && b.data == a.data[key := data]
    && b.dirs == a.dirs + set k | 0 <= k <= |key.entity| :: key.entity[..k]
  }

  /** A write succeeds where it is free and leaves everything as it is elsewhere. */
  predicate WritesIfFree(a: Abstract, key: Key, data: string, b: Abstract) {
    if Free(a, key) then Writes(a, key, data, b) else b == a
  }

  predicate EmptyDir(a: Abstract, e: seq<string>) {
    && e in a.dirs
    && (forall k | k in a.data :: k.entity != e)
    && (forall d | d in a.dirs && d != [] :: Front(d) != e)
  }

  /** Deleting drops an instance, or a directory with nothing in it. */
  function Without(a: Abstract, key: Key): Abstract {
    if key in a.data then Abstract(a.data - {key}, a.dirs)
    else if EmptyDir(a, key.entity + [key.id]) then Abstract(a.data, a.dirs - {key.entity + [key.id]})
    else a
  }

  /** What a request does to the map. */
  ghost predicate AbsStep(a: Abstract, req: HttpRequest, b: Abstract) {
    match OpOf(req)
    case Some(Post(e, data)) => exists n :: LeastFreeId(a, e, n) && WritesIfFree(a, Key(e, Numeral(n)), data, b)
    case Some(Put(key, data)) => WritesIfFree(a, key, data, b)
    case Some(Delete(key)) => b == Without(a, key)
    case _ => b == a
  }

  // ---------------------------------------------------------------- reading the map off the store

  /** A closed tree in which no file stands at or above the data path. */
  predicate Rooted(nodes: Store, base: Path) {
    base != [] && TreeClosed(nodes) && forall p | p in nodes && p <= base :: nodes[p].Dir?
  }

  lemma InData(nodes: Store, base: Path, k: Key)
    ensures var a, p := Abs(nodes, base), KeyPath(base, k);
            && (k in a.data <==> p in nodes && nodes[p].File?)
            && (k in a.data ==> a.data[k] == nodes[p].data)
  {
  }

  lemma WrittenData(nodes: Store, base: Path, key: Key, data: string, k: Key)
    requires Writable(nodes, KeyPath(base, key))
    ensures var a, b := Abs(nodes, base).data, Abs(Written(nodes, KeyPath(base, key), data), base).data;
            && (k in b <==> k in a || k == key)
            && (k in b ==> b[k] == if k == key then data else a[k])
  {
    hide Abs;
    var p, q := KeyPath(base, key), KeyPath(base, k);
    InData(nodes, base, k);
    InData(Written(nodes, p, data), base, k);
    if q == p {
      KeyOfPath(base, key);
      KeyOfPath(base, k);
    }
  }

  lemma WrittenDirs(nodes: Store, base: Path, key: Key, data: string, e: seq<string>)
    requires base != [] && Writable(nodes, KeyPath(base, key))
    ensures e in Abs(Written(nodes, KeyPath(base, key), data), base).dirs <==>
            e in Abs(nodes, base).dirs || e <= key.entity
  {
    hide Abs;
    var p, q := KeyPath(base, key), base + e;
    var after := Written(nodes, p, data);
    InDirs(nodes, base, e);
    InDirs(after, base, e);
    AncestorIsPrefix(p, q);
    if |e| <= |key.entity| {
      PrefixBelow(base, e, key.entity, key.id);
    }
  }

  lemma AncestorIsPrefix(p: Path, q: Path)
    ensures q in Ancestors(p) <==> q <= p && 0 < |q| < |p|
  {
    if q <= p && 0 < |q| < |p| {
      assert q == p[..|q|];
    }
  }

  lemma PrefixBelow(base: Path, e: seq<string>, entity: seq<string>, id: string)
    requires |e| <= |entity|
    ensures base + e <= base + entity + [id] <==> e <= entity
  {
    var p := base + entity + [id];
    assert p[..|base + e|] == base + entity[..|e|];
    assert (base + e)[|base|..] == e && (base + entity[..|e|])[|base|..] == entity[..|e|];
  }

  lemma PrefixesOf(e: seq<string>, f: seq<string>)
    ensures f in (set k | 0 <= k <= |e| :: e[..k]) <==> f <= e
  {
    if f <= e {
      assert f == e[..|f|];
    }
  }

  lemma WrittenAbs(nodes: Store, base: Path, key: Key, data: string)
    requires base != [] && Writable(nodes, KeyPath(base, key))
    ensures Writes(Abs(nodes, base), key, data, Abs(Written(nodes, KeyPath(base, key), data), base))
  {
    hide Writable, Written, Abs;
    var a, b := Abs(nodes, base), Abs(Written(nodes, KeyPath(base, key), data), base);
    forall k
      ensures k in b.data <==> k in a.data || k == key
      ensures k in b.data ==> b.data[k] == if k == key then data else a.data[k]
    {
      WrittenData(nodes, base, key, data, k);
    }
    assert b.data == a.data[key := data];
    forall e
      ensures e in b.dirs <==> e in a.dirs || e in (set k | 0 <= k <= |key.entity| :: key.entity[..k])
    {
      WrittenDirs(nodes, base, key, data, e);
      PrefixesOf(key.entity, e);
    }
  }

  lemma RelativePath(base: Path, key: Key)
    ensures KeyPath(base, key) == base + (key.entity + [key.id])
  {
  }

  /** A name is taken in the store if an instance or a directory of the map has it. */
  lemma PresentExactly(nodes: Store, base: Path, key: Key)
    ensures Present(Abs(nodes, base), key) <==> KeyPath(base, key) in nodes
  {
    hide Abs, KeyPath;
    InData(nodes, base, key);
    InDirs(nodes, base, key.entity + [key.id]);
    RelativePath(base, key);
  }

  lemma LeastFreeAbs(nodes: Store, base: Path, e: seq<string>)
    ensures LeastFreeId(Abs(nodes, base), e, LeastFree(nodes, base + e))
  {
    hide Abs, Present;
    var n := LeastFree(nodes, base + e);
    PresentExactly(nodes, base, Key(e, Numeral(n)));
    assert !Taken(nodes, base + e, n);
    forall k | 1 <= k < n
      ensures Present(Abs(nodes, base), Key(e, Numeral(k)))
    {
      assert Taken(nodes, base + e, k);
      PresentExactly(nodes, base, Key(e, Numeral(k)));
    }
  }

  lemma KeyAtPath(base: Path, key: Key, k: nat)
    requires 0 < k <= |key.entity|
    ensures KeyPath(base, KeyAt(key.entity, k)) == KeyPath(base, key)[..|base| + k]
    ensures KeyPath(base, KeyAt(key.entity, k)) in Ancestors(KeyPath(base, key))
  {
    assert base + key.entity[..k - 1] + [key.entity[k - 1]] == KeyPath(base, key)[..|base| + k];
  }

  lemma PrefixOfRoot(base: Path, key: Key, j: nat)
    ensures j <= |base| ==> KeyPath(base, key)[..j] <= base
  {
    assert KeyPath(base, key)[..|base|] == base;
  }

  /** A file above an instance is an instance of the map on the way to its entity. */
  lemma FileOverExactly(nodes: Store, base: Path, key: Key)
    requires Rooted(nodes, base)
    ensures FileOver(Abs(nodes, base), key.entity) <==> FileAbove(nodes, KeyPath(base, key))
  {
    hide Abs, TreeClosed;
    var a, p := Abs(nodes, base), KeyPath(base, key);
    if FileOver(a, key.entity) {
      var k :| 0 < k <= |key.entity| && KeyAt(key.entity, k) in a.data;
      KeyAtPath(base, key, k);
      InData(nodes, base, KeyAt(key.entity, k));
    }
    if FileAbove(nodes, p) {
      var q :| q in Ancestors(p) && q in nodes && nodes[q].File?;
      var j :| 0 < j < |p| && q == p[..j];
      PrefixOfRoot(base, key, j);
      if |base| < j {
        KeyAtPath(base, key, j - |base|);
        InData(nodes, base, KeyAt(key.entity, j - |base|));
      }
    }
  }

  /** The map tells where a write succeeds. */
  lemma FreeExactly(nodes: Store, base: Path, key: Key)
    requires Rooted(nodes, base)
    ensures Free(Abs(nodes, base), key) <==> Writable(nodes, KeyPath(base, key))
  {
    hide Abs, FileOver, FileAbove, Rooted, KeyPath;
    FileOverExactly(nodes, base, key);
    InDirs(nodes, base, key.entity + [key.id]);
    RelativePath(base, key);
  }

  /** And where it throws. */
  lemma ThrowsExactly(nodes: Store, base: Path, key: Key)
    requires Rooted(nodes, base)
    ensures Throws(Abs(nodes, base), key) <==> WriteThrows(nodes, KeyPath(base, key))
  {
    hide Abs, FileOver, FileAbove, Rooted;
    var p, e := KeyPath(base, key), key.entity;
    assert Front(p) == base + e;
    FileOverExactly(nodes, base, key);
    RootIsDirectory(nodes, base);
    if e == [] {
      NothingOver(Abs(nodes, base));
      assert Front(p) == base;
    } else {
      var up := KeyFor(e);
      KeyParts(base, e);
      FileOverExactly(nodes, base, up);
      OverFront(Abs(nodes, base), e);
      InData(nodes, base, up);
      assert KeyAt(e, |e|) == up;
      FileAboveAbsent(nodes, KeyPath(base, up));
    }
  }

  lemma NothingOver(a: Abstract)
    ensures !FileOver(a, [])
  {
  }

  lemma OverFront(a: Abstract, e: seq<string>)
    requires e != []
    ensures FileOver(a, e) <==> FileOver(a, Front(e)) || KeyAt(e, |e|) in a.data
  {
    forall k | 0 < k <= |e| - 1
      ensures KeyAt(Front(e), k) == KeyAt(e, k)
    {
      assert Front(e)[..k - 1] == e[..k - 1];
    }
    if FileOver(a, Front(e)) {
      var k :| 0 < k <= |e| - 1 && KeyAt(Front(e), k) in a.data;
      assert KeyAt(e, k) in a.data;
    }
    if FileOver(a, e) && KeyAt(e, |e|) !in a.data {
      var k :| 0 < k <= |e| && KeyAt(e, k) in a.data;
      assert KeyAt(Front(e), k) in a.data;
    }
  }

  lemma RootIsDirectory(nodes: Store, base: Path)
    requires Rooted(nodes, base)
    ensures base in nodes ==> nodes[base].Dir?
    ensures TreeClosed(nodes) && base != []
    ensures forall q | q in Ancestors(base) :: q in nodes ==> nodes[q].Dir?
  {
    forall q | q in Ancestors(base)
      ensures q in nodes ==> nodes[q].Dir?
    {
      AncestorIsPrefix(base, q);
    }
  }

  /** Nothing lies below a file. */
  lemma FileAboveAbsent(nodes: Store, p: Path)
    requires TreeClosed(nodes)
    ensures FileAbove(nodes, p) ==> p !in nodes
  {
    if FileAbove(nodes, p) {
      var q :| q in Ancestors(p) && q in nodes && nodes[q].File?;
      var k :| 0 < k < |p| && q == p[..k];
    }
  }

  lemma ListedName(nodes: Store, base: Path, e: seq<string>, c: string)
    ensures c in Children(nodes, base + e) <==> Key(e, c) in Abs(nodes, base).data || e + [c] in Abs(nodes, base).dirs
  {
    hide Abs, Children;
    ChildIn(nodes, base + e, c);
    InData(nodes, base, Key(e, c));
    InDirs(nodes, base, e + [c]);
    assert base + (e + [c]) == base + e + [c];
  }

  /** A directory is empty in the store exactly if it is in the map. */
  lemma EmptyExactly(nodes: Store, base: Path, e: seq<string>)
    requires base + e in nodes && nodes[base + e].Dir?
    ensures EmptyDir(Abs(nodes, base), e) <==> Children(nodes, base + e) == {}
  {
    hide Abs, Children;
    var a := Abs(nodes, base);
    InDirs(nodes, base, e);
    forall c
      ensures c in Children(nodes, base + e) <==> Key(e, c) in a.data || e + [c] in a.dirs
    {
      ListedName(nodes, base, e, c);
    }
    forall d | d != [] && Front(d) == e
      ensures d == e + [Last(d)]
    {
    }
    forall c | c in Children(nodes, base + e)
      ensures !EmptyDir(a, e)
    {
      assert Front(e + [c]) == e;
    }
  }

  lemma DeletedAbs(nodes: Store, base: Path, key: Key)
    ensures Abs(AfterDelete(nodes, KeyPath(base, key)), base) == Without(Abs(nodes, base), key)
  {
    hide Abs, EmptyDir, Children, KeyPath;
    var p, e := KeyPath(base, key), key.entity + [key.id];
    var after := AfterDelete(nodes, p);
    var a, b := Abs(nodes, base), Abs(after, base);
    RelativePath(base, key);
    InData(nodes, base, key);
    InDirs(nodes, base, e);
    if p in nodes && nodes[p].Dir? {
      EmptyExactly(nodes, base, e);
    }
    NotEmptyUnlessThere(a, e);
    forall k
      ensures k in b.data <==> k in a.data && (k == key ==> !Removable(nodes, p))
      ensures k in b.data ==> b.data[k] == a.data[k]
    {
      InData(nodes, base, k);
      InData(after, base, k);
      KeyOfPath(base, k);
      KeyOfPath(base, key);
    }
    forall d
      ensures d in b.dirs <==> d in a.dirs && (d == e ==> !Removable(nodes, p))
    {
      InDirs(nodes, base, d);
      InDirs(after, base, d);
      assert base + d == base + e ==> (base + d)[|base|..] == (base + e)[|base|..];
      assert (base + d)[|base|..] == d && (base + e)[|base|..] == e;
    }
    if key in a.data {
      assert b.data == a.data - {key} && b.dirs == a.dirs;
    } else if EmptyDir(a, e) {
      assert b.data == a.data && b.dirs == a.dirs - {e};
    } else {
      assert b.data == a.data && b.dirs == a.dirs;
    }
  }

  lemma NotEmptyUnlessThere(a: Abstract, e: seq<string>)
    ensures EmptyDir(a, e) ==> e in a.dirs
  {
  }

  lemma AfterWriteAbs(nodes: Store, base: Path, key: Key, data: string)
    requires Rooted(nodes, base)
    ensures WritesIfFree(Abs(nodes, base), key, data, Abs(AfterWrite(nodes, KeyPath(base, key), data), base))
  {
    hide Abs, Free, Writes, Written, Writable, TreeClosed;
    FreeExactly(nodes, base, key);
    if Free(Abs(nodes, base), key) {
      WrittenAbs(nodes, base, key, data);
    }
  }

  /** One request on the store is one step of the map. */
  lemma StepRefines(nodes: Store, base: Path, req: HttpRequest)
    requires Rooted(nodes, base) && PlainRequest(req)
    ensures AbsStep(Abs(nodes, base), req, Abs(NextBy(nodes, base, req), base))
    ensures Rooted(NextBy(nodes, base, req), base)
  {
    hide Abs, WritesIfFree, Without, LeastFreeId, LeastFree, AfterWrite, AfterDelete, OpOf, PlainRequest, TreeClosed;
    RootStays(nodes, base, req);
    if OpOf(req).Some? {
      match OpOf(req).value {
        case List(_) =>
        case Get(_) =>
        case Post(e, data) =>
          LeastFreeAbs(nodes, base, e);
          AfterWriteAbs(nodes, base, Key(e, Numeral(LeastFree(nodes, base + e))), data);
        case Put(key, data) => AfterWriteAbs(nodes, base, key, data);
        case Delete(key) => DeletedAbs(nodes, base, key);
      }
    }
  }

  lemma RootStays(nodes: Store, base: Path, req: HttpRequest)
    requires Rooted(nodes, base)
    ensures Rooted(NextBy(nodes, base, req), base)
  {
    hide OpOf, TreeClosed, LeastFree, Writable, Removable;
    NextByKeepsTree(nodes, base, req);
    if OpOf(req).Some? {
      var op := OpOf(req).value;
      assert op.Post? || op.Put? ==> |Target(nodes, base, op)| > |base|;
    }
  }

  // ---------------------------------------------------------------- runs

  function Run(nodes: Store, base: Path, reqs: seq<HttpRequest>): Store
    requires base != []
    decreases |reqs|
  {
    if reqs == [] then nodes else Run(NextBy(nodes, base, reqs[0]), base, reqs[1..])
  }

  predicate AllPlain(reqs: seq<HttpRequest>) {
    forall req | req in reqs :: PlainRequest(req)
  }

  /** `trace` is a run of the map from `trace[0]` by the requests `reqs`. */
  ghost predicate AbsRun(trace: seq<Abstract>, reqs: seq<HttpRequest>) {
    |trace| == |reqs| + 1 && forall i | 0 <= i < |reqs| :: AbsStep(trace[i], reqs[i], trace[i + 1])
  }

  /** Every run of requests, from any rooted store, is a run of the map. */
  lemma {:induction false} RunRefines(nodes: Store, base: Path, reqs: seq<HttpRequest>) returns (trace: seq<Abstract>)
    requires Rooted(nodes, base) && AllPlain(reqs)
    ensures Rooted(Run(nodes, base, reqs), base)
    ensures AbsRun(trace, reqs)
    ensures trace[0] == Abs(nodes, base) && trace[|reqs|] == Abs(Run(nodes, base, reqs), base)
    decreases |reqs|
  {
    hide Abs, AbsStep, PlainRequest, NextBy, TreeClosed;
    if reqs == [] {
      trace := [Abs(nodes, base)];
    } else {
      assert reqs[0] in reqs;
      StepRefines(nodes, base, reqs[0]);
      var tail := RunRefines(NextBy(nodes, base, reqs[0]), base, reqs[1..]);
      trace := [Abs(nodes, base)] + tail;
    }
  }

  lemma NextByKeepsTree(nodes: Store, base: Path, req: HttpRequest)
    requires TreeClosed(nodes) && base != []
    ensures TreeClosed(NextBy(nodes, base, req))
  {
    if OpOf(req).Some? {
      NextKeepsTree(nodes, base, OpOf(req).value);
    }
  }

  lemma {:induction false} RunKeepsTree(nodes: Store, base: Path, reqs: seq<HttpRequest>)
    requires TreeClosed(nodes) && base != []
    ensures TreeClosed(Run(nodes, base, reqs))
    decreases |reqs|
  {
    if reqs != [] {
      NextByKeepsTree(nodes, base, reqs[0]);
      RunKeepsTree(NextBy(nodes, base, reqs[0]), base, reqs[1..]);
    }
  }

  // ---------------------------------------------------------------- what stays

  /** The data of an instance, in any store. */
  function Instance(nodes: Store, base: Path, k: Key): Option<string> {
    var p := KeyPath(base, k);
    if p in nodes && nodes[p].File? then Some(nodes[p].data) else None
  }

  predicate Touches(req: HttpRequest, k: Key) {
    match OpOf(req)
    case Some(Put(key, _)) => key == k
    case Some(Delete(key)) => key == k
    case _ => false
  }

  /** POST changes nothing that is there. */
  lemma PostTakesFresh(nodes: Store, base: Path, req: HttpRequest, q: Path)
    requires TreeClosed(nodes) && base != [] && PlainRequest(req)
    requires OpOf(req).Some? && OpOf(req).value.Post? && q in nodes
    ensures q in NextBy(nodes, base, req) && NextBy(nodes, base, req)[q] == nodes[q]
  {
    hide LeastFree, TreeClosed, OpOf;
    var op := OpOf(req).value;
    var p := Target(nodes, base, op);
    FreeTarget(nodes, base + op.entity);
    WrittenElsewhere(nodes, p, op.data, q);
  }

  lemma FreeTarget(nodes: Store, p: Path)
    ensures p + [Numeral(LeastFree(nodes, p))] !in nodes
  {
    assert !Taken(nodes, p, LeastFree(nodes, p));
  }

  /** Writing changes no other node that was there. */
  lemma WrittenElsewhere(nodes: Store, p: Path, data: string, q: Path)
    requires q in nodes && q != p
    ensures q in AfterWrite(nodes, p, data) && AfterWrite(nodes, p, data)[q] == nodes[q]
  {
  }

  lemma InstanceStays(nodes: Store, base: Path, req: HttpRequest, k: Key)
    requires base != [] && !Touches(req, k) && Instance(nodes, base, k).Some?
    ensures Instance(NextBy(nodes, base, req), base, k) == Instance(nodes, base, k)
  {
    hide LeastFree, OpOf, AfterWrite;
    var q := KeyPath(base, k);
    if OpOf(req).Some? {
      var op := OpOf(req).value;
      var p := Target(nodes, base, op);
      KeyOfPath(base, k);
      match op {
        case Post(e, data) =>
          FreeTarget(nodes, base + e);
          WrittenElsewhere(nodes, p, data, q);
        case Put(key, data) =>
          KeyOfPath(base, key);
          WrittenElsewhere(nodes, p, data, q);
        case Delete(key) => KeyOfPath(base, key);
        case _ =>
      }
    }
  }

  /** An instance changes only by a PUT or DELETE of its own identifier. */
  lemma {:induction false} UntouchedKeysStay(nodes: Store, base: Path, reqs: seq<HttpRequest>, k: Key)
    requires TreeClosed(nodes) && base != [] && AllPlain(reqs) && forall req | req in reqs :: !Touches(req, k)
    requires Instance(nodes, base, k).Some?
    ensures Instance(Run(nodes, base, reqs), base, k) == Instance(nodes, base, k)
    decreases |reqs|
  {
    hide TreeClosed, PlainRequest, NextBy, Instance, Touches;
    if reqs != [] {
      assert reqs[0] in reqs;
      NextByKeepsTree(nodes, base, reqs[0]);
      InstanceStays(nodes, base, reqs[0], k);
      UntouchedKeysStay(NextBy(nodes, base, reqs[0]), base, reqs[1..], k);
    }
  }

  /** A PUT at or below the instance, or a POST to its entity or below the instance. */
  predicate Creates(req: HttpRequest, k: Key) {
    match OpOf(req)
    case Some(Put(key, _)) => k.entity + [k.id] <= key.entity + [key.id]
    case Some(Post(e, _)) => e == k.entity || k.entity + [k.id] <= e
    case _ => false
  }

  lemma PrefixUnder(base: Path, a: seq<string>, b: seq<string>)
    requires base + a <= base + b
    ensures a <= b
  {
    assert (base + a)[|base|..] == a && (base + b)[|base|..] == b;
    assert (base + b)[..|base + a|] == base + a;
    assert b[..|a|] == (base + b)[|base|..|base| + |a|];
  }

  lemma PathStaysAbsent(nodes: Store, base: Path, req: HttpRequest, k: Key)
    requires base != [] && !Creates(req, k) && KeyPath(base, k) !in nodes
    ensures KeyPath(base, k) !in NextBy(nodes, base, req)
  {
    hide LeastFree, OpOf;
    var q := KeyPath(base, k);
    if OpOf(req).Some? && (OpOf(req).value.Post? || OpOf(req).value.Put?) {
      var op := OpOf(req).value;
      var p := Target(nodes, base, op);
      var parts :=
        if op.Put? then op.key.entity + [op.key.id]
        else op.entity + [Numeral(LeastFree(nodes, base + op.entity))];
      assert p == base + parts && q == base + (k.entity + [k.id]);
      AncestorIsPrefix(p, q);
      if q <= p {
        PrefixUnder(base, k.entity + [k.id], parts);
        if op.Post? {
          PrefixOfSnoc(k.entity, k.id, op.entity, Last(parts));
        }
      }
    }
  }

  lemma PrefixOfSnoc(a: seq<string>, x: string, e: seq<string>, y: string)
    requires a + [x] <= e + [y]
    ensures a == e || a + [x] <= e
  {
    if |a| == |e| {
      assert a == (a + [x])[..|a|] == (e + [y])[..|a|] == e;
    }
  }

  /** What is absent appears only by such a PUT or POST. */
  lemma {:induction false} AbsentKeysStay(nodes: Store, base: Path, reqs: seq<HttpRequest>, k: Key)
    requires TreeClosed(nodes) && base != [] && AllPlain(reqs) && forall req | req in reqs :: !Creates(req, k)
    requires KeyPath(base, k) !in nodes
    ensures KeyPath(base, k) !in Run(nodes, base, reqs)
    decreases |reqs|
  {
    hide TreeClosed, PlainRequest, NextBy, Creates;
    if reqs != [] {
      assert reqs[0] in reqs;
      NextByKeepsTree(nodes, base, reqs[0]);
      PathStaysAbsent(nodes, base, reqs[0], k);
      AbsentKeysStay(NextBy(nodes, base, reqs[0]), base, reqs[1..], k);
    }
  }
}

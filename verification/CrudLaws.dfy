/**
 The CRUD interface from the outside: requests by verb, target text and body, answers by
 status, headers and text. A target is `/`, the route, `/` and the components between slashes.
 */
module CrudLaws {
  import opened Wrappers
  import opened Sequences
  import opened Decimal
  import opened Segments
  import opened Filesystem
  import opened Identifiers
  import opened CrudStore
  import opened Crud
  import opened Bodies
  import opened CrudRefinement
  import opened CrudAnswers

  /** Components that name one place each. */
  predicate PlainParts(parts: seq<string>) {
    parts != [] && forall c | c in parts :: '/' !in c && c !in {"", ".", ".."}
  }

  function Request(verb: Verb, route: string, parts: seq<string>, body: string): HttpRequest
    requires parts != []
  {
    HttpRequest(verb, "/" + route + "/" + Join(parts, "/"), body)
  }

  /** A response with a text, its type and its length. */
  predicate Told(after: ResponseFields, status: nat, text: string) {
    after == ResponseFields(status, "application/json", Some(|text|), text)
  }

  // ---------------------------------------------------------------- targets

  lemma RouteTarget(route: string, rest: string)
    requires '/' !in route
    ensures Suffix("/" + route + "/" + rest) == Some(rest)
  {
    hide Find;
    var target := "/" + route + "/" + rest;
    assert target[0..1] == "/" && MatchAt(target, "/", 0);
    FindUnique(target, "/", 0);
    var tail := route + "/" + rest;
    assert target[1..] == tail;
    SlashFirst(route, rest);
    assert tail[|route| + 1..] == rest;
  }

  lemma SlashFirst(a: string, rest: string)
    requires '/' !in a
    ensures Find(a + "/" + rest, "/") == |a|
  {
    hide Find;
    var s := a + "/" + rest;
    assert s[|a|..|a| + 1] == "/" && MatchAt(s, "/", |a|);
    forall j | 0 <= j < |a|
      ensures !MatchAt(s, "/", j)
    {
      assert s[j] == a[j] && a[j] in a;
      assert s[j..j + 1] == [s[j]];
    }
    FindUnique(s, "/", |a|);
  }

  lemma {:induction false} PathOfJoin(parts: seq<string>)
    requires parts != [] && forall c | c in parts :: '/' !in c
    ensures PathOf(Join(parts, "/")) == parts
    decreases |parts|
  {
    hide Split;
    assert "/" == ['/'] && parts[0] in parts;
    SplitNone(parts[0], '/');
    if |parts| == 1 {
      assert parts == [parts[0]];
    } else {
      SplitSlash(parts[0], Join(parts[1..], "/"));
      PathOfJoin(parts[1..]);
      assert [parts[0]] + parts[1..] == parts;
    }
  }

  /** The handler sees the components of the target, whatever the route is called. */
  lemma TargetParts(verb: Verb, route: string, parts: seq<string>, body: string)
    requires '/' !in route && PlainParts(parts)
    ensures Parts(Request(verb, route, parts, body)) == Some(parts)
    ensures Suffix(Request(verb, route, parts, body).target) == Some(Join(parts, "/"))
  {
    hide Suffix, PathOf, Join;
    RouteTarget(route, Join(parts, "/"));
    PathOfJoin(parts);
  }

  lemma PlainTarget(verb: Verb, route: string, parts: seq<string>, body: string)
    requires '/' !in route && PlainParts(parts)
    ensures PlainRequest(Request(verb, route, parts, body))
  {
    hide Suffix, PathOf, Join, Payload, Stoi, IsId;
    TargetParts(verb, route, parts, body);
    assert Front(parts) + [Last(parts)] == parts;
  }

  // ---------------------------------------------------------------- POST

  /**
   POST to an entity: the bytes behind the first empty line are stored under the least number
   whose name is free, if a file can be written there, and the number is answered with 201.
   */
  lemma Posted(nodes: Store, dataPath: string, route: string, e: seq<string>, body: string,
               before: ResponseFields, ending: Ending, after: ResponseFields) returns (n: nat)
    requires Rooted(nodes, BaseOf(dataPath)) && '/' !in route && PlainParts(e) && !AllDigits(Last(e)) && HasBody(body)
    requires Responds(nodes, dataPath, Request(POST, route, e, body), before, ending, after)
    ensures var a := Abs(nodes, BaseOf(dataPath));
            var b := Abs(NextBy(nodes, BaseOf(dataPath), Request(POST, route, e, body)), BaseOf(dataPath));
            && LeastFreeId(a, e, n) && WritesIfFree(a, Key(e, Numeral(n)), BodyBytes(body), b)
            && (if Throws(a, Key(e, Numeral(n))) then ending == Threw && after == before
                else ending == Returned(true) && Told(after, 201, "{\"id\": " + Numeral(n) + "}\n"))
  {
    hide Rooted, Abs, Responds, HasBody, BodyBytes, WritesIfFree, Throws, LeastFreeId, BaseOf, Join, Suffix, PathOf,
      Payload;
    var post := Request(POST, route, e, body);
    TargetParts(POST, route, e, body);
    PlainTarget(POST, route, e, body);
    BodyStored(body);
    n := PostAnswers(nodes, dataPath, post, e, BodyBytes(body), before, ending, after);
  }

  /** What POST has stored is what a GET of the number answers, after any requests that leave it alone. */
  lemma PostedIsRead(nodes: Store, dataPath: string, route: string, e: seq<string>, body: string,
                     reqs: seq<HttpRequest>, n: nat, before: ResponseFields, ending: Ending, after: ResponseFields)
    requires Rooted(nodes, BaseOf(dataPath)) && '/' !in route && PlainParts(e) && !AllDigits(Last(e)) && HasBody(body)
    requires LeastFreeId(Abs(nodes, BaseOf(dataPath)), e, n) && Free(Abs(nodes, BaseOf(dataPath)), Key(e, Numeral(n)))
    requires AllPlain(reqs) && forall req | req in reqs :: !Touches(req, Key(e, Numeral(n)))
    requires var next := NextBy(nodes, BaseOf(dataPath), Request(POST, route, e, body));
             Responds(Run(next, BaseOf(dataPath), reqs), dataPath, Request(GET, route, e + [Numeral(n)], ""),
                      before, ending, after)
    ensures if n <= INT_MAX then ending == Returned(true) && Told(after, 200, BodyBytes(body))
            else ending == Threw && after == before
  {
    hide Rooted, Abs, Responds, HasBody, BodyBytes, Free, BaseOf, Join, Suffix, PathOf, Payload, Touches, Value,
      LeastFree, Writable;
    var base := BaseOf(dataPath);
    var op := Post(e, BodyBytes(body));
    TargetParts(POST, route, e, body);
    PlainTarget(POST, route, e, body);
    BodyStored(body);
    LeastFreeAbs(nodes, base, e);
    LeastFreeIdUnique(Abs(nodes, base), e, n, LeastFree(nodes, base + e));
    FreeExactly(nodes, base, Key(e, Numeral(n)));
    NumeralComponent(e, n);
    TargetParts(GET, route, e + [Numeral(n)], "");
    NumeralValue(n);
    RootIsDirectory(nodes, base);
    LastWriteIsRead(nodes, dataPath, Request(POST, route, e, body), op, reqs,
                    Request(GET, route, e + [Numeral(n)], ""), before, ending, after);
  }

  lemma NumeralComponent(e: seq<string>, n: nat)
    requires PlainParts(e)
    ensures PlainParts(e + [Numeral(n)])
  {
    assert forall c | c in Numeral(n) :: IsDigit(c);
    assert Numeral(n)[0] in Numeral(n);
  }

  lemma LeastFreeIdUnique(a: Abstract, e: seq<string>, m: nat, n: nat)
    requires LeastFreeId(a, e, m) && LeastFreeId(a, e, n)
    ensures m == n
  {
    hide Present;
    assert m < n ==> Present(a, Key(e, Numeral(m)));
    assert n < m ==> Present(a, Key(e, Numeral(n)));
  }

  // ---------------------------------------------------------------- PUT

  /** PUT of an instance: the bytes behind the first empty line are stored if a file can be written there. */
  lemma PutIn(nodes: Store, dataPath: string, route: string, k: Key, body: string,
              before: ResponseFields, ending: Ending, after: ResponseFields)
    requires Rooted(nodes, BaseOf(dataPath)) && '/' !in route && HasBody(body)
    requires PlainParts(k.entity + [k.id]) && AllDigits(k.id)
    requires Responds(nodes, dataPath, Request(PUT, route, k.entity + [k.id], body), before, ending, after)
    ensures var a := Abs(nodes, BaseOf(dataPath));
            var next := NextBy(nodes, BaseOf(dataPath), Request(PUT, route, k.entity + [k.id], body));
            var b := Abs(next, BaseOf(dataPath));
            && WritesIfFree(a, k, BodyBytes(body), b)
            && ending == (if Throws(a, k) then Threw else Returned(true))
            && after == ResponseFields(if Present(a, k) then 200 else 201, "application/json", before.contentLength,
                          "Edited " + ("." + dataPath + "/" + Join(k.entity + [k.id], "/")) + " on the server\n")
  {
    hide Rooted, Abs, HasBody, BodyBytes, WritesIfFree, Throws, BaseOf, Join, Suffix, PathOf, Payload, Present,
      AfterWrite, WriteThrows;
    var parts := k.entity + [k.id];
    var put := Request(PUT, route, parts, body);
    TargetParts(PUT, route, parts, body);
    PlainTarget(PUT, route, parts, body);
    BodyStored(body);
    KeyForParts(k);
    PutAnswers(nodes, dataPath, put, k, BodyBytes(body), before, ending, after);
    AfterWriteAbs(nodes, BaseOf(dataPath), k, BodyBytes(body));
  }

  /** What PUT has stored is what a GET of it answers, after any requests that leave it alone. */
  lemma PutIsRead(nodes: Store, dataPath: string, route: string, k: Key, body: string, reqs: seq<HttpRequest>,
                  before: ResponseFields, ending: Ending, after: ResponseFields)
    requires Rooted(nodes, BaseOf(dataPath)) && '/' !in route && HasBody(body)
    requires PlainParts(k.entity + [k.id]) && AllDigits(k.id) && Free(Abs(nodes, BaseOf(dataPath)), k)
    requires AllPlain(reqs) && forall req | req in reqs :: !Touches(req, k)
    requires var next := NextBy(nodes, BaseOf(dataPath), Request(PUT, route, k.entity + [k.id], body));
             Responds(Run(next, BaseOf(dataPath), reqs), dataPath, Request(GET, route, k.entity + [k.id], ""),
                      before, ending, after)
    ensures if Value(k.id) <= INT_MAX then ending == Returned(true) && Told(after, 200, BodyBytes(body))
            else ending == Threw && after == before
  {
    hide Rooted, Abs, Responds, HasBody, BodyBytes, Free, BaseOf, Join, Suffix, PathOf, Payload, Touches, Value,
      Writable;
    var base, parts := BaseOf(dataPath), k.entity + [k.id];
    TargetParts(PUT, route, parts, body);
    PlainTarget(PUT, route, parts, body);
    TargetParts(GET, route, parts, "");
    BodyStored(body);
    KeyForParts(k);
    FreeExactly(nodes, base, k);
    RootIsDirectory(nodes, base);
    LastWriteIsRead(nodes, dataPath, Request(PUT, route, parts, body), Put(k, BodyBytes(body)), reqs,
                    Request(GET, route, parts, ""), before, ending, after);
  }

  // ---------------------------------------------------------------- DELETE

  /** DELETE of an instance: it is dropped, like an empty directory of its name, and the client is told. */
  lemma Deleted(nodes: Store, dataPath: string, route: string, k: Key, body: string,
                before: ResponseFields, ending: Ending, after: ResponseFields)
    requires Rooted(nodes, BaseOf(dataPath)) && '/' !in route
    requires PlainParts(k.entity + [k.id]) && AllDigits(k.id)
    requires Responds(nodes, dataPath, Request(DELETE, route, k.entity + [k.id], body), before, ending, after)
    ensures var a := Abs(nodes, BaseOf(dataPath));
            var next := NextBy(nodes, BaseOf(dataPath), Request(DELETE, route, k.entity + [k.id], body));
            var b := Abs(next, BaseOf(dataPath));
            if !Present(a, k) then
              && b == a && ending == Returned(false)
              && after == ResponseFields(404, "application/json", Some(|before.body|), "File does not exist\n")
            else if k in a.data || EmptyDir(a, k.entity + [k.id]) then
              && b == Without(a, k) && !Present(b, k) && ending == Returned(true)
              && Told(after, 200,
                      "Deleted " + ("." + dataPath + "/" + Join(k.entity + [k.id], "/")) + " from the server\n")
            else
              b == a && ending == Threw && after == before
  {
    hide Rooted, Abs, BaseOf, Join, Suffix, PathOf, Payload, Present, EmptyDir, Children, Removable;
    var base, parts := BaseOf(dataPath), k.entity + [k.id];
    TargetParts(DELETE, route, parts, body);
    KeyForParts(k);
    PresentExactly(nodes, base, k);
    RemovableExactly(nodes, base, k);
    DeletedAbs(nodes, base, k);
    WithoutPresent(Abs(nodes, base), k);
    FilesAreNotDirectories(nodes, base, k);
  }

  lemma RemovableExactly(nodes: Store, base: Path, k: Key)
    ensures Removable(nodes, KeyPath(base, k)) <==>
            k in Abs(nodes, base).data || EmptyDir(Abs(nodes, base), k.entity + [k.id])
  {
    hide Abs, EmptyDir, Children, KeyPath;
    var p, e := KeyPath(base, k), k.entity + [k.id];
    RelativePath(base, k);
    InData(nodes, base, k);
    InDirs(nodes, base, e);
    NotEmptyUnlessThere(Abs(nodes, base), e);
    if p in nodes && nodes[p].Dir? {
      EmptyExactly(nodes, base, e);
    }
  }

  lemma FilesAreNotDirectories(nodes: Store, base: Path, k: Key)
    ensures k in Abs(nodes, base).data ==> k.entity + [k.id] !in Abs(nodes, base).dirs
  {
    hide Abs, KeyPath;
    InData(nodes, base, k);
    InDirs(nodes, base, k.entity + [k.id]);
    RelativePath(base, k);
  }

  lemma WithoutPresent(a: Abstract, k: Key)
    ensures !Present(a, k) ==> Without(a, k) == a
    ensures k in a.data && k.entity + [k.id] !in a.dirs ==> !Present(Without(a, k), k)
    ensures k !in a.data && EmptyDir(a, k.entity + [k.id]) ==> !Present(Without(a, k), k)
    ensures k !in a.data && !EmptyDir(a, k.entity + [k.id]) ==> Without(a, k) == a
  {
    NotEmptyUnlessThere(a, k.entity + [k.id]);
  }

  // ---------------------------------------------------------------- GET

  /** GET of an entity that is a directory: its instances and entities in brackets, each once. */
  lemma Listed(nodes: Store, dataPath: string, route: string, e: seq<string>, body: string,
               before: ResponseFields, ending: Ending, after: ResponseFields)
    returns (names: seq<string>, inner: string)
    requires '/' !in route && PlainParts(e) && !BeginsWithInt(Last(e)) && e in Abs(nodes, BaseOf(dataPath)).dirs
    requires Responds(nodes, dataPath, Request(GET, route, e, body), before, ending, after)
    ensures ending == Returned(true)
    ensures after == ResponseFields(200, "application/json", before.contentLength, "[" + inner + "]\n")
    ensures if names == [] then inner == "" else inner == Join(names, ", ")
    ensures names != [] && (forall c | c in names :: ',' !in c) ==> Split(inner, ", ") == names
    ensures var a := Abs(nodes, BaseOf(dataPath));
            forall c :: c in names <==> Key(e, c) in a.data || e + [c] in a.dirs
    ensures forall i, j | 0 <= i < j < |names| :: names[i] != names[j]
  {
    hide Abs, BaseOf, Join, Split, Suffix, PathOf, BeginsWithInt, Stoi, Children;
    var base := BaseOf(dataPath);
    TargetParts(GET, route, e, body);
    InDirs(nodes, base, e);
    StoiExactly(Last(e));
    names, inner := ListAnswers(nodes, dataPath, Request(GET, route, e, body), e, before, ending, after);
  }

  /** GET of anything that a number begins: the file's bytes, nothing of a directory, or 404. */
  lemma Read(nodes: Store, dataPath: string, route: string, e: seq<string>, body: string,
             before: ResponseFields, ending: Ending, after: ResponseFields)
    requires '/' !in route && PlainParts(e) && BeginsWithInt(Last(e))
    requires Responds(nodes, dataPath, Request(GET, route, e, body), before, ending, after)
    ensures var a := Abs(nodes, BaseOf(dataPath));
            if KeyFor(e) in a.data then ending == Returned(true) && Told(after, 200, a.data[KeyFor(e)])
            else if e in a.dirs then ending == Returned(true) && Told(after, 200, "")
            else ending == Returned(false) && Told(after, 404, "File does not exist\n")
  {
    hide Abs, BaseOf, Join, Suffix, PathOf, BeginsWithInt, Stoi;
    var base := BaseOf(dataPath);
    TargetParts(GET, route, e, body);
    StoiExactly(Last(e));
    KeyParts(base, e);
    InData(nodes, base, KeyFor(e));
    InDirs(nodes, base, e);
  }

  /** GET of anything else that is no directory: 404, or an exception at a file. */
  lemma NotListed(nodes: Store, dataPath: string, route: string, e: seq<string>, body: string,
                  before: ResponseFields, ending: Ending, after: ResponseFields)
    requires '/' !in route && PlainParts(e) && !BeginsWithInt(Last(e)) && e !in Abs(nodes, BaseOf(dataPath)).dirs
    requires Responds(nodes, dataPath, Request(GET, route, e, body), before, ending, after)
    ensures if KeyFor(e) in Abs(nodes, BaseOf(dataPath)).data then ending == Threw && after == before
            else ending == Returned(false) && Told(after, 404, "Directory not found\n")
  {
    hide Abs, BaseOf, Join, Suffix, PathOf, BeginsWithInt, Stoi;
    var base := BaseOf(dataPath);
    TargetParts(GET, route, e, body);
    StoiExactly(Last(e));
    KeyParts(base, e);
    InData(nodes, base, KeyFor(e));
    InDirs(nodes, base, e);
  }

  /** No GET changes the store. */
  lemma GetChangesNothing(nodes: Store, base: Path, req: HttpRequest)
    requires base != [] && req.verb == GET
    ensures NextBy(nodes, base, req) == nodes
  {
  }

  // ---------------------------------------------------------------- refusals

  /** Targets without two slashes are refused for every verb. */
  lemma TargetRefused(nodes: Store, dataPath: string, req: HttpRequest, x: string, y: string,
                      before: ResponseFields, ending: Ending, after: ResponseFields)
    requires '/' !in x && '/' !in y && req.target in {x, x + "/" + y}
    requires Responds(nodes, dataPath, req, before, ending, after)
    ensures NextBy(nodes, BaseOf(dataPath), req) == nodes && ending == Returned(false)
    ensures req.target == x ==> Told(after, 400, "Request uri " + x + " has no slashes\n")
    ensures req.target == x + "/" + y ==>
              Told(after, 400, "Request uri " + (x + "/" + y) + " only has 1 slash, instead of 2\n")
  {
    hide Find, BaseOf, Answers;
    NoSlashFound(x);
    NoSlashFound(y);
    if req.target == x + "/" + y {
      SlashFirst(x, y);
      assert (x + "/" + y)[|x| + 1..] == y;
    }
  }

  lemma NoSlashFound(s: string)
    requires '/' !in s
    ensures Find(s, "/") < 0
  {
    FirstCharacterFound(s, "/");
  }

  /** An identifier where none may be, or none where one must be, is refused; other verbs get no answer. */
  lemma VerbRefused(nodes: Store, dataPath: string, verb: Verb, route: string, parts: seq<string>, body: string,
                    before: ResponseFields, ending: Ending, after: ResponseFields)
    requires '/' !in route && PlainParts(parts)
    requires verb == OTHER || (verb == POST && AllDigits(Last(parts))) ||
             (verb in {PUT, DELETE} && !AllDigits(Last(parts)))
    requires Responds(nodes, dataPath, Request(verb, route, parts, body), before, ending, after)
    ensures NextBy(nodes, BaseOf(dataPath), Request(verb, route, parts, body)) == nodes && ending == Returned(false)
    ensures verb == POST ==> Told(after, 400, "id in request uri of post request\n")
    ensures verb == PUT ==> Told(after, 400, "numerical id not in request uri of put request\n")
    ensures verb == DELETE ==> Told(after, 400, "numerical id not in request uri of delete request\n")
    ensures verb == OTHER ==> after == before
  {
    hide Find, BaseOf, Answers, Suffix, PathOf, Join, Payload;
    TargetParts(verb, route, parts, body);
    SuffixSlash(Request(verb, route, parts, body).target);
  }

  /** A body too short to be cut makes POST and PUT throw before anything is written or answered. */
  lemma ShortBodyThrows(nodes: Store, dataPath: string, verb: Verb, route: string, parts: seq<string>, body: string,
                        before: ResponseFields, ending: Ending, after: ResponseFields)
    requires '/' !in route && PlainParts(parts) && |CString(body)| < 3
    requires (verb == POST && !AllDigits(Last(parts))) || (verb == PUT && AllDigits(Last(parts)))
    requires Responds(nodes, dataPath, Request(verb, route, parts, body), before, ending, after)
    ensures NextBy(nodes, BaseOf(dataPath), Request(verb, route, parts, body)) == nodes
    ensures ending == Threw && after == before
  {
    hide Find, BaseOf, Answers, Suffix, PathOf, Join, Payload, CString;
    TargetParts(verb, route, parts, body);
    SuffixSlash(Request(verb, route, parts, body).target);
    PayloadThrowsExactly(body);
  }
}

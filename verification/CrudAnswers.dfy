/** What the clients are told, request by request, in terms of the map. */
module CrudAnswers {
  import opened Wrappers
  import opened Sequences
  import opened Decimal
  import opened Segments
  import opened Filesystem
  import opened Identifiers
  import opened CrudStore
  import opened Crud
  import opened Bodies
  import opened CrudRefinement

  // ---------------------------------------------------------------- which requests read an instance

  /** A GET of the key `k`. */
  predicate Gets(get: HttpRequest, k: Key) {
    get.verb == GET && Parts(get) == Some(k.entity + [k.id])
  }

  lemma KeyForParts(k: Key)
    ensures KeyFor(k.entity + [k.id]) == k
  {
    var parts := k.entity + [k.id];
    assert parts[..|parts| - 1] == k.entity;
  }

  /** An instance can be read by GET exactly when its identifier fits an `int`. */
  lemma GetReadsExactly(k: Key, get: HttpRequest)
    requires Gets(get, k) && k.id != "" && IsId(k.id)
    ensures OpOf(get) == Some(Get(k)) <==> Value(k.id) <= INT_MAX
    ensures OpOf(get) == if Value(k.id) <= INT_MAX then Some(Get(k)) else Some(List(k.entity + [k.id]))
  {
    hide Stoi, Parts, Payload;
    KeyForParts(k);
    StoiOnDigits(k.id);
  }

  /** The instance a write goes to. */
  function WrittenKey(nodes: Store, base: Path, op: Op): Key
    requires op.Post? || op.Put?
  {
    if op.Put? then op.key else Key(op.entity, Numeral(LeastFree(nodes, base + op.entity)))
  }

  lemma WrittenKeyPath(nodes: Store, base: Path, write: HttpRequest, op: Op)
    requires PlainRequest(write) && OpOf(write) == Some(op) && (op.Post? || op.Put?)
    ensures var k := WrittenKey(nodes, base, op);
            Target(nodes, base, op) == KeyPath(base, k) && k.id != "" && IsId(k.id)
  {
    hide LeastFree;
    if op.Put? {
      assert op.key.id in Components(op);
    }
  }

  /** A write stores its data exactly where no file stands above the path and no directory at it. */
  lemma WriteStoresExactly(nodes: Store, base: Path, op: Op)
    requires base != [] && (op.Post? || op.Put?)
    ensures var k := WrittenKey(nodes, base, op);
            Instance(Next(nodes, base, op), base, k) == Some(op.data) <==>
            Writable(nodes, Target(nodes, base, op)) || Instance(nodes, base, k) == Some(op.data)
  {
    hide LeastFree, Writable;
    var p := Target(nodes, base, op);
    assert p == KeyPath(base, WrittenKey(nodes, base, op));
  }

  /**
   The client is told of success although nothing was written exactly where the node right above
   the path is a file, or the path itself a directory.
   */
  lemma SuccessWithoutWrite(nodes: Store, dataPath: string, write: HttpRequest, op: Op,
                            before: ResponseFields, ending: Ending, after: ResponseFields)
    requires TreeClosed(nodes) && PlainRequest(write) && OpOf(write) == Some(op) && (op.Post? || op.Put?)
    requires Responds(nodes, dataPath, write, before, ending, after)
    ensures var p := Target(nodes, BaseOf(dataPath), op);
            ending == Returned(true) && !Writable(nodes, p) <==>
            || (Front(p) in nodes && nodes[Front(p)].File?)
            || (p in nodes && nodes[p].Dir?)
  {
    hide LeastFree, OpOf, TreeClosed, FileAbove;
    var base := BaseOf(dataPath);
    var p := Target(nodes, base, op);
    assert |p| > 1 && Front(p) != [] by {
      WrittenKeyPath(nodes, base, write, op);
    }
    ParentDecides(nodes, p);
    NoRoot(nodes, p);
  }

  lemma NoRoot(nodes: Store, p: Path)
    requires TreeClosed(nodes) && |p| > 1
    ensures p in nodes ==> Front(p) in nodes && nodes[Front(p)].Dir?
  {
    assert p in nodes ==> p[..|p| - 1] in nodes;
  }

  /** The requests whose writes go below named entities. */
  predicate NamedRequest(req: HttpRequest) {
    PlainRequest(req) && (OpOf(req).Some? ==> NamedOp(OpOf(req).value))
  }

  lemma ShapeIsRooted(nodes: Store, base: Path)
    requires WellShaped(nodes, base)
    ensures Rooted(nodes, base)
  {
  }

  /** Below named entities, and from a store with nothing but identifiers as files, no write fails. */
  lemma NamedWritesSucceed(nodes: Store, base: Path, write: HttpRequest, op: Op)
    requires WellShaped(nodes, base) && NamedRequest(write) && OpOf(write) == Some(op) && (op.Post? || op.Put?)
    ensures Free(Abs(nodes, base), WrittenKey(nodes, base, op))
    ensures WellShaped(NextBy(nodes, base, write), base)
  {
    hide OpOf, WellShaped, Abs, Free, Writable, LeastFree, Entity;
    NextKeepsShape(nodes, base, op);
    ShapeIsRooted(nodes, base);
    FreeExactly(nodes, base, WrittenKey(nodes, base, op));
  }

  // ---------------------------------------------------------------- what is answered

  /** GET of a key in any store, by whether the identifier fits an `int`. */
  lemma GetAnswers(nodes: Store, dataPath: string, k: Key, get: HttpRequest,
                   before: ResponseFields, ending: Ending, after: ResponseFields)
    requires Gets(get, k) && k.id != "" && IsId(k.id)
    requires Responds(nodes, dataPath, get, before, ending, after)
    ensures var p, fits := KeyPath(BaseOf(dataPath), k), Value(k.id) <= INT_MAX;
            && (p !in nodes ==>
                  && ending == Returned(false)
                  && after == Sized(if fits then "File does not exist\n" else "Directory not found\n", 404))
            && (p in nodes && nodes[p].File? ==>
                  if fits then ending == Returned(true) && after == Sized(nodes[p].data, 200)
                  else ending == Threw && after == before)
  {
    hide OpOf, Value, Parts;
    GetReadsExactly(k, get);
    assert KeyPath(BaseOf(dataPath), k) == BaseOf(dataPath) + (k.entity + [k.id]);
  }

  /** The data of a write are the bytes behind the first empty line of its request. */
  lemma DataIsBody(write: HttpRequest, op: Op)
    requires OpOf(write) == Some(op) && (op.Post? || op.Put?)
    ensures HasBody(write.body) ==> op.data == BodyBytes(write.body)
  {
    hide Payload, HasBody, BodyBytes;
    if HasBody(write.body) {
      BodyStored(write.body);
    }
  }

  /**
   The last write is read back: after a POST or PUT that could store its data, and any run of
   requests that neither puts nor deletes that instance, a GET of it answers with the data if
   its identifier fits an `int`; otherwise the handler throws.
   */
  lemma LastWriteIsRead(nodes: Store, dataPath: string, write: HttpRequest, op: Op, reqs: seq<HttpRequest>,
                        get: HttpRequest, before: ResponseFields, ending: Ending, after: ResponseFields)
    requires TreeClosed(nodes) && PlainRequest(write) && AllPlain(reqs)
    requires OpOf(write) == Some(op) && (op.Post? || op.Put?)
    requires Writable(nodes, Target(nodes, BaseOf(dataPath), op))
    requires var k := WrittenKey(nodes, BaseOf(dataPath), op);
             Gets(get, k) && forall req | req in reqs :: !Touches(req, k)
    requires Responds(Run(NextBy(nodes, BaseOf(dataPath), write), BaseOf(dataPath), reqs), dataPath, get,
                      before, ending, after)
    ensures var id := WrittenKey(nodes, BaseOf(dataPath), op).id;
            && IsId(id)
            && if Value(id) <= INT_MAX then ending == Returned(true) && after == Sized(op.data, 200)
               else ending == Threw && after == before
    ensures HasBody(write.body) ==> op.data == BodyBytes(write.body)
  {
    DataIsBody(write, op);
    hide OpOf, TreeClosed, Responds, Target, WrittenKey, PlainRequest, Writable, Touches, Gets, BaseOf, Value;
    var base := BaseOf(dataPath);
    var k, next := WrittenKey(nodes, base, op), NextBy(nodes, base, write);
    WrittenKeyPath(nodes, base, write, op);
    WriteStoresExactly(nodes, base, op);
    NextByKeepsTree(nodes, base, write);
    UntouchedKeysStay(next, base, reqs, k);
    GetAnswers(Run(next, base, reqs), dataPath, k, get, before, ending, after);
  }

  /**
   After a DELETE that found nothing or something it could remove, a GET finds nothing until a
   request creates the instance again; which text it answers depends on the range of `int`.
   */
  lemma DeletedIsNotFound(nodes: Store, dataPath: string, del: HttpRequest, k: Key, reqs: seq<HttpRequest>,
                          get: HttpRequest, before: ResponseFields, ending: Ending, after: ResponseFields)
    requires TreeClosed(nodes) && PlainRequest(del) && AllPlain(reqs)
    requires OpOf(del) == Some(Delete(k)) && Gets(get, k)
    requires KeyPath(BaseOf(dataPath), k) in nodes ==> Removable(nodes, KeyPath(BaseOf(dataPath), k))
    requires forall req | req in reqs :: !Creates(req, k)
    requires Responds(Run(NextBy(nodes, BaseOf(dataPath), del), BaseOf(dataPath), reqs), dataPath, get,
                      before, ending, after)
    ensures IsId(k.id) && ending == Returned(false)
    ensures after == Sized(if Value(k.id) <= INT_MAX then "File does not exist\n" else "Directory not found\n", 404)
  {
    hide TreeClosed, Responds, Creates, Gets, BaseOf, Value, Suffix, Payload;
    var base := BaseOf(dataPath);
    var next := NextBy(nodes, base, del);
    assert k.id in Components(Delete(k));
    NextByKeepsTree(nodes, base, del);
    AbsentKeysStay(next, base, reqs, k);
    GetAnswers(Run(next, base, reqs), dataPath, k, get, before, ending, after);
  }

  /**
   GET lists exactly where no number of `int` range begins the last component; then it answers
   with the instances and entities in the directory, each once, finds no directory, or throws
   at a file. Otherwise it reads the path as an instance.
   */
  lemma ListAnswers(nodes: Store, dataPath: string, get: HttpRequest, e: seq<string>,
                    before: ResponseFields, ending: Ending, after: ResponseFields)
    returns (names: seq<string>, inner: string)
    requires get.verb == GET && Parts(get) == Some(e)
    requires Responds(nodes, dataPath, get, before, ending, after)
    ensures OpOf(get) == Some(List(e)) <==> !BeginsWithInt(Last(e))
    ensures var a, p := Abs(nodes, BaseOf(dataPath)), BaseOf(dataPath) + e;
            if BeginsWithInt(Last(e)) then
              after == if p in nodes then Sized(DataAt(nodes, p), 200) else Sized("File does not exist\n", 404)
            else if p !in nodes then
              ending == Returned(false) && after == Sized("Directory not found\n", 404)
            else if e in a.dirs then
              && ending == Returned(true) && after.result == 200 && after.body == "[" + inner + "]\n"
              && (if names == [] then inner == "" else inner == Join(names, ", "))
              && (names != [] && (forall c | c in names :: ',' !in c) ==> Split(inner, ", ") == names)
              && (forall c :: c in names <==> Key(e, c) in a.data || e + [c] in a.dirs)
              && forall i, j | 0 <= i < j < |names| :: names[i] != names[j]
            else
              ending == Threw && after == before
  {
    hide Abs, Children, Stoi, BeginsWithInt, Join, Split;
    var base := BaseOf(dataPath);
    StoiExactly(Last(e));
    KeyParts(base, e);
    InDirs(nodes, base, e);
    names, inner := [], "";
    if !BeginsWithInt(Last(e)) && e in Abs(nodes, base).dirs {
      names :| Enumerates(names, Children(nodes, base + e)) && after.body == Json(names) + "\n";
      inner := Commas(names);
      assert "[" + inner + "]" + "\n" == "[" + inner + "]\n" by {
        assert "]" + "\n" == "]\n";
      }
      if names != [] && forall c | c in names :: ',' !in c {
        CommasReadBack(names);
      }
      forall c
        ensures c in names <==> Key(e, c) in Abs(nodes, base).data || e + [c] in Abs(nodes, base).dirs
      {
        ListedName(nodes, base, e, c);
      }
    }
  }

  /** PUT answers 200 where something has the name and 201 elsewhere, or throws where the map says so. */
  lemma PutAnswers(nodes: Store, dataPath: string, put: HttpRequest, k: Key, data: string,
                   before: ResponseFields, ending: Ending, after: ResponseFields)
    requires Rooted(nodes, BaseOf(dataPath)) && PlainRequest(put) && OpOf(put) == Some(Put(k, data))
    requires Responds(nodes, dataPath, put, before, ending, after)
    ensures var a := Abs(nodes, BaseOf(dataPath));
            && ending == (if Throws(a, k) then Threw else Returned(true))
            && after.result == if Present(a, k) then 200 else 201
    ensures HasBody(put.body) ==> data == BodyBytes(put.body)
  {
    DataIsBody(put, Put(k, data));
    hide Rooted, Abs, OpOf, BaseOf, Throws, Present, WriteThrows;
    var base := BaseOf(dataPath);
    PresentExactly(nodes, base, k);
    ThrowsExactly(nodes, base, k);
  }

  /** POST answers with the least number whose name is not taken, and writes there if that is free. */
  lemma PostAnswers(nodes: Store, dataPath: string, post: HttpRequest, e: seq<string>, data: string,
                    before: ResponseFields, ending: Ending, after: ResponseFields) returns (n: nat)
    requires Rooted(nodes, BaseOf(dataPath)) && PlainRequest(post) && OpOf(post) == Some(Post(e, data))
    requires Responds(nodes, dataPath, post, before, ending, after)
    ensures var a, b := Abs(nodes, BaseOf(dataPath)), Abs(NextBy(nodes, BaseOf(dataPath), post), BaseOf(dataPath));
            && LeastFreeId(a, e, n) && n <= |Children(nodes, BaseOf(dataPath) + e)| + 1
            && WritesIfFree(a, Key(e, Numeral(n)), data, b)
            && (if Throws(a, Key(e, Numeral(n))) then ending == Threw && after == before
                else ending == Returned(true) && after == Sized("{\"id\": " + Numeral(n) + "}\n", 201))
    ensures HasBody(post.body) ==> data == BodyBytes(post.body)
  {
    DataIsBody(post, Post(e, data));
    hide Rooted, Abs, LeastFreeId, LeastFree, OpOf, BaseOf, Throws, WritesIfFree, WriteThrows, AfterWrite;
    var base := BaseOf(dataPath);
    n := LeastFree(nodes, base + e);
    var k := Key(e, Numeral(n));
    LeastFreeAbs(nodes, base, e);
    LeastFreeBound(nodes, base + e);
    ThrowsExactly(nodes, base, k);
    AfterWriteAbs(nodes, base, k, data);
  }

  // ---------------------------------------------------------------- requests where the code goes astray

  lemma TwoComponents(entity: string, id: string)
    requires '/' !in entity && '/' !in id
    ensures PathOf(entity + "/" + id) == [entity, id]
  {
    SplitSlash(entity, id);
    SplitNone(entity, '/');
    SplitNone(id, '/');
    assert "/" == ['/'];
  }

  lemma ApiPut(entity: string, id: string, data: string)
    requires '/' !in entity && '/' !in id && id != "" && IsId(id) && '\0' !in data
    requires PlainComponent(entity) && PlainComponent(id)
    ensures var put := HttpRequest(PUT, "/api/" + (entity + "/" + id), BLANK_LINE + data);
            && OpOf(put) == Some(Put(Key([entity], id), data)) && PlainRequest(put)
            && Suffix(put.target).Some?
  {
    hide Suffix, PathOf, Payload, IsId;
    var k := Key([entity], id);
    ApiTarget(entity + "/" + id);
    TwoComponents(entity, id);
    KeyForParts(k);
    assert k.entity + [k.id] == [entity, id];
    BlankLineFirst(data);
  }

  /** With a file where the entity would be, PUT answers that it created the instance but writes nothing. */
  lemma LostWrite(nodes: Store, dataPath: string, data: string, before: ResponseFields, ending: Ending,
                  after: ResponseFields)
    requires TreeClosed(nodes) && '\0' !in data
    requires var p := BaseOf(dataPath) + ["5"]; p in nodes && nodes[p].File?
    requires Responds(nodes, dataPath, HttpRequest(PUT, "/api/" + ("5" + "/" + "3"), BLANK_LINE + data),
                      before, ending, after)
    ensures ending == Returned(true) && after.result == 201
    ensures NextBy(nodes, BaseOf(dataPath), HttpRequest(PUT, "/api/" + ("5" + "/" + "3"), BLANK_LINE + data)) == nodes
  {
    hide TreeClosed, OpOf, FileAbove, BaseOf, PlainRequest;
    var base := BaseOf(dataPath);
    ApiPut("5", "3", data);
    var p := KeyPath(base, Key(["5"], "3"));
    assert p == base + ["5"] + ["3"] && Front(p) == base + ["5"];
    ParentDecides(nodes, p);
    NoRoot(nodes, p);
  }

  lemma ThreeComponents(a: string, b: string, c: string)
    requires '/' !in a && '/' !in b && '/' !in c
    ensures PathOf(a + "/" + (b + "/" + c)) == [a, b, c]
  {
    hide Split;
    SplitSlash(a, b + "/" + c);
    SplitNone(a, '/');
    TwoComponents(b, c);
    assert "/" == ['/'];
  }

  /** One level deeper it throws, with the response already filled. */
  lemma ThrowingWrite(nodes: Store, dataPath: string, data: string, before: ResponseFields, ending: Ending,
                      after: ResponseFields)
    requires TreeClosed(nodes) && '\0' !in data
    requires var p := BaseOf(dataPath) + ["5"]; p in nodes && nodes[p].File?
    requires Responds(nodes, dataPath, HttpRequest(PUT, "/api/" + ("5" + "/" + ("x" + "/" + "3")), BLANK_LINE + data),
                      before, ending, after)
    ensures ending == Threw && after.result == 201
  {
    hide TreeClosed, FileAbove, BaseOf, Suffix, PathOf, Payload, EntityPath, Split;
    var base := BaseOf(dataPath);
    var k := Key(["5", "x"], "3");
    ApiTarget("5" + "/" + ("x" + "/" + "3"));
    ThreeComponents("5", "x", "3");
    KeyForParts(k);
    assert k.entity + [k.id] == ["5", "x", "3"];
    BlankLineFirst(data);
    FileBlocks(nodes, base + ["5"], KeyPath(base, k));
  }

  /** Below a file there is nothing, and two levels below it nothing can be written. */
  lemma FileBlocks(nodes: Store, q: Path, p: Path)
    requires TreeClosed(nodes) && q in nodes && nodes[q].File? && q != [] && |q| + 1 < |p| && q <= p
    ensures p !in nodes && WriteThrows(nodes, p)
  {
    assert q == p[..|q|] && q == Front(p)[..|q|];
    assert q in Ancestors(p);
    assert p !in nodes && Front(p) !in nodes;
  }

  /** Data stored under an identifier beyond `int` cannot be read: the handler tries to list a file. */
  lemma BigIdentifierThrows(nodes: Store, dataPath: string, data: string,
                            before: ResponseFields, ending: Ending, after: ResponseFields)
    requires TreeClosed(nodes) && '\0' !in data
    requires Writable(nodes, BaseOf(dataPath) + ["Shoes", TOO_BIG])
    requires var put := HttpRequest(PUT, "/api/" + ("Shoes" + "/" + TOO_BIG), BLANK_LINE + data);
             var get := HttpRequest(GET, "/api/" + ("Shoes" + "/" + TOO_BIG), "");
             Responds(NextBy(nodes, BaseOf(dataPath), put), dataPath, get, before, ending, after)
    ensures ending == Threw
  {
    hide TreeClosed, Responds, Writable, Value, OpOf, PlainRequest, IsId, NextBy, Gets, BaseOf;
    var base := BaseOf(dataPath);
    var put := HttpRequest(PUT, "/api/" + ("Shoes" + "/" + TOO_BIG), BLANK_LINE + data);
    var get := HttpRequest(GET, "/api/" + ("Shoes" + "/" + TOO_BIG), "");
    var k := Key(["Shoes"], TOO_BIG);
    BigPut(put, get, data);
    TooBig();
    assert KeyPath(base, k) == base + ["Shoes", TOO_BIG];
    assert Run(NextBy(nodes, base, put), base, []) == NextBy(nodes, base, put);
    LastWriteIsRead(nodes, dataPath, put, Put(k, data), [], get, before, ending, after);
  }

  lemma BigPut(put: HttpRequest, get: HttpRequest, data: string)
    requires '\0' !in data
    requires put == HttpRequest(PUT, "/api/" + ("Shoes" + "/" + TOO_BIG), BLANK_LINE + data)
    requires get == HttpRequest(GET, "/api/" + ("Shoes" + "/" + TOO_BIG), "")
    ensures var k := Key(["Shoes"], TOO_BIG);
            OpOf(put) == Some(Put(k, data)) && PlainRequest(put) && Gets(get, k)
  {
    hide Suffix, PathOf, OpOf, IsId;
    TooBig();
    PlainTooBig();
    PlainShoes();
    ApiPut("Shoes", TOO_BIG, data);
    ApiTarget("Shoes" + "/" + TOO_BIG);
    TwoComponents("Shoes", TOO_BIG);
    assert ["Shoes"] + [TOO_BIG] == ["Shoes", TOO_BIG];
  }

  lemma PlainTooBig()
    ensures '/' !in TOO_BIG && PlainComponent(TOO_BIG)
  {
  }

  lemma PlainShoes()
    ensures '/' !in "Shoes" && PlainComponent("Shoes")
  {
  }

  lemma BlankLineFirst(data: string)
    requires '\0' !in data
    ensures Payload(BLANK_LINE + data) == Some(data)
  {
    var body := BLANK_LINE + data;
    WholeCString(body);
    assert body[0..4] == BLANK_LINE && MatchAt(body, BLANK_LINE, 0);
    FindUnique(body, BLANK_LINE, 0);
    assert body[4..] == data;
  }

  /** An entity whose name begins with digits is never listed. */
  lemma DigitsFirstIsNotListed()
    ensures OpOf(HttpRequest(GET, "/api/3dmodels", "")) == Some(Get(Key([], "3dmodels")))
  {
    hide Suffix, Split, Stoi;
    assert "/api/" + "3dmodels" == "/api/3dmodels";
    ApiTarget("3dmodels");
    SplitNone("3dmodels", '/');
    assert "/" == ['/'];
    assert PathOf("3dmodels") == ["3dmodels"];
    KeyForParts(Key([], "3dmodels"));
    assert [] + ["3dmodels"] == ["3dmodels"];
    IdTestsDiffer();
  }

  // ---------------------------------------------------------------- the length header

  const NEW_RESPONSE := ResponseFields(200, "", None, "")

  /** The requests after which a new response carries the length of its body. */
  ghost predicate LengthMatches(nodes: Store, base: Path, req: HttpRequest)
    requires base != []
  {
    if Parts(req).None? then true
    else
      var parts := Parts(req).value;
      match req.verb
      case GET => BeginsWithInt(Last(parts)) || base + parts !in nodes
      case POST =>
        || IsId(Last(parts))
        || (Payload(req.body).Some? && !WriteThrows(nodes, base + parts + [Numeral(LeastFree(nodes, base + parts))]))
      case PUT => !IsId(Last(parts))
      case DELETE => !IsId(Last(parts)) || Removable(nodes, base + parts)
      case OTHER => false
  }

  lemma AnswerLength(nodes: Store, base: Path, op: Op, path: string, ending: Ending, after: ResponseFields)
    requires base != [] && Answers(nodes, base, op, path, NEW_RESPONSE, ending, after)
    ensures after.contentLength == Some(|after.body|) <==>
              match op
              case List(_) => Target(nodes, base, op) !in nodes
              case Get(_) => true
              case Post(_, _) => !WriteThrows(nodes, Target(nodes, base, op))
              case Put(_, _) => false
              case Delete(_) => Removable(nodes, Target(nodes, base, op))
  {
    hide Json, WriteThrows, LeastFree, Children, Numeral;
  }

  /** The length header of a new response equals the size of its body exactly after those requests. */
  lemma ContentLengthMatches(nodes: Store, dataPath: string, req: HttpRequest, ending: Ending, after: ResponseFields)
    requires Responds(nodes, dataPath, req, NEW_RESPONSE, ending, after)
    ensures after.contentLength == Some(|after.body|) <==> LengthMatches(nodes, BaseOf(dataPath), req)
  {
    hide Stoi, BeginsWithInt, LeastFree, WriteThrows, Removable, Answers, IsId, PathOf, Suffix, Find, Payload, BaseOf,
      EntityPath, NoSlashText, OneSlashText;
    var base := BaseOf(dataPath);
    SuffixSlash(req.target);
    if Parts(req).None? {
      NoPartsRefused(req);
    } else {
      StoiExactly(Last(Parts(req).value));
      KeyParts(base, Parts(req).value);
      if OpOf(req).Some? {
        AnswerLength(nodes, base, OpOf(req).value, EntityPath(dataPath, Suffix(req.target).value), ending, after);
      }
    }
  }

  lemma NoPartsRefused(req: HttpRequest)
    requires Parts(req).None?
    ensures OpOf(req).None? && Refusal(req, NEW_RESPONSE).1.contentLength == Some(|Refusal(req, NEW_RESPONSE).1.body|)
  {
  }

  /** No PUT that names an instance answers with a length. */
  lemma PutHasNoLength(nodes: Store, dataPath: string, body: string, ending: Ending, after: ResponseFields)
    requires Responds(nodes, dataPath, HttpRequest(PUT, "/api/" + ("Shoes" + "/" + "1"), body),
                      NEW_RESPONSE, ending, after)
    ensures after.contentLength == None
  {
    hide Suffix, PathOf, Payload, EntityPath;
    ApiTarget("Shoes" + "/" + "1");
    TwoComponents("Shoes", "1");
  }
}

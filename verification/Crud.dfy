/** The CRUD request handler over the file store. */
module Crud {
  import opened Wrappers
  import opened Sequences
  import opened Decimal
  import opened Segments
  import opened Filesystem
  import opened Identifiers
  import opened CrudStore

  datatype Verb = GET | POST | PUT | DELETE | OTHER

  datatype HttpRequest = HttpRequest(verb: Verb, target: string, body: string)

  /** The fields of a response, as a value; the length header may be absent. */
  datatype ResponseFields = ResponseFields(result: nat, contentType: string, contentLength: Option<nat>, body: string)

  /** How a call ends: it returns a flag, or `std::string::substr` or the file system throws. */
  datatype Ending = Returned(ok: bool) | Threw

  /** A response with a text and its length. */
  function Sized(text: string, status: nat): ResponseFields {
    ResponseFields(status, "application/json", Some(|text|), text)
  }

  class HttpResponse {
    var result: nat
    var contentType: string
    var contentLength: Option<nat>
    var body: string

    constructor ()
      ensures View() == ResponseFields(200, "", None, "")
    {
      result, contentType, contentLength, body := 200, "", None, "";
    }

    function View(): ResponseFields
      reads this
    {
      ResponseFields(result, contentType, contentLength, body)
    }

    /** The order in which most branches fill the response: body, then its length. */
    method Fill(text: string, status: nat)
      modifies this
      ensures View() == Sized(text, status)
    {
      body := text;
      result := status;
      contentLength := Some(|body|);
      contentType := "application/json";
    }
  }

  // ---------------------------------------------------------------- reading the request

  /** What follows the second slash of the target. */
  function Suffix(target: string): Option<string> {
    var first := Find(target, "/");
    if first < 0 then None
    else
      var second := Find(target[first + 1..], "/");
      if second < 0 then None else Some(target[first + 1..][second + 1..])
  }

  /** The bytes up to the first NUL, which is what converting to a C string and back leaves. */
  function CString(s: string): string {
    if s == "" || s[0] == '\0' then "" else [s[0]] + CString(s[1..])
  }

  lemma {:induction false} WholeCString(s: string)
    requires '\0' !in s
    ensures CString(s) == s
  {
    if s != "" {
      assert s[0] in s;
      WholeCString(s[1..]);
      assert [s[0]] + s[1..] == s;
    }
  }

  /** Nothing is left of what stands behind the first NUL, and nothing else is lost. */
  lemma {:induction false} CStringPrefix(s: string)
    ensures CString(s) <= s && '\0' !in CString(s)
    ensures |CString(s)| < |s| ==> s[|CString(s)|] == '\0'
  {
    if s != "" && s[0] != '\0' {
      CStringPrefix(s[1..]);
    }
  }

  const BLANK_LINE := "\r\n\r\n"

  /**
   The body behind the header section. Without an empty line the position found is the largest
   number there is; adding 4 wraps around to 3, which is out of range for a shorter body.
   */
  function Payload(body: string): Option<string> {
    var data := CString(body);
    var end := Find(data, BLANK_LINE);
    if end >= 0 then Some(data[end + 4..])
    else if 3 <= |data| then Some(data[3..])
    else None
  }

  /** The components of the path below the data path. */
  function Parts(req: HttpRequest): (parts: Option<Path>)
    ensures parts.Some? ==> parts.value != []
  {
    var suffix := Suffix(req.target);
    if suffix.None? then None else Some(PathOf(suffix.value))
  }

  /** The key whose entity and identifier are these components. */
  function KeyFor(parts: Path): Key
    requires parts != []
  {
    Key(Front(parts), Last(parts))
  }

  /** The store operation a request stands for; None if it is refused or has nothing to store. */
  function OpOf(req: HttpRequest): Option<Op> {
    if Parts(req).None? then None
    else
      var parts := Parts(req).value;
      var id := Last(parts);
      match req.verb
      case POST =>
        if IsId(id) || Payload(req.body).None? then None else Some(Post(parts, Payload(req.body).value))
      case GET => if Stoi(id).Some? then Some(Get(KeyFor(parts))) else Some(List(parts))
      case DELETE => if IsId(id) then Some(Delete(KeyFor(parts))) else None
      case PUT =>
        if !IsId(id) || Payload(req.body).None? then None else Some(Put(KeyFor(parts), Payload(req.body).value))
      case OTHER => None
  }

  /** The path components mean what they say; requests that touch no file are not restricted. */
  predicate PlainRequest(req: HttpRequest) {
    OpOf(req).Some? ==> PlainOp(OpOf(req).value)
  }

  function NextBy(nodes: Store, base: Path, req: HttpRequest): Store
    requires base != []
  {
    match OpOf(req)
    case None => nodes
    case Some(op) => Next(nodes, base, op)
  }

  function BaseOf(dataPath: string): (base: Path)
    ensures base != []
  {
    PathOf("." + dataPath)
  }

  /** The path of an entity or instance, relative to the working directory. */
  function EntityPath(dataPath: string, suffix: string): string {
    "." + dataPath + "/" + suffix
  }

  lemma SuffixPath(dataPath: string, target: string)
    requires Suffix(target).Some?
    ensures var suffix := Suffix(target).value;
            && PathOf(EntityPath(dataPath, suffix)) == BaseOf(dataPath) + PathOf(suffix)
            && Last(PathOf(target)) == Last(PathOf(suffix))
            && Last(PathOf(EntityPath(dataPath, suffix))) == Last(PathOf(suffix))
  {
    hide Split, Find, MatchAt;
    var suffix := Suffix(target).value;
    SplitSlash("." + dataPath, suffix);
    var first := Find(target, "/");
    SliceOut(target, "/", first);
    var rest := target[first + 1..];
    var second := Find(rest, "/");
    SliceOut(rest, "/", second);
    SplitSlash(rest[..second], suffix);
    SplitSlash(target[..first], rest);
  }

  // ---------------------------------------------------------------- answers

  function Json(names: seq<string>): string {
    "[" + Commas(names) + "]"
  }

  function Commas(names: seq<string>): string {
    if names == [] then "" else Join(names, ", ")
  }

  lemma {:induction false} JoinSnoc(names: seq<string>, name: string)
    requires names != []
    ensures Join(names + [name], ", ") == Join(names, ", ") + ", " + name
    decreases |names|
  {
    assert (names + [name])[1..] == names[1..] + [name];
    if |names| == 1 {
      assert names[1..] + [name] == [name];
    } else {
      JoinSnoc(names[1..], name);
    }
  }

  lemma CommasSnoc(names: seq<string>, name: string)
    ensures Commas(names + [name]) == if names == [] then name else Commas(names) + ", " + name
  {
    hide Join;
    if names == [] {
      assert names + [name] == [name];
      JoinOne(name, ", ");
    } else {
      JoinSnoc(names, name);
    }
  }

  lemma CommasNone()
    ensures Commas([]) == ""
  {
  }

  lemma CommasTake(names: seq<string>, i: nat)
    requires i < |names|
    ensures "[" + Commas(names[..i + 1]) == "[" + Commas(names[..i]) + (if 0 < i then ", " else "") + names[i]
  {
    CommasSnoc(names[..i], names[i]);
    assert names[..i + 1] == names[..i] + [names[i]];
    if i > 0 {
      assert "[" + (Commas(names[..i]) + ", " + names[i]) == "[" + Commas(names[..i]) + ", " + names[i];
    } else {
      assert "[" + "" + "" + names[i] == "[" + names[i];
    }
  }

  method StringVectorToJson(elementList: seq<string>) returns (jsonResult: string)
    ensures jsonResult == Json(elementList)
  {
    hide Commas;
    CommasNone();
    jsonResult := "[";
    for i := 0 to |elementList|
      invariant i < |elementList| ==> jsonResult == "[" + Commas(elementList[..i]) + (if 0 < i then ", " else "")
      invariant i == |elementList| ==> jsonResult == "[" + Commas(elementList[..i])
    {
      CommasTake(elementList, i);
      jsonResult := jsonResult + elementList[i];
      if i != |elementList| - 1 {
        jsonResult := jsonResult + ", ";
      }
    }
    assert elementList[..|elementList|] == elementList;
    jsonResult := jsonResult + "]";
  }

  /** A list of names without commas can be read back from its text. */
  lemma {:induction false} CommasReadBack(names: seq<string>)
    requires names != [] && forall n | n in names :: ',' !in n
    ensures Split(Join(names, ", "), ", ") == names
    decreases |names|
  {
    hide Split;
    assert names[0] in names;
    if |names| == 1 {
      assert names[0] + "" == names[0];
      SplitBefore(names[0], "");
      assert names == [names[0]];
    } else {
      var rest := Join(names[1..], ", ");
      CommasReadBack(names[1..]);
      SplitBefore(names[0], ", " + rest);
      SplitComma(rest);
      assert names[0] + (", " + rest) == Join(names, ", ");
      assert names[0] + "" == names[0];
      assert names == [names[0]] + names[1..];
    }
  }

  lemma SplitComma(rest: string)
    ensures Split(", " + rest, ", ") == [""] + Split(rest, ", ")
    ensures Split("", ", ") == [""]
  {
    var s := ", " + rest;
    assert s[0..2] == ", " && s[2..] == rest;
    assert MatchAt(s, ", ", 0);
  }

  lemma {:induction false} SplitBefore(x: string, rest: string)
    requires ',' !in x
    ensures Split(x + rest, ", ") == [x + Split(rest, ", ")[0]] + Split(rest, ", ")[1..]
    ensures rest == "" ==> Split(x + rest, ", ") == [x + ""]
  {
    var s := x + rest;
    var segs := Split(rest, ", ");
    if x == "" {
      assert s == rest;
      assert "" + segs[0] == segs[0];
    } else {
      assert |s| >= 2 ==> s[0..2][0] == x[0];
      assert s[1..] == x[1..] + rest;
      SplitBefore(x[1..], rest);
      assert [x[0]] + (x[1..] + segs[0]) == x + segs[0];
    }
  }

  /** What the client is told about operation `op` on the store `nodes`. */
  ghost predicate Answers(nodes: Store, base: Path, op: Op, path: string,
                          before: ResponseFields, ending: Ending, after: ResponseFields)
    requires base != []
  {
    var p := Target(nodes, base, op);
    match op
    case List(_) =>
      if p !in nodes then ending == Returned(false) && after == Sized("Directory not found\n", 404)
      else if nodes[p].Dir? then
        exists names ::
          && Enumerates(names, Children(nodes, p)) && ending == Returned(true)
          && after == ResponseFields(200, "application/json", before.contentLength, Json(names) + "\n")
      else ending == Threw && after == before
    case Get(_) =>
      if p in nodes then ending == Returned(true) && after == Sized(DataAt(nodes, p), 200)
      else ending == Returned(false) && after == Sized("File does not exist\n", 404)
    case Post(_, _) =>
      if WriteThrows(nodes, p) then ending == Threw && after == before
      else
        var n := LeastFree(nodes, base + op.entity);
        ending == Returned(true) && after == Sized("{\"id\": " + Numeral(n) + "}\n", 201)
    case Put(_, _) =>
      && ending == (if WriteThrows(nodes, p) then Threw else Returned(true))
      && after == ResponseFields(if p in nodes then 200 else 201, "application/json", before.contentLength,
                        "Edited " + path + " on the server\n")
    case Delete(_) =>
      if p !in nodes then
        && ending == Returned(false)
        && after == ResponseFields(404, "application/json", Some(|before.body|), "File does not exist\n")
      else if Removable(nodes, p) then
        ending == Returned(true) && after == Sized("Deleted " + path + " from the server\n", 200)
      else ending == Threw && after == before
  }

  function NoSlashText(target: string): string {
    "Request uri " + target + " has no slashes\n"
  }

  function OneSlashText(target: string): string {
    "Request uri " + target + " only has 1 slash, instead of 2\n"
  }

  /** What the client is told when there is no operation. */
  function Refusal(req: HttpRequest, before: ResponseFields): (Ending, ResponseFields) {
    if Find(req.target, "/") < 0 then
      (Returned(false), Sized(NoSlashText(req.target), 400))
    else if Suffix(req.target).None? then
      (Returned(false), Sized(OneSlashText(req.target), 400))
    else
      var isId := IsId(Last(Parts(req).value));
      match req.verb
      case POST =>
        if isId then (Returned(false), Sized("id in request uri of post request\n", 400)) else (Threw, before)
      case DELETE => (Returned(false), Sized("numerical id not in request uri of delete request\n", 400))
      case PUT =>
        if isId then (Threw, before)
        else (Returned(false), Sized("numerical id not in request uri of put request\n", 400))
      case _ => (Returned(false), before)
  }

  /** What the client is told about a request. */
  ghost predicate Responds(nodes: Store, dataPath: string, req: HttpRequest,
                           before: ResponseFields, ending: Ending, after: ResponseFields)
  {
    match OpOf(req)
    case None => (ending, after) == Refusal(req, before)
    case Some(op) =>
      Answers(nodes, BaseOf(dataPath), op, EntityPath(dataPath, Suffix(req.target).value), before, ending, after)
  }

  class CrudHandler {
    const dataPath: string
    const filesystem: RealFilesystem

    constructor (path: string, filesystem: RealFilesystem)
      ensures dataPath == path && this.filesystem == filesystem
    {
      dataPath := path;
      this.filesystem := filesystem;
    }

    function Base(): (base: Path)
      ensures base != []
    {
      BaseOf(dataPath)
    }

    method Basename(target: string) returns (basename: string)
      ensures basename == Last(PathOf(target))
    {
      hide FindLast, Split;
      LastComponent(target);
      basename := target[FindLast(target, '/') + 1..];
    }

    method IsIdentifier(basename: string) returns (isID: bool)
      ensures isID == IsId(basename)
    {
      isID := true;
      for i := 0 to |basename|
        invariant isID && forall j | 0 <= j < i :: IsDigit(basename[j])
      {
        if !IsDigit(basename[i]) {
          assert basename[i] in basename;
          isID := false;
          break;
        }
      }
    }

    method SkipHeaders(body: string) returns (data: Option<string>)
      ensures data == Payload(body)
    {
      var bodyData := CString(body);
      var end := Find(bodyData, BLANK_LINE);
      var start := if end == -1 then 3 else end + 4;
      data := if start <= |bodyData| then Some(bodyData[start..]) else None;
    }

    /** POST: looks for the first identifier without a file, counting from 1. */
    method HandlePost(req: HttpRequest, res: HttpResponse, path: string, ghost e: seq<string>) returns (ending: Ending)
      requires TreeClosed(filesystem.nodes) && PathOf(path) == Base() + e
      modifies res, filesystem
      ensures Payload(req.body).None? ==>
                ending == Threw && filesystem.nodes == old(filesystem.nodes) && res.View() == old(res.View())
      ensures Payload(req.body).Some? ==>
                var op := Post(e, Payload(req.body).value);
                && filesystem.nodes == Next(old(filesystem.nodes), Base(), op)
                && Answers(old(filesystem.nodes), Base(), op, path, old(res.View()), ending, res.View())
    {
      hide Split, TreeClosed, Written, Writable, WriteThrows, PathOf;
      ghost var nodes, p := filesystem.nodes, PathOf(path);
      var instancePath;
      var ID := 1;
      InstancePath(path, 1);
      var exists_ := filesystem.FileExists(path);
      if !exists_ {
        MissingEntity(nodes, p);
        instancePath := path + "/1";
        OneIsOne();
        assert path + "/1" == path + "/" + Numeral(1);
      } else {
        var taken := filesystem.FileExists(path + "/" + Numeral(ID));
        while taken
          invariant 1 <= ID && filesystem.nodes == nodes
          invariant forall k | 1 <= k < ID :: Taken(nodes, p, k)
          invariant taken == Taken(nodes, p, ID)
          modifies {}
          decreases |Children(nodes, p)| + 1 - ID
        {
          TakenBound(nodes, p, ID);
          ID := ID + 1;
          InstancePath(path, ID);
          taken := filesystem.FileExists(path + "/" + Numeral(ID));
        }
        LeastFreeUnique(nodes, p, ID);
        instancePath := path + "/" + Numeral(ID);
      }
      var data := SkipHeaders(req.body);
      if data.None? {
        return Threw;
      }
      InstancePath(path, ID);
      var threw := filesystem.WriteFile(instancePath, data.value);
      if threw {
        return Threw;
      }
      res.Fill("{\"id\": " + Numeral(ID) + "}\n", 201);
      ending := Returned(true);
    }

    /** GET: the instance if `stoi` takes the last component, the list of names otherwise. */
    method HandleGet(req: HttpRequest, res: HttpResponse, path: string, ghost parts: Path) returns (ending: Ending)
      requires parts != [] && PathOf(path) == Base() + parts
      modifies res
      ensures var op := if Stoi(Last(parts)).Some? then Get(KeyFor(parts)) else List(parts);
              Answers(filesystem.nodes, Base(), op, path, old(res.View()), ending, res.View())
    {
      hide Split, Stoi, FindLast, Children, PathOf;
      ghost var p := PathOf(path);
      LastComponent(path);
      KeyParts(Base(), parts);
      var endpoint := path[FindLast(path, '/') + 1..];
      var endNum := Stoi(endpoint);
      if endNum.None? {
        var exists_ := filesystem.FileExists(path);
        if exists_ {
          var allIds := filesystem.ListFiles(path);
          if allIds.None? {
            return Threw;
          }
          var idList := StringVectorToJson(allIds.value);
          res.result := 200;
          res.contentType := "application/json";
          res.body := idList + "\n";
          return Returned(true);
        } else {
          res.Fill("Directory not found\n", 404);
          return Returned(false);
        }
      }
      var exists_ := filesystem.FileExists(path);
      if exists_ {
        var result, fileContent := filesystem.ReadFile(path, "");
        assert "" + DataAt(filesystem.nodes, p) == DataAt(filesystem.nodes, p);
        res.Fill(fileContent, 200);
        ending := Returned(true);
      } else {
        res.Fill("File does not exist\n", 404);
        ending := Returned(false);
      }
    }

    method HandleDelete(req: HttpRequest, res: HttpResponse, path: string, ghost key: Key) returns (ending: Ending)
      requires PathOf(path) == KeyPath(Base(), key)
      modifies res, filesystem
      ensures filesystem.nodes == Next(old(filesystem.nodes), Base(), Delete(key))
      ensures Answers(old(filesystem.nodes), Base(), Delete(key), path, old(res.View()), ending, res.View())
    {
      hide Split, PathOf;
      var exists_ := filesystem.FileExists(path);
      if exists_ {
        var threw, result := filesystem.DeleteFile(path);
        if threw {
          return Threw;
        }
        res.Fill("Deleted " + path + " from the server\n", 200);
        ending := Returned(true);
      } else {
        res.result := 404;
        res.contentLength := Some(|res.body|);
        res.contentType := "application/json";
        res.body := "File does not exist\n";
        ending := Returned(false);
      }
    }

    method HandlePut(req: HttpRequest, res: HttpResponse, path: string, ghost key: Key) returns (ending: Ending)
      requires TreeClosed(filesystem.nodes) && PathOf(path) == KeyPath(Base(), key)
      modifies res, filesystem
      ensures Payload(req.body).None? ==>
                ending == Threw && filesystem.nodes == old(filesystem.nodes) && res.View() == old(res.View())
      ensures Payload(req.body).Some? ==>
                var op := Put(key, Payload(req.body).value);
                && filesystem.nodes == Next(old(filesystem.nodes), Base(), op)
                && Answers(old(filesystem.nodes), Base(), op, path, old(res.View()), ending, res.View())
    {
      hide Split, TreeClosed, Written, Writable, WriteThrows, PathOf;
      var data := SkipHeaders(req.body);
      if data.None? {
        return Threw;
      }
      var exists_ := filesystem.FileExists(path);
      if exists_ {
        res.result := 200;
      } else {
        res.result := 201;
      }
      res.contentType := "application/json";
      res.body := "Edited " + path + " on the server\n";
      var threw := filesystem.WriteFile(path, data.value);
      ending := if threw then Threw else Returned(true);
    }

    /** The whole handler: the store moves and the client is answered as the request says. */
    method HandleRequest(req: HttpRequest, res: HttpResponse) returns (ending: Ending)
      requires TreeClosed(filesystem.nodes) && PlainRequest(req)
      modifies res, filesystem
      ensures filesystem.nodes == NextBy(old(filesystem.nodes), Base(), req)
      ensures Responds(old(filesystem.nodes), dataPath, req, old(res.View()), ending, res.View())
      ensures TreeClosed(filesystem.nodes)
    {
      hide Split, TreeClosed, PlainOp, Payload, Stoi, Answers, Next, FindLast, Target, AllDigits, OpOf,
        Refusal, Suffix, Find, IsId, EntityPath, NoSlashText, OneSlashText, Sized, PathOf;
      TargetCases(req, res.View());
      if OpOf(req).Some? {
        NextKeepsTree(filesystem.nodes, Base(), OpOf(req).value);
      }
      var target := req.target;
      var firstSlashPos := Find(target, "/");
      if firstSlashPos == -1 {
        res.Fill(NoSlashText(target), 400);
        return Returned(false);
      }
      var secondSlashPos := Find(target[firstSlashPos + 1..], "/");
      if secondSlashPos == -1 {
        res.Fill(OneSlashText(target), 400);
        return Returned(false);
      }
      var suffix := target[firstSlashPos + 1..][secondSlashPos + 1..];
      var path := EntityPath(dataPath, suffix);
      SuffixPath(dataPath, target);
      var basename := Basename(target);
      var isID := IsIdentifier(basename);
      ending := Dispatch(req, res, path, isID);
    }

    /** The branches by method, once the target has been taken apart. */
    method Dispatch(req: HttpRequest, res: HttpResponse, path: string, isID: bool) returns (ending: Ending)
      requires TreeClosed(filesystem.nodes)
      requires Suffix(req.target).Some? && path == EntityPath(dataPath, Suffix(req.target).value)
      requires isID == IsId(Last(PathOf(Suffix(req.target).value)))
      modifies res, filesystem
      ensures filesystem.nodes == NextBy(old(filesystem.nodes), Base(), req)
      ensures Responds(old(filesystem.nodes), dataPath, req, old(res.View()), ending, res.View())
    {
      hide Split, TreeClosed, Payload, Stoi, Answers, Next, Target, AllDigits, Suffix, Find, PathOf;
      SuffixPath(dataPath, req.target);
      SuffixSlash(req.target);
      ghost var parts := PathOf(Suffix(req.target).value);
      KeyParts(Base(), parts);
      match req.verb {
        case POST =>
          if isID {
            res.Fill("id in request uri of post request\n", 400);
            return Returned(false);
          }
          ending := HandlePost(req, res, path, parts);
        case GET =>
          ending := HandleGet(req, res, path, parts);
          GetKeepsStore(filesystem.nodes, Base(), OpOf(req).value);
        case DELETE =>
          if isID {
            ending := HandleDelete(req, res, path, KeyFor(parts));
          } else {
            res.Fill("numerical id not in request uri of delete request\n", 400);
            ending := Returned(false);
          }
        case PUT =>
          if isID {
            ending := HandlePut(req, res, path, KeyFor(parts));
          } else {
            res.Fill("numerical id not in request uri of put request\n", 400);
            ending := Returned(false);
          }
        case OTHER =>
          ending := Returned(false);
      }
    }
  }

  lemma TargetCases(req: HttpRequest, before: ResponseFields)
    ensures var first := Find(req.target, "/");
            if first < 0 then
              && OpOf(req).None?
              && Refusal(req, before) ==
                   (Returned(false), Sized(NoSlashText(req.target), 400))
            else
              && first + 1 <= |req.target|
              && var rest := req.target[first + 1..];
              var second := Find(rest, "/");
              if second < 0 then
                && OpOf(req).None?
                && Refusal(req, before) ==
                     (Returned(false), Sized(OneSlashText(req.target), 400))
              else
                second + 1 <= |rest| && Suffix(req.target) == Some(rest[second + 1..])
  {
    hide Split, Payload, Stoi, IsId, MatchAt, Has;
    FindFits(req.target, "/");
    var first := Find(req.target, "/");
    if first >= 0 {
      FindFits(req.target[first + 1..], "/");
    }
  }

  lemma SuffixSlash(target: string)
    ensures Suffix(target).Some? ==> Find(target, "/") >= 0
  {
  }

  lemma KeyParts(base: Path, parts: Path)
    requires parts != []
    ensures KeyPath(base, KeyFor(parts)) == base + parts
  {
    assert Front(parts) + [Last(parts)] == parts;
    assert base + parts == base + Front(parts) + [Last(parts)];
  }

  lemma GetKeepsStore(nodes: Store, base: Path, op: Op)
    requires base != [] && (op.List? || op.Get?)
    ensures Next(nodes, base, op) == nodes
  {
  }

  /** Behind the prefix of a route, the rest of a target is what names the file. */
  lemma ApiTarget(rest: string)
    ensures Suffix("/api/" + rest) == Some(rest)
  {
    hide Find;
    var target := "/api/" + rest;
    assert target[0..1] == "/" && MatchAt(target, "/", 0);
    FindUnique(target, "/", 0);
    var tail := target[1..];
    assert tail[3..4] == "/" && MatchAt(tail, "/", 3);
    assert tail[0..1] == "a" && tail[1..2] == "p" && tail[2..3] == "i";
    FindUnique(tail, "/", 3);
    assert tail[4..] == rest;
  }

  lemma OneIsOne()
    ensures Numeral(1) == "1"
  {
  }

  lemma InstancePath(path: string, n: nat)
    ensures PathOf(path + "/" + Numeral(n)) == PathOf(path) + [Numeral(n)]
  {
    SplitSlash(path, Numeral(n));
    NumeralHasNoSlash(n);
  }
}

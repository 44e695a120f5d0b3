/** What POST and PUT store of the text of a request: the bytes behind its first empty line. */
module Bodies {
  import opened Wrappers
  import opened Segments
  import opened Crud

  /** The text has an empty line and no NUL byte. */
  predicate HasBody(text: string) {
    '\0' !in text && Find(text, "\r\n\r\n") >= 0
  }

  /** The bytes behind the first empty line. */
  function BodyBytes(text: string): string
    requires HasBody(text)
  {
    FindFits(text, "\r\n\r\n");
    text[Find(text, "\r\n\r\n") + 4..]
  }

  /** Such a text is stored from behind its first empty line to its end. */
  lemma BodyStored(text: string)
    requires HasBody(text)
    ensures Payload(text) == Some(BodyBytes(text))
  {
    hide Find, Payload;
    PayloadExactly(text);
  }

  lemma {:induction false} CStringConcat(a: string, b: string)
    requires '\0' !in a
    ensures CString(a + b) == a + CString(b)
  {
    if a == "" {
      assert a + b == b;
    } else {
      assert (a + b)[1..] == a[1..] + b;
      CStringConcat(a[1..], b);
      assert [a[0]] + (a[1..] + CString(b)) == a + CString(b);
    }
  }

  lemma FindInPrefix(s: string, n: nat, m: string)
    requires n <= |s| && Find(s[..n], m) >= 0
    ensures Find(s, m) == Find(s[..n], m)
  {
    hide Find, MatchAt;
    var i := Find(s[..n], m);
    MatchInPrefix(s, n, m, i);
    forall j | 0 <= j < i
      ensures !MatchAt(s, m, j)
    {
      MatchInPrefix(s, n, m, j);
    }
    FindUnique(s, m, i);
  }

  /**
   What is stored are the bytes behind the first empty line exactly where no NUL byte stands
   behind that line or before it; behind an earlier NUL the line goes unseen, and then only
   chance can make the C string without its first three bytes equal to them.
   */
  lemma PayloadExactly(body: string)
    requires Find(body, BLANK_LINE) >= 0
    ensures var i := Find(body, BLANK_LINE);
            && i + 4 <= |body|
            && (Payload(body) == Some(body[i + 4..]) <==>
                if '\0' in body[..i] then |CString(body)| >= 3 && CString(body)[3..] == body[i + 4..]
                else '\0' !in body[i + 4..])
  {
    hide Find, MatchAt, CString;
    FindFits(body, BLANK_LINE);
    var i := Find(body, BLANK_LINE);
    CStringPrefix(body);
    var data := CString(body);
    if '\0' in body[..i] {
      assert |data| < i;
      assert data == body[..|data|];
      FindInPrefixNone(body, |data|, BLANK_LINE);
    } else {
      HeaderSeen(body, i);
      CStringPrefix(body[i + 4..]);
      if '\0' !in body[i + 4..] {
        WholeCString(body[i + 4..]);
      }
    }
  }

  lemma FindInPrefixNone(s: string, n: nat, m: string)
    requires n <= |s| && n < Find(s, m)
    ensures Find(s[..n], m) < 0
  {
    hide Find, MatchAt;
    var i := Find(s[..n], m);
    if i >= 0 {
      MatchInPrefix(s, n, m, i);
      assert i <= n by {
        FindFits(s[..n], m);
      }
    }
  }

  /** An empty line with no NUL before it is where the C string is cut. */
  lemma HeaderSeen(body: string, i: nat)
    requires Find(body, BLANK_LINE) == i && i + 4 <= |body| && '\0' !in body[..i]
    ensures Payload(body) == Some(CString(body[i + 4..]))
  {
    hide Find, CString;
    var head, tail := body[..i + 4], body[i + 4..];
    assert body == head + tail;
    assert body[i..i + 4] == BLANK_LINE && head == body[..i] + BLANK_LINE;
    CStringConcat(head, tail);
    CStringPrefix(body);
    var data := CString(body);
    assert head == data[..i + 4] && data[i + 4..] == CString(tail);
    MatchInPrefix(body, i + 4, BLANK_LINE, i);
    FindUniqueInPrefix(body, i + 4, BLANK_LINE, i);
    FindInPrefix(data, i + 4, BLANK_LINE);
  }

  lemma FindUniqueInPrefix(s: string, n: nat, m: string, i: nat)
    requires n <= |s| && Find(s, m) == i && MatchAt(s[..n], m, i)
    ensures Find(s[..n], m) == i
  {
    hide Find, MatchAt;
    forall j | 0 <= j < i
      ensures !MatchAt(s[..n], m, j)
    {
      MatchInPrefix(s, n, m, j);
    }
    FindUnique(s[..n], m, i);
  }

  /** The handler throws exactly where fewer than three bytes stand before the first NUL. */
  lemma PayloadThrowsExactly(body: string)
    ensures Payload(body).None? <==> |CString(body)| < 3
  {
    hide Find, CString;
    FindFits(CString(body), BLANK_LINE);
  }

  /**
   Bodies without an empty line lose three bytes or throw; behind a NUL an empty line is not
   seen, and the last body shows the chance that `PayloadExactly` allows for.
   */
  lemma PayloadGoesAstray()
    ensures Payload("abcd") == Some("d")
    ensures Payload("ab") == None
    ensures Payload("abcX\0\r\n\r\nX") == Some("X")
  {
    hide Find;
    WholeCString("abcd");
    NoBreak("abcd");
    WholeCString("ab");
    NoBreak("ab");
    WholeCString("abcX");
    NoBreak("abcX");
    CStringConcat("abcX", "\0\r\n\r\nX");
    assert "abcX\0\r\n\r\nX" == "abcX" + "\0\r\n\r\nX";
    assert "abcX" + "" == "abcX";
  }

  lemma NoBreak(s: string)
    requires '\r' !in s
    ensures Find(s, BLANK_LINE) < 0
  {
    FirstCharacterFound(s, BLANK_LINE);
  }

  lemma FirstCharacterFound(s: string, m: string)
    requires m != ""
    ensures Find(s, m) >= 0 ==> m[0] in s
  {
    hide Find;
    var i := Find(s, m);
    if i >= 0 {
      assert s[i..i + |m|][0] == s[i];
    }
  }
}

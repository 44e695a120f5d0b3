/**
 An input stream in the shape of `std::istream`: a cursor over fixed data plus the two state
 bits that `get`, `unget` and `std::getline` set.
 */
module Streams {

  /** Length of the longest prefix of `s` that holds no character of `stop`. */
  function Span(s: string, stop: set<char>): (n: nat)
    ensures n <= |s|
    ensures forall i | 0 <= i < n :: s[i] !in stop
    ensures n < |s| ==> s[n] in stop
  {
    if s == "" || s[0] in stop then 0 else 1 + Span(s[1..], stop)
  }

  /** `Span` is the only number with the properties in its contract. */
  lemma SpanUnique(s: string, stop: set<char>, n: nat)
    requires n <= |s|
    requires forall i | 0 <= i < n :: s[i] !in stop
    requires n < |s| ==> s[n] in stop
    ensures Span(s, stop) == n
  {
    var k := Span(s, stop);
  }

  /** What one call of `getline` on the text `s` delivers and leaves. */
  ghost predicate LineRead(s: string, ok: bool, line: string, rest: string, good: bool) {
    && (ok <==> s != "")
    && (ok ==> line == s[..Span(s, {'\n'})] && (good <==> '\n' in s))
    && (ok && good ==> s == line + "\n" + rest)
    && (ok && !good ==> s == line && rest == "")
    && (!ok ==> !good && line == "" && rest == "")
  }

  lemma LineReadShrinks(s: string, ok: bool, line: string, rest: string, good: bool)
    requires LineRead(s, ok, line, rest, good)
    ensures if ok then |rest| < |s| else s == "" && rest == ""
  {
    if good {
      assert |line + "\n" + rest| == |line| + 1 + |rest|;
    }
  }

  lemma TakeOne(data: string, start: nat, pos: nat)
    requires start <= pos < |data|
    ensures data[start..pos] + [data[pos]] == data[start..pos + 1]
  {
  }

  lemma NothingRead()
    ensures LineRead("", false, "", "", false)
  {
  }

  /** The text from `start` up to the first newline, or to the end, is one line. */
  lemma LineReads(data: string, start: nat, end: nat)
    requires start <= end <= |data| && (forall i | start <= i < end :: data[i] != '\n')
    requires end < |data| ==> data[end] == '\n'
    ensures end < |data| ==> LineRead(data[start..], true, data[start..end], data[end + 1..], true)
    ensures end == |data| ==> LineRead(data[start..], start < end, data[start..end], "", false)
  {
    var s, n := data[start..], end - start;
    SpanUnique(s, {'\n'}, n);
    assert s[..n] == data[start..end];
    if end < |data| {
      assert s[n] == '\n' && s[n + 1..] == data[end + 1..];
      assert s == s[..n] + "\n" + s[n + 1..];
    }
  }

  class InputStream {
    const data: string
    var pos: nat
    var eof: bool
    var fail: bool

    constructor (text: string)
      ensures data == text && pos == 0 && Good()
    {
      data, pos, eof, fail := text, 0, false, false;
    }

    predicate Good()
      reads this
    {
      !eof && !fail
    }

    predicate Valid()
      reads this
    {
      pos <= |data|
    }

    /** What the stream can still deliver. */
    function Remaining(): string
      requires Valid()
      reads this
    {
      if Good() then data[pos..] else ""
    }

    /** Next character; at the end of the data both state bits are set and the result is junk. */
    method Get() returns (c: char)
      requires Valid()
      modifies this`pos, this`eof, this`fail
      ensures Valid()
      ensures Good() <==> old(Remaining()) != ""
      ensures Good() ==> pos == old(pos) + 1 && [c] + Remaining() == old(Remaining())
      ensures Good() ==> data[..pos] == data[..old(pos)] + [c]
      ensures !Good() ==> fail && pos == old(pos) && (old(Good()) ==> eof)
    {
      if Good() && pos < |data| {
        c := data[pos];
        pos := pos + 1;
      } else {
        c := '\U{00FF}';
        eof, fail := eof || !fail, true;
      }
    }

    /** Steps back over the character that was read last. */
    method Unget()
      requires Valid() && Good() && 0 < pos
      modifies this`pos
      ensures Valid() && Good()
      ensures pos == old(pos) - 1
      ensures Remaining() == [data[pos]] + old(Remaining())
    {
      pos := pos - 1;
    }

    /** Moves to the next newline, or to the end, and returns the text passed over. */
    method TakeLine() returns (line: string)
      requires Valid() && Good()
      modifies this`pos
      ensures Valid() && old(pos) <= pos && line == data[old(pos)..pos]
      ensures forall i | old(pos) <= i < pos :: data[i] != '\n'
      ensures pos < |data| ==> data[pos] == '\n'
    {
      ghost var start := pos;
      line := "";
      while pos < |data| && data[pos] != '\n'
        invariant start <= pos <= |data| && line == data[start..pos]
        invariant forall i | start <= i < pos :: data[i] != '\n'
      {
        TakeOne(data, start, pos);
        line := line + [data[pos]];
        pos := pos + 1;
      }
    }

    /**
     `std::getline`: the text before the next newline, which is removed as well. A last line
     without a newline is delivered too but leaves the stream at end of file; with nothing
     left to deliver the call fails.
     */
    method GetLine() returns (ok: bool, line: string)
      requires Valid()
      modifies this`pos, this`eof, this`fail
      ensures Valid()
      ensures LineRead(old(Remaining()), ok, line, Remaining(), Good())
    {
      hide Span, LineRead;
      ok, line := false, "";
      if !Good() {
        NothingRead();
        fail := true;
        return;
      }
      ghost var start := pos;
      line := TakeLine();
      LineReads(data, start, pos);
      if pos < |data| {
        ok := true;
        pos := pos + 1;
      } else {
        eof := true;
        ok := line != "";
        fail := !ok;
      }
    }
  }
}

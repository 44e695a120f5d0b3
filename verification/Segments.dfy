/** Substring search and the cutting of a text at the non-overlapping matches of a marker. */
module Segments {

  predicate MatchAt(s: string, m: string, i: int) {
    0 <= i && i + |m| <= |s| && s[i..i + |m|] == m
  }

  ghost predicate Has(s: string, m: string) {
    exists i :: MatchAt(s, m, i)
  }

  /** `std::string::find`: the first position of `m` in `s`, or -1. */
  function Find(s: string, m: string): (i: int)
    ensures -1 <= i
    ensures i >= 0 ==> MatchAt(s, m, i)
    ensures i < 0 ==> !Has(s, m)
    ensures forall j | 0 <= j < i :: !MatchAt(s, m, j)
  {
    if MatchAt(s, m, 0) then
      0
    else if s == "" then
      -1
    else
      var i := Find(s[1..], m);
      MatchTail(s, m);
      if i < 0 then -1 else i + 1
  }

  lemma TailSlice(s: string, a: int, b: int)
    requires 0 <= a <= b < |s|
    ensures s[1..][a..b] == s[a + 1..b + 1]
  {
  }

  lemma FindHas(s: string, m: string)
    ensures Find(s, m) >= 0 <==> Has(s, m)
  {
  }

  lemma MatchTail(s: string, m: string)
    requires s != ""
    ensures forall j | 0 < j :: MatchAt(s, m, j) <==> MatchAt(s[1..], m, j - 1)
    ensures Has(s, m) <==> MatchAt(s, m, 0) || Has(s[1..], m)
  {
    forall j | 0 < j
      ensures MatchAt(s, m, j) <==> MatchAt(s[1..], m, j - 1)
    {
      if j + |m| <= |s| {
        TailSlice(s, j - 1, j - 1 + |m|);
      }
    }
    if Has(s[1..], m) {
      var j :| MatchAt(s[1..], m, j);
      assert MatchAt(s, m, j + 1);
    }
    if Has(s, m) && !MatchAt(s, m, 0) {
      var j :| MatchAt(s, m, j);
      assert MatchAt(s[1..], m, j - 1);
    }
  }

  lemma MatchInPrefix(s: string, n: nat, m: string, j: int)
    requires n <= |s|
    ensures MatchAt(s[..n], m, j) <==> MatchAt(s, m, j) && j + |m| <= n
  {
    if 0 <= j && j + |m| <= n {
      assert s[..n][j..j + |m|] == s[j..j + |m|];
    }
  }

  lemma SliceOut(s: string, m: string, i: int)
    requires MatchAt(s, m, i)
    ensures i + |m| <= |s| && s == s[..i] + m + s[i + |m|..]
  {
  }

  lemma FindUnique(s: string, m: string, i: int)
    requires MatchAt(s, m, i) && forall j | 0 <= j < i :: !MatchAt(s, m, j)
    ensures Find(s, m) == i
  {
  }

  predicate Disjoint(a: string, b: string) {
    forall c | c in a :: c !in b
  }

  lemma NoMatchInside(x: string, y: string, z: string, m: string, i: int)
    requires m != "" && Disjoint(y, m) && 0 <= i < |x| + |y| < i + |m| + |y|
    requires y != ""
    ensures !MatchAt(x + y + z, m, i)
  {
    var s := x + y + z;
    if i + |m| <= |s| {
      var p := if i < |x| then |x| else i;
      assert y[p - |x|] in y && m[p - i] in m;
      assert s[i..i + |m|][p - i] == y[p - |x|];
    }
  }

  /** No match of `m` reaches across a text that shares no character with it. */
  lemma MatchAcross(x: string, y: string, z: string, m: string, i: int)
    requires y != "" && m != "" && Disjoint(y, m)
    ensures MatchAt(x + y + z, m, i) <==>
            MatchAt(x, m, i) || MatchAt(z, m, i - |x| - |y|)
  {
    var s := x + y + z;
    if 0 <= i && i + |m| <= |x| {
      assert s[i..i + |m|] == x[i..i + |m|];
    } else if |x| + |y| <= i && i + |m| <= |s| {
      assert s[i..i + |m|] == z[i - |x| - |y|..i - |x| - |y| + |m|];
    } else if 0 <= i < |x| + |y| {
      NoMatchInside(x, y, z, m, i);
    }
  }

  lemma HasAcross(x: string, y: string, z: string, m: string)
    requires y != "" && m != "" && Disjoint(y, m)
    ensures Has(x + y + z, m) <==> Has(x, m) || Has(z, m)
  {
    hide MatchAt;
    forall i
      ensures MatchAt(x + y + z, m, i) <==> MatchAt(x, m, i) || MatchAt(z, m, i - |x| - |y|)
    {
      MatchAcross(x, y, z, m, i);
    }
    if Has(x, m) {
      var i :| MatchAt(x, m, i);
      assert MatchAt(x + y + z, m, i);
    }
    if Has(z, m) {
      var i :| MatchAt(z, m, i);
      var j := i + |x| + |y|;
      assert MatchAt(z, m, j - |x| - |y|);
      assert MatchAt(x + y + z, m, j);
    }
  }

  lemma FindAcross(x: string, y: string, z: string, m: string)
    requires y != "" && m != "" && Disjoint(y, m) && !Has(x, m)
    ensures Find(x + y + z, m) == if Find(z, m) < 0 then -1 else |x| + |y| + Find(z, m)
  {
    hide MatchAt;
    HasAcross(x, y, z, m);
    var k := Find(z, m);
    if k >= 0 {
      var i := |x| + |y| + k;
      MatchAcross(x, y, z, m, i);
      forall j | 0 <= j < i
        ensures !MatchAt(x + y + z, m, j)
      {
        MatchAcross(x, y, z, m, j);
        NoNegativeMatch(z, m, j - |x| - |y|);
      }
      FindUnique(x + y + z, m, i);
    }
  }

  lemma NoNegativeMatch(s: string, m: string, i: int)
    ensures MatchAt(s, m, i) ==> 0 <= i
  {
  }

  /** A part of a text without matches has none. */
  lemma HasPart(x: string, y: string, z: string, m: string)
    ensures Has(y, m) ==> Has(x + y + z, m)
  {
    if Has(y, m) {
      var i :| MatchAt(y, m, i);
      var s := x + y + z;
      assert s[|x| + i..|x| + i + |m|] == y[i..i + |m|];
      assert MatchAt(s, m, |x| + i);
    }
  }

  // ---------------------------------------------------------------- segments

  /** One greedy pass from left to right: the texts between the non-overlapping matches of `m`. */
  function Split(s: string, m: string): (segs: seq<string>)
    requires m != ""
    ensures segs != []
    decreases |s|
  {
    if s == "" then [""]
    else if MatchAt(s, m, 0) then [""] + Split(s[|m|..], m)
    else var segs := Split(s[1..], m); [[s[0]] + segs[0]] + segs[1..]
  }

  function Join(segs: seq<string>, m: string): string
    requires segs != []
  {
    if |segs| == 1 then segs[0] else segs[0] + m + Join(segs[1..], m)
  }

  lemma JoinCons(segs: seq<string>, m: string, seg: string)
    requires segs != []
    ensures Join([seg] + segs, m) == seg + m + Join(segs, m)
  {
    assert ([seg] + segs)[1..] == segs;
  }

  lemma JoinBehind(x: string, segs: seq<string>, m: string)
    requires segs != []
    ensures Join([x + segs[0]] + segs[1..], m) == x + Join(segs, m)
  {
    var segs' := [x + segs[0]] + segs[1..];
    assert segs'[1..] == segs[1..];
    if |segs| > 1 {
      assert x + segs[0] + m + Join(segs[1..], m) == x + (segs[0] + m + Join(segs[1..], m));
    }
  }

  lemma {:induction false} JoinSplit(s: string, m: string)
    requires m != ""
    ensures Join(Split(s, m), m) == s
    decreases |s|
  {
    hide Join;
    if s == "" {
      JoinOne("", m);
    } else if MatchAt(s, m, 0) {
      JoinSplit(s[|m|..], m);
      JoinCons(Split(s[|m|..], m), m, "");
      assert "" + m + s[|m|..] == s[0..|m|] + s[|m|..] == s;
    } else {
      JoinSplit(s[1..], m);
      JoinBehind([s[0]], Split(s[1..], m), m);
      assert [s[0]] + s[1..] == s;
    }
  }

  lemma JoinOne(seg: string, m: string)
    ensures Join([seg], m) == seg
  {
  }

  lemma SplitStep(s: string, m: string)
    requires m != ""
    ensures s == "" ==> Split(s, m) == [s]
    ensures s != "" && MatchAt(s, m, 0) ==>
              |m| <= |s| && Split(s, m) == [s[..0]] + Split(s[0 + |m|..], m)
    ensures s != "" && !MatchAt(s, m, 0) ==>
              Split(s, m) == [[s[0]] + Split(s[1..], m)[0]] + Split(s[1..], m)[1..]
  {
  }

  /** Splitting cuts at the first match and goes on behind it. */
  lemma {:induction false} SplitFind(s: string, m: string)
    requires m != ""
    ensures var i := Find(s, m);
            Split(s, m) == if i < 0 then [s] else [s[..i]] + Split(s[i + |m|..], m)
    decreases |s|
  {
    hide Find, MatchAt, Has, Split;
    SplitStep(s, m);
    if s == "" || MatchAt(s, m, 0) {
      FindHere(s, m);
    } else {
      SplitFind(s[1..], m);
      FindLater(s, m);
      FindFits(s, m);
      var i := Find(s, m);
      ConsSlices(s, i, |m|);
      if i >= 0 {
        ConsHead(s[0], s[1..][..i - 1], Split(s[i + |m|..], m));
      } else {
        ConsHead(s[0], s[1..], []);
      }
    }
  }

  lemma ConsHead(c: char, seg: string, segs: seq<string>)
    ensures [[c] + ([seg] + segs)[0]] + ([seg] + segs)[1..] == [[c] + seg] + segs
    ensures [seg] + [] == [seg] && [[c] + seg] + [] == [[c] + seg]
  {
  }

  lemma FindFits(s: string, m: string)
    ensures Find(s, m) >= 0 ==> Find(s, m) + |m| <= |s|
  {
  }

  lemma ConsSlices(s: string, i: int, k: nat)
    requires s != ""
    ensures [s[0]] + s[1..] == s
    ensures 0 < i && i + k <= |s| ==> [s[0]] + s[1..][..i - 1] == s[..i] && s[1..][i - 1 + k..] == s[i + k..]
  {
  }

  lemma FindHere(s: string, m: string)
    ensures MatchAt(s, m, 0) ==> Find(s, m) == 0 && |m| <= |s| && s[..0] == ""
    ensures s == "" && m != "" ==> Find(s, m) < 0
  {
  }

  lemma FindLater(s: string, m: string)
    requires s != "" && !MatchAt(s, m, 0)
    ensures Find(s, m) != 0
    ensures Find(s, m) == if Find(s[1..], m) < 0 then -1 else Find(s[1..], m) + 1
  {
  }

  /** Text without a match, ending in a character foreign to `m`, just extends the first segment. */
  lemma {:induction false} SplitBehind(x: string, c: string, m: string)
    requires m != "" && x != "" && !Has(x, m) && x[|x| - 1] !in m
    ensures Split(x + c, m) == [x + Split(c, m)[0]] + Split(c, m)[1..]
    decreases |x|
  {
    var s := x + c;
    NotHere(x, c, m);
    var segs := Split(c, m);
    assert s[1..] == x[1..] + c;
    if |x| == 1 {
      assert x[1..] + c == c;
      assert [x[0]] + segs[0] == x + segs[0];
    } else {
      MatchTail(x, m);
      SplitBehind(x[1..], c, m);
      assert [x[0]] + (x[1..] + segs[0]) == x + segs[0];
    }
  }

  lemma NotHere(x: string, c: string, m: string)
    requires m != "" && x != "" && !MatchAt(x, m, 0) && x[|x| - 1] !in m
    ensures !MatchAt(x + c, m, 0)
  {
    var s := x + c;
    if |m| <= |x| {
      assert s[0..|m|] == x[0..|m|];
    } else if |m| <= |s| {
      assert m[|x| - 1] in m;
      assert s[0..|m|][|x| - 1] == x[|x| - 1];
    }
  }
}

/** How the CRUD handler takes targets and paths apart, and its two tests for identifiers. */
module Identifiers {
  import opened Wrappers
  import opened Sequences
  import opened Decimal
  import opened Segments
  import opened Filesystem

  // ---------------------------------------------------------------- slashes

  /** `std::string::find_last_of` for one character, -1 when it does not occur. */
  function FindLast(s: string, c: char): (i: int)
    ensures -1 <= i < |s|
    ensures i >= 0 ==> s[i] == c
    ensures forall j | i < j < |s| :: s[j] != c
    decreases |s|
  {
    if s == "" then -1
    else if s[|s| - 1] == c then |s| - 1
    else FindLast(s[..|s| - 1], c)
  }

  lemma {:induction false} SplitNone(s: string, c: char)
    requires c !in s
    ensures Split(s, [c]) == [s]
  {
    if s != "" {
      assert s[0] in s && s[0..1] == [s[0]];
      SplitNone(s[1..], c);
      assert [s[0]] + s[1..] == s;
    }
  }

  lemma SlashStep(s: string)
    ensures Split(s, "/") ==
              if s == "" then [""]
              else if s[0] == '/' then [""] + Split(s[1..], "/")
              else [[s[0]] + Split(s[1..], "/")[0]] + Split(s[1..], "/")[1..]
  {
    if s != "" {
      assert s[0..1] == [s[0]];
    }
  }

  lemma ConsConcat(c: char, x: seq<string>, y: seq<string>)
    requires x != []
    ensures [[c] + (x + y)[0]] + (x + y)[1..] == [[c] + x[0]] + x[1..] + y
    ensures [""] + (x + y) == [""] + x + y
  {
  }

  lemma {:induction false} SplitSlash(a: string, b: string)
    ensures Split(a + "/" + b, "/") == Split(a, "/") + Split(b, "/")
    decreases |a|
  {
    hide Split, MatchAt;
    var s := a + "/" + b;
    SlashStep(s);
    SlashStep(a);
    if a == "" {
      assert s[1..] == b;
    } else {
      assert s[0] == a[0] && s[1..] == a[1..] + "/" + b;
      SplitSlash(a[1..], b);
      ConsConcat(a[0], Split(a[1..], "/"), Split(b, "/"));
    }
  }

  /** The text behind the last slash is the last component. */
  lemma {:induction false} LastComponent(s: string)
    ensures s[FindLast(s, '/') + 1..] == Last(PathOf(s))
  {
    hide Split;
    var i := FindLast(s, '/');
    var rest := s[i + 1..];
    assert '/' !in rest;
    assert "/" == ['/'];
    SplitNone(rest, '/');
    if i >= 0 {
      assert s == s[..i] + "/" + rest;
      SplitSlash(s[..i], rest);
    } else {
      assert s == rest;
    }
  }

  // ---------------------------------------------------------------- identifiers

  /** The whole text is digits; also true of the empty text. */
  predicate IsId(name: string) {
    AllDigits(name)
  }

  predicate IsSpace(c: char) {
    c == ' ' || 9 <= c as int <= 13
  }

  function DigitPrefix(s: string): (d: string)
    ensures AllDigits(d) && d <= s
    ensures |d| < |s| ==> !IsDigit(s[|d|])
  {
    if s == "" || !IsDigit(s[0]) then "" else [s[0]] + DigitPrefix(s[1..])
  }

  /** `std::stoi`: blanks, a sign, digits, then anything; None where it throws. */
  function Stoi(s: string): Option<int> {
    if s != "" && IsSpace(s[0]) then Stoi(s[1..])
    else
      var negative := s != "" && s[0] == '-';
      var d := DigitPrefix(if s != "" && (s[0] == '-' || s[0] == '+') then s[1..] else s);
      if d == "" then None
      else
        var v: int := Value(d);
        var n := if negative then -v else v;
        if -INT_MAX - 1 <= n <= INT_MAX then Some(n) else None
  }

  /** `s` spells a number, written `sign digits`, behind blanks and in front of other text. */
  ghost predicate Spells(s: string, blanks: string, sign: string, digits: string, rest: string) {
    && s == blanks + sign + digits + rest
    && (forall c | c in blanks :: IsSpace(c))
    && sign in {"", "+", "-"}
    && digits != "" && AllDigits(digits)
    && (rest == "" || !IsDigit(rest[0]))
  }

  function Signed(sign: string, digits: string): int
    requires AllDigits(digits)
  {
    var v: int := Value(digits);
    if sign == "-" then -v else v
  }

  /** Some number of `int` range stands at the beginning of `s`, behind blanks. */
  ghost predicate BeginsWithInt(s: string) {
    exists blanks, sign, digits, rest ::
      Spells(s, blanks, sign, digits, rest) && -INT_MAX - 1 <= Signed(sign, digits) <= INT_MAX
  }

  lemma {:induction false} DigitPrefixIs(digits: string, rest: string)
    requires AllDigits(digits) && (rest == "" || !IsDigit(rest[0]))
    ensures DigitPrefix(digits + rest) == digits
  {
    if digits == "" {
      assert digits + rest == rest;
    } else {
      assert digits[0] in digits;
      assert (digits + rest)[1..] == digits[1..] + rest;
      DigitPrefixIs(digits[1..], rest);
    }
  }

  /** The number that a text spells is what `stoi` returns, if it fits an `int`. */
  lemma {:induction false} StoiReads(s: string, blanks: string, sign: string, digits: string, rest: string)
    requires Spells(s, blanks, sign, digits, rest)
    ensures var n := Signed(sign, digits);
            Stoi(s) == if -INT_MAX - 1 <= n <= INT_MAX then Some(n) else None
    decreases |blanks|
  {
    hide Value, DigitPrefix;
    if blanks == "" {
      DigitPrefixIs(digits, rest);
      assert digits[0] in digits;
      if sign == "" {
        assert s == digits + rest;
      } else {
        assert s[0] == sign[0] && s[1..] == digits + rest;
      }
    } else {
      assert blanks[0] in blanks && s[0] == blanks[0];
      assert s[1..] == blanks[1..] + sign + digits + rest;
      StoiReads(s[1..], blanks[1..], sign, digits, rest);
    }
  }

  lemma {:induction false} StoiSpelled(s: string) returns (blanks: string, sign: string, digits: string, rest: string)
    requires Stoi(s).Some?
    ensures Spells(s, blanks, sign, digits, rest) && Signed(sign, digits) == Stoi(s).value
    ensures -INT_MAX - 1 <= Signed(sign, digits) <= INT_MAX
    decreases |s|
  {
    hide Value, DigitPrefix, Spells, Signed;
    if s != "" && IsSpace(s[0]) {
      blanks, sign, digits, rest := StoiSpelled(s[1..]);
      SpellsBehind(s, blanks, sign, digits, rest);
      blanks := [s[0]] + blanks;
    } else {
      blanks := "";
      sign, digits, rest := NumberSpelled(s);
    }
  }

  lemma NumberSpelled(s: string) returns (sign: string, digits: string, rest: string)
    requires Stoi(s).Some? && !(s != "" && IsSpace(s[0]))
    ensures Spells(s, "", sign, digits, rest) && Signed(sign, digits) == Stoi(s).value
    ensures -INT_MAX - 1 <= Signed(sign, digits) <= INT_MAX
  {
    hide Value, DigitPrefix;
    sign := if s != "" && (s[0] == '-' || s[0] == '+') then [s[0]] else "";
    var t := if sign == "" then s else s[1..];
    digits := DigitPrefix(t);
    rest := t[|digits|..];
    Parted(s, sign, t, digits, rest);
  }

  lemma Parted(s: string, sign: string, t: string, digits: string, rest: string)
    requires digits <= t && rest == t[|digits|..]
    requires (sign == "" && t == s) || (s != "" && sign == [s[0]] && t == s[1..])
    ensures s == "" + sign + digits + rest
    ensures |digits| < |t| ==> rest != "" && rest[0] == t[|digits|]
  {
    PrefixRest(t, digits);
    HeadTail(s, sign, t);
    ConcatAssociates(sign, digits, rest);
    assert "" + sign == sign;
  }

  lemma PrefixRest(t: string, digits: string)
    requires digits <= t
    ensures t == digits + t[|digits|..]
  {
  }

  lemma HeadTail(s: string, sign: string, t: string)
    requires (sign == "" && t == s) || (s != "" && sign == [s[0]] && t == s[1..])
    ensures s == sign + t
  {
  }

  lemma SpellsBehind(s: string, blanks: string, sign: string, digits: string, rest: string)
    requires s != "" && IsSpace(s[0]) && Spells(s[1..], blanks, sign, digits, rest)
    ensures Spells(s, [s[0]] + blanks, sign, digits, rest)
  {
    hide Value;
    assert [s[0]] + blanks + sign + digits + rest == [s[0]] + (blanks + sign + digits + rest);
  }

  /** `stoi` returns a number exactly where one of `int` range begins the text. */
  lemma StoiExactly(s: string)
    ensures Stoi(s).Some? <==> BeginsWithInt(s)
  {
    hide Stoi, Value;
    if Stoi(s).Some? {
      var blanks, sign, digits, rest := StoiSpelled(s);
    }
    if BeginsWithInt(s) {
      var blanks, sign, digits, rest :|
        Spells(s, blanks, sign, digits, rest) && -INT_MAX - 1 <= Signed(sign, digits) <= INT_MAX;
      StoiReads(s, blanks, sign, digits, rest);
    }
  }

  /** The characters that may stand in front of a digit: white space, a sign, or another digit. */
  lemma StoiFirstCharacter(c: char)
    ensures var n := c as int;
            Stoi([c] + "7") ==
              if 9 <= n <= 13 || n == 32 || n == 43 then Some(7)
              else if n == 45 then Some(-7)
              else if 48 <= n <= 57 then Some((n - 48) * 10 + 7)
              else None
  {
    hide Value;
    SevenValue(c);
    var s := [c] + "7";
    assert s[1..] == "7";
    DigitPrefixIs("7", "");
    assert "7" + "" == "7";
    if IsDigit(c) {
      DigitPrefixIs([c] + "7", "");
      assert [c] + "7" + "" == s;
    }
  }

  lemma SevenValue(c: char)
    ensures Value("7") == 7
    ensures IsDigit(c) ==> Value([c] + "7") == (c as int - 48) * 10 + 7
  {
    assert "7"[..|"7"| - 1] == "" && Value("") == 0;
    if IsDigit(c) {
      var s := [c] + "7";
      assert s[..|s| - 1] == [c] && [c][..|[c]| - 1] == "";
      assert Value([c]) == c as int - 48;
    }
  }

  /** On digits, `stoi` returns their number exactly when there are any and it fits an `int`. */
  lemma StoiOnDigits(s: string)
    requires AllDigits(s)
    ensures Stoi(s).Some? <==> s != "" && Value(s) <= INT_MAX
    ensures Stoi(s).Some? ==> Stoi(s).value == Value(s)
  {
    hide Value;
    if s != "" {
      assert s == "" + "" + s + "";
      StoiReads(s, "", "", s, "");
    }
  }

  /**
   The two tests agree on a text of digits exactly when there are digits and their number fits
   an `int`; on any other text exactly when no number of that range begins it.
   */
  lemma IdTestsAgree(s: string)
    ensures (Stoi(s).Some? <==> IsId(s)) <==>
            if AllDigits(s) then s != "" && Value(s) <= INT_MAX else !BeginsWithInt(s)
  {
    StoiExactly(s);
    if AllDigits(s) {
      StoiOnDigits(s);
    }
  }

  /** Texts on which the two tests differ. */
  lemma IdTestsDiffer()
    ensures Stoi("1a") == Some(1) && !IsId("1a")
    ensures Stoi("3dmodels") == Some(3) && !IsId("3dmodels")
    ensures Stoi("+5") == Some(5) && !IsId("+5")
    ensures Stoi(" 7") == Some(7) && !IsId(" 7")
    ensures Stoi("") == None && IsId("")
    ensures Stoi(TOO_BIG) == None && IsId(TOO_BIG)
  {
    hide Stoi;
    assert Stoi("") == None by {
      StoiOnDigits("");
    }
    OneDigit("", "", '1', "a");
    assert "" + "" + ['1'] + "a" == "1a";
    OneDigit("", "", '3', "dmodels");
    assert "" + "" + ['3'] + "dmodels" == "3dmodels";
    OneDigit("", "+", '5', "");
    assert "" + "+" + ['5'] + "" == "+5";
    OneDigit(" ", "", '7', "");
    assert " " + "" + ['7'] + "" == " 7";
    assert !IsDigit("1a"[1]) && !IsDigit("3dmodels"[1]) && !IsDigit("+5"[0]) && !IsDigit(" 7"[0]);
    TooBig();
  }

  lemma OneDigit(blanks: string, sign: string, d: char, rest: string)
    requires (forall c | c in blanks :: IsSpace(c)) && sign in {"", "+"} && IsDigit(d)
    requires rest == "" || !IsDigit(rest[0])
    ensures Stoi(blanks + sign + [d] + rest) == Some(DigitValue(d))
  {
    hide Stoi;
    assert [d][..|[d]| - 1] == "" && Value("") == 0;
    assert Value([d]) == DigitValue(d);
    StoiReads(blanks + sign + [d] + rest, blanks, sign, [d], rest);
  }

  const TOO_BIG := "10000000000"

  lemma TooBig()
    ensures IsId(TOO_BIG) && Value(TOO_BIG) > INT_MAX && Stoi(TOO_BIG) == None
  {
    hide Value, Stoi;
    ValueAtLeast(TOO_BIG);
    TenPower();
    StoiOnDigits(TOO_BIG);
  }

  lemma TenPower()
    ensures Pow10(10) == 10_000_000_000
  {
    assert Pow10(5) == 100_000;
  }

  /** Every identifier POST hands out is an identifier for all methods. */
  lemma NumeralIsId(n: nat)
    requires n <= INT_MAX
    ensures IsId(Numeral(n)) && Stoi(Numeral(n)) == Some(n)
  {
    StoiOnDigits(Numeral(n));
    NumeralValue(n);
  }

  lemma {:induction false} NumeralHasNoSlash(n: nat)
    ensures '/' !in Numeral(n) && PathOf(Numeral(n)) == [Numeral(n)]
  {
    SplitNone(Numeral(n), '/');
  }
}

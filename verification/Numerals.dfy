/**
 Numbers as they may be written, with spaces, signs, prefixes, separators and fractions, and what the parser makes of
 them (src/pw_parse.c:16-318, 476-521). The texts are put together here without the parser's own notions of them.
 */
module Numerals {
  import opened Radix
  import opened Parsing

  // ----- ways to write the digits of a number -----

  /** The text without its apostrophes and underscores. */
  function Unseparated(t: Text): Text {
    if t == [] then []
    else
      var n := |t| - 1;
      Unseparated(t[..n]) + if t[n] == '\'' as nat || t[n] == '_' as nat then [] else [t[n]]
  }

  /** The letter in lower case. */
  function Lower(c: nat): nat {
    if 'A' as nat <= c <= 'Z' as nat then c - 'A' as nat + 'a' as nat else c
  }

  function LowerCase(t: Text): (r: Text)
    ensures |r| == |t| && forall i :: 0 <= i < |t| ==> r[i] == Lower(t[i])
  {
    seq(|t|, i requires 0 <= i < |t| => Lower(t[i]))
  }

  predicate Separates(c: nat) {
    c == '\'' as nat || c == '_' as nat
  }

  /** The digits of v in either case, with single separators between them. */
  predicate Written(t: Text, radix: nat, v: nat)
    requires KnownRadix(radix)
  {
    && LowerCase(Unseparated(t)) == Digits(radix, v)
    && t != [] && !Separates(t[0]) && !Separates(t[|t| - 1])
    && forall i :: 1 <= i < |t| ==> !(Separates(t[i - 1]) && Separates(t[i]))
  }

  /** The prefixes of a radix. */
  predicate IsPrefix(prefix: Text, radix: nat) {
    || (radix == 10 && prefix == [])
    || (radix == 2 && (prefix == Zero('b') || prefix == Zero('B')))
    || (radix == 8 && (prefix == Zero('o') || prefix == Zero('O')))
    || (radix == 16 && (prefix == Zero('x') || prefix == Zero('X')))
  }

  function Zero(letter: char): Text {
    ['0' as nat, letter as nat]
  }

  predicate IsSign(sign: Text) {
    sign == [] || sign == ['+' as nat] || sign == ['-' as nat]
  }

  /** White space is among control characters, the blank and what is not ASCII. */
  ghost predicate SpacesApart(isSpace: nat -> bool) {
    forall c :: isSpace(c) ==> c <= 32 || c >= 128
  }

  /** Nothing, or white space and whatever comes after it. */
  predicate MayFollow(after: Text, isSpace: nat -> bool) {
    after == [] || isSpace(after[0])
  }

  // ----- the value of such a text -----

  /** A digit in either case. */
  lemma LowerDigit(radix: nat, c: nat)
    requires KnownRadix(radix) && IsDigit(radix, Lower(c))
    ensures IsDigit(radix, c) && DigitValue(radix, c) == DigitValue(radix, Lower(c)) && !IsSeparator(c)
  {
  }

  predicate Digital(radix: nat, t: Text) {
    forall i :: 0 <= i < |t| ==> IsDigit(radix, t[i])
  }

  lemma {:induction false} WrittenValue(radix: nat, t: Text)
    requires KnownRadix(radix) && Digital(radix, LowerCase(Unseparated(t)))
    ensures Value(radix, t) == Value(radix, LowerCase(Unseparated(t)))
    ensures forall i :: 0 <= i < |t| ==> InRun(radix, t[i])
    decreases |t|
  {
    hide *;
    if t != [] {
      var n := |t| - 1;
      var c, u := t[n], Unseparated(t[..n]);
      WrittenStep(t);
      assert t == t[..n] + [c];
      ValueStep(radix, t[..n], c);
      if !Separates(c) {
        LowerLast(radix, u, c);
        LowerDigit(radix, c);
        ValueStep(radix, LowerCase(u), Lower(c));
      }
      WrittenValue(radix, t[..n]);
    } else {
      NothingWritten();
    }
  }

  lemma NothingWritten()
    ensures Unseparated([]) == [] && LowerCase([]) == []
  {
  }

  lemma LowerLast(radix: nat, u: Text, c: nat)
    ensures LowerCase(u + [c]) == LowerCase(u) + [Lower(c)]
    ensures Digital(radix, LowerCase(u) + [Lower(c)]) <==> Digital(radix, LowerCase(u)) && IsDigit(radix, Lower(c))
  {
    var all := LowerCase(u) + [Lower(c)];
    assert all[|u|] == Lower(c) && forall i :: 0 <= i < |u| ==> all[i] == LowerCase(u)[i];
    hide IsDigit, Lower;
  }

  lemma WrittenStep(t: Text)
    requires t != []
    ensures var n := |t| - 1;
            Unseparated(t) == if Separates(t[n]) then Unseparated(t[..n]) else Unseparated(t[..n]) + [t[n]]
  {
  }

  lemma ValueStep(radix: nat, init: Text, c: nat)
    requires KnownRadix(radix)
    ensures Separates(c) ==> Value(radix, init + [c]) == Value(radix, init)
    ensures IsDigit(radix, c) ==> Value(radix, init + [c]) == Scale(radix, Value(radix, init)) + DigitValue(radix, c)
    ensures Separates(c) || IsDigit(radix, c) ==> InRun(radix, c)
  {
    assert (init + [c])[..|init + [c]| - 1] == init;
  }

  lemma {:induction false} FirstWritten(t: Text)
    requires t != [] && !Separates(t[0])
    ensures Unseparated(t) != [] && Unseparated(t)[0] == t[0]
    decreases |t|
  {
    if |t| > 1 {
      FirstWritten(t[..|t| - 1]);
    } else {
      assert Unseparated(t[..0]) == [];
    }
  }

  /** Such a text is a proper run with that value. */
  lemma WrittenRun(radix: nat, t: Text, v: nat)
    requires KnownRadix(radix) && Written(t, radix, v)
    ensures (forall i :: 0 <= i < |t| ==> InRun(radix, t[i])) && Value(radix, t) == v
    ensures t != [] && ProperRun(t, true) && ProperRun(t, false)
    ensures Lower(t[0]) == Digits(radix, v)[0]
  {
    hide Unseparated, Digits, Value, IsDigit;
    ValueOfDigits(radix, v);
    WrittenValue(radix, t);
    FirstWritten(t);
  }

  /** Run characters standing between others that are none are the run there. */
  lemma RunInside(radix: nat, before: Text, t: Text, after: Text)
    requires KnownRadix(radix) && (forall i :: 0 <= i < |t| ==> InRun(radix, t[i]))
    requires after == [] || !InRun(radix, after[0])
    ensures RunAt(radix, before + t + after, |before|) == t
    ensures RunEnd(radix, before + t + after, |before|) == |before| + |t|
  {
    var s, p, e := before + t + after, |before|, |before| + |t|;
    assert forall i :: p <= i < e ==> s[i] == t[i - p];
    assert e < |s| ==> s[e] == after[0];
    hide InRun;
    RunReaches(radix, s, p, e);
    RunEndsHere(radix, s, e);
    assert s[p..e] == t;
  }

  // ----- the text around it -----

  lemma {:induction false} SpacesSkipped(spaces: Text, rest: Text, k: nat, isSpace: nat -> bool)
    requires (forall i :: 0 <= i < |spaces| ==> isSpace(spaces[i])) && k <= |spaces|
    requires rest == [] || !isSpace(rest[0])
    ensures SkipSpaces(spaces + rest, k, isSpace) == |spaces|
    decreases |spaces| - k
  {
    if k < |spaces| {
      SpacesSkipped(spaces, rest, k + 1, isSpace);
    }
  }

  /** Where the magnitude starts. */
  lemma SignFound(spaces: Text, sign: Text, rest: Text, isSpace: nat -> bool)
    requires SpacesApart(isSpace) && forall i :: 0 <= i < |spaces| ==> isSpace(spaces[i])
    requires IsSign(sign) && rest != [] && 48 <= rest[0] < 128
    ensures SignAt(spaces + sign + rest, isSpace) == (|spaces| + |sign|, sign == ['-' as nat])
  {
    var s := spaces + sign + rest;
    assert s == spaces + (sign + rest);
    assert sign == [] ==> sign + rest == rest;
    SpacesSkipped(spaces, sign + rest, 0, isSpace);
    assert s[|spaces|] == (sign + rest)[0];
  }

  /** Where the digits start, and their radix. */
  lemma RadixFound(before: Text, prefix: Text, radix: nat, t: Text, v: nat, after: Text)
    requires KnownRadix(radix) && IsPrefix(prefix, radix) && Written(t, radix, v)
    requires after != [] ==> after[0] != 'b' as nat && after[0] != 'o' as nat && after[0] != 'x' as nat
    requires after != [] ==> after[0] != 'B' as nat && after[0] != 'O' as nat && after[0] != 'X' as nat
    ensures RadixAt(before + prefix + t + after, |before|) == (|before| + |prefix|, radix)
    ensures prefix + t != [] && 48 <= (prefix + t)[0] < 128
  {
    WrittenRun(radix, t, v);
    var s, p := before + prefix + t + after, |before|;
    if radix == 10 {
      DecimalStart(t, v);
      assert s[p] == t[0] && (|t| > 1 ==> s[p + 1] == t[1]) && (|t| == 1 && after != [] ==> s[p + 1] == after[0]);
    } else {
      assert s[p] == prefix[0] && s[p + 1] == prefix[1];
    }
  }

  /** A decimal text begins with a zero only if that is all of it. */
  lemma DecimalStart(t: Text, v: nat)
    requires Written(t, 10, v)
    ensures 48 <= t[0] <= 57 && (t[0] == 48 ==> |t| == 1)
  {
    WrittenRun(10, t, v);
    NoLeadingZero(v);
    LowerDigit(10, t[0]);
    assert |Digits(10, 0)| == 1;
    hide Digits;
    if |t| > 1 {
      TwoDigits(t);
    }
  }

  /** The first and the last character are two. */
  lemma TwoDigits(t: Text)
    requires |t| > 1 && !Separates(t[0]) && !Separates(t[|t| - 1])
    ensures |Unseparated(t)| >= 2
  {
    FirstWritten(t[..|t| - 1]);
  }

  /**
   What the parser makes of a number however it is written: white space and whatever else after it, a sign, a prefix
   for its radix in either case, digits in either case and separators.
   */
  method ParseWritten(spaces: Text, sign: Text, prefix: Text, radix: nat, t: Text, v: nat, after: Text,
                      isSpace: nat -> bool)
    returns (r: Result<Number>)
    requires KnownRadix(radix) && SpacesApart(isSpace) && forall i :: 0 <= i < |spaces| ==> isSpace(spaces[i])
    requires IsSign(sign) && IsPrefix(prefix, radix) && Written(t, radix, v) && MayFollow(after, isSpace)
    ensures v > UNSIGNED_MAX ==> r == Err(NumericOverflow)
    ensures v <= SIGNED_MAX ==> r == Ok(Signed(if sign == ['-' as nat] then -(v as int) else v))
    ensures SIGNED_MAX < v <= UNSIGNED_MAX ==>
              r == if sign == ['-' as nat] then Err(NumericOverflow) else Ok(Unsigned(v))
  {
    hide *;
    WrittenFacts(spaces, sign, prefix, radix, t, v, after, isSpace);
    r := ParseNumber(spaces + sign + prefix + t + after, isSpace);
    MadeInteger(v, sign == ['-' as nat]);
  }

  lemma MadeInteger(v: nat, negative: bool)
    ensures v <= SIGNED_MAX ==> MakeInteger(v, negative) == Ok(Signed(if negative then -(v as int) else v))
    ensures SIGNED_MAX < v ==> MakeInteger(v, negative) == if negative then Err(NumericOverflow) else Ok(Unsigned(v))
    ensures SIGNED_MAX < UNSIGNED_MAX
  {
  }

  lemma WrittenFacts(spaces: Text, sign: Text, prefix: Text, radix: nat, t: Text, v: nat, after: Text,
                     isSpace: nat -> bool)
    requires KnownRadix(radix) && SpacesApart(isSpace) && forall i :: 0 <= i < |spaces| ==> isSpace(spaces[i])
    requires IsSign(sign) && IsPrefix(prefix, radix) && Written(t, radix, v) && MayFollow(after, isSpace)
    ensures var s, p := spaces + sign + prefix + t + after, |spaces| + |sign|;
            && SignAt(s, isSpace) == (p, sign == ['-' as nat]) && p <= |s|
            && RadixAt(s, p) == (p + |prefix|, radix) && p + |prefix| < |s|
            && Value(radix, RunAt(radix, s, p + |prefix|)) == v
            && (v <= UNSIGNED_MAX ==> IsIntegerAt(s, p, Classes(isSpace, c => false)))
            && (v > UNSIGNED_MAX ==> TooBigAt(s, p))
  {
    hide *;
    var s, p := spaces + sign + prefix + t + after, |spaces| + |sign|;
    var rest := prefix + t + after;
    WrittenRun(radix, t, v);
    AfterRun(radix, after, isSpace);
    RadixFound(spaces + sign, prefix, radix, t, v, after);
    assert |spaces + sign| == p && rest[0] == (prefix + t)[0];
    assert s == spaces + sign + rest;
    SignFound(spaces, sign, rest, isSpace);
    assert |spaces + sign + prefix| == p + |prefix|;
    RunInside(radix, spaces + sign + prefix, t, after);
    assert after != [] ==> s[p + |prefix| + |t|] == after[0];
    IntegerHere(s, p, p + |prefix|, radix, t, isSpace);
  }

  lemma IntegerHere(s: Text, p: nat, q: nat, radix: nat, t: Text, isSpace: nat -> bool)
    requires KnownRadix(radix) && p <= |s| && RadixAt(s, p) == (q, radix) && q + |t| <= |s| && t != []
    requires RunAt(radix, s, q) == t && RunEnd(radix, s, q) == q + |t| && ProperRun(t, true) && ProperRun(t, false)
    requires q + |t| < |s| ==>
               var c := s[q + |t|]; isSpace(c) && c != '.' as nat && c != 'e' as nat && c != 'E' as nat
    ensures Value(radix, t) <= UNSIGNED_MAX ==> IsIntegerAt(s, p, Classes(isSpace, c => false))
    ensures Value(radix, t) > UNSIGNED_MAX ==> TooBigAt(s, p)
  {
    hide RadixAt, RunAt, RunEnd, Value, ProperRun;
  }

  /** White space ends a run and is no part of a number. */
  lemma AfterRun(radix: nat, after: Text, isSpace: nat -> bool)
    requires KnownRadix(radix) && SpacesApart(isSpace) && MayFollow(after, isSpace)
    ensures after != [] ==>
              && !InRun(radix, after[0]) && isSpace(after[0])
              && after[0] != 'b' as nat && after[0] != 'o' as nat && after[0] != 'x' as nat
              && after[0] != 'B' as nat && after[0] != 'O' as nat && after[0] != 'X' as nat
              && after[0] != '.' as nat && after[0] != 'e' as nat && after[0] != 'E' as nat
  {
  }

  // ----- points and exponents -----

  predicate AllDigits(t: Text) {
    forall i :: 0 <= i < |t| ==> '0' as nat <= t[i] <= '9' as nat
  }

  /** Nothing, or a point and any digits. */
  predicate IsFraction(t: Text) {
    t == [] || (t[0] == '.' as nat && AllDigits(t[1..]))
  }

  /** Nothing, or an e with an optional sign and some digits. */
  predicate IsExponent(t: Text) {
    t == [] || ((t[0] == 'e' as nat || t[0] == 'E' as nat)
      && (if |t| > 1 && (t[1] == '+' as nat || t[1] == '-' as nat) then |t| > 2 && AllDigits(t[2..])
          else |t| > 1 && AllDigits(t[1..])))
  }

  /** Digits up to the end or to something else are all taken. */
  lemma DigitsUpTo(s: Text, p: nat, q: nat)
    requires p <= q <= |s| && (forall i :: p <= i < q ==> '0' as nat <= s[i] <= '9' as nat)
    requires q < |s| ==> !('0' as nat <= s[q] <= '9' as nat)
    ensures DigitsEnd(s, p) == q
  {
    DigitsReach(s, p, q);
  }

  lemma TailFound(before: Text, point: Text, exponent: Text, classes: Classes)
    requires IsFraction(point) && IsExponent(exponent) && (point != [] || exponent != [])
    ensures var s := before + point + exponent;
            FloatTail(s, |before|, classes) && TailEnd(s, |before|) == |s|
  {
    var s, f := before + point + exponent, |before| + |point|;
    PointFound(before, point, exponent);
    if exponent != [] {
      assert s == (before + point) + exponent;
      ExponentFound(before + point, exponent);
    }
    hide IsFraction, IsExponent, PointEnd, DigitsEnd, ExponentDigits;
  }

  lemma PointFound(before: Text, point: Text, exponent: Text)
    requires IsFraction(point) && IsExponent(exponent)
    ensures PointEnd(before + point + exponent, |before|) == |before| + |point|
    ensures ExponentAt(before + point + exponent, |before| + |point|) <==> exponent != []
  {
    var s, e, f := before + point + exponent, |before|, |before| + |point|;
    assert point != [] ==> s[e] == point[0];
    assert exponent != [] ==> s[f] == exponent[0];
    if point != [] {
      assert forall i :: e + 1 <= i < f ==> s[i] == point[1..][i - e - 1];
      DigitsUpTo(s, e + 1, f);
    }
  }

  lemma ExponentFound(before: Text, exponent: Text)
    requires exponent != [] && IsExponent(exponent)
    ensures var s := before + exponent;
            && ExponentAt(s, |before|) && ExponentDigits(s, |before|) < |s|
            && DigitsEnd(s, ExponentDigits(s, |before|)) == |s|
  {
    var s, f := before + exponent, |before|;
    assert s[f] == exponent[0] && (|exponent| > 1 ==> s[f + 1] == exponent[1]);
    var x := ExponentDigits(s, f);
    var k := x - f;
    assert forall i :: x <= i < |s| ==> s[i] == exponent[k..][i - x];
    DigitsUpTo(s, x, |s|);
  }

  /** A decimal number with a point or an exponent or both is a floating point number, from its first digit on. */
  method ParseDecimal(spaces: Text, sign: Text, t: Text, v: nat, point: Text, exponent: Text, isSpace: nat -> bool)
    returns (r: Result<Number>)
    requires SpacesApart(isSpace) && forall i :: 0 <= i < |spaces| ==> isSpace(spaces[i])
    requires IsSign(sign) && KnownRadix(10) && Written(t, 10, v) && v <= UNSIGNED_MAX
    requires IsFraction(point) && IsExponent(exponent) && (point != [] || exponent != [])
    ensures var from := |spaces| + |sign|;
            r == Ok(Float(from, from + |t| + |point| + |exponent|, sign == ['-' as nat]))
  {
    hide *;
    DecimalFacts(spaces, sign, t, v, point, exponent, isSpace);
    r := ParseNumber(spaces + sign + t + point + exponent, isSpace);
  }

  lemma DecimalFacts(spaces: Text, sign: Text, t: Text, v: nat, point: Text, exponent: Text, isSpace: nat -> bool)
    requires SpacesApart(isSpace) && forall i :: 0 <= i < |spaces| ==> isSpace(spaces[i])
    requires IsSign(sign) && KnownRadix(10) && Written(t, 10, v) && v <= UNSIGNED_MAX
    requires IsFraction(point) && IsExponent(exponent) && (point != [] || exponent != [])
    ensures var s, p := spaces + sign + t + point + exponent, |spaces| + |sign|;
            && SignAt(s, isSpace) == (p, sign == ['-' as nat]) && p <= |s|
            && IsFloatAt(s, p, Classes(isSpace, c => false)) && TailEnd(s, RunEnd(10, s, p)) == |s|
  {
    hide *;
    var s, p, after := spaces + sign + t + point + exponent, |spaces| + |sign|, point + exponent;
    WrittenRun(10, t, v);
    TailStarts(point, exponent);
    NoPrefix();
    RadixFound(spaces + sign, [], 10, t, v, after);
    assert |spaces + sign| == p && [] + t == t && spaces + sign + [] == spaces + sign;
    assert s == spaces + sign + t + after && s == spaces + sign + (t + after) && (t + after)[0] == t[0];
    SignFound(spaces, sign, t + after, isSpace);
    RunInside(10, spaces + sign, t, after);
    TailFound(spaces + sign + t, point, exponent, Classes(isSpace, c => false));
    assert |spaces + sign + t| == p + |t|;
    FloatHere(s, p, t, Classes(isSpace, c => false));
  }

  lemma NoPrefix()
    ensures IsPrefix([], 10)
  {
  }

  lemma TailStarts(point: Text, exponent: Text)
    requires IsFraction(point) && IsExponent(exponent) && (point != [] || exponent != [])
    ensures var after := point + exponent;
            && after != [] && !InRun(10, after[0])
            && (after[0] == '.' as nat || after[0] == 'e' as nat || after[0] == 'E' as nat)
            && after[0] != 'b' as nat && after[0] != 'o' as nat && after[0] != 'x' as nat
            && after[0] != 'B' as nat && after[0] != 'O' as nat && after[0] != 'X' as nat
  {
  }

  lemma FloatHere(s: Text, p: nat, t: Text, classes: Classes)
    requires p <= |s| && RadixAt(s, p) == (p, 10) && KnownRadix(10) && p + |t| < |s| && t != []
    requires RunAt(10, s, p) == t && RunEnd(10, s, p) == p + |t| && ProperRun(t, false)
    requires Value(10, t) <= UNSIGNED_MAX && FloatTail(s, p + |t|, classes)
    ensures IsFloatAt(s, p, classes)
  {
    hide RadixAt, RunAt, RunEnd, Value, ProperRun, FloatTail;
  }

  /** What may come right after decimal digits: more of them, a separator, a point, an exponent, or a radix letter. */
  predicate GoesOn(c: nat) {
    || '0' as nat <= c <= '9' as nat || Separates(c) || c == '.' as nat || c == 'e' as nat || c == 'E' as nat
    || c == 'b' as nat || c == 'B' as nat || c == 'o' as nat || c == 'O' as nat || c == 'x' as nat || c == 'X' as nat
  }

  /** Anything else that is no white space makes the text no number. */
  method RefusesOther(t: Text, v: nat, c: nat, rest: Text, isSpace: nat -> bool) returns (r: Result<Number>)
    requires SpacesApart(isSpace) && KnownRadix(10) && Written(t, 10, v) && !GoesOn(c) && !isSpace(c)
    ensures r.Err?
  {
    hide *;
    OtherFacts(t, v, c, rest, isSpace);
    r := ParseNumber(t + [c] + rest, isSpace);
  }

  lemma OtherFacts(t: Text, v: nat, c: nat, rest: Text, isSpace: nat -> bool)
    requires SpacesApart(isSpace) && KnownRadix(10) && Written(t, 10, v) && !GoesOn(c) && !isSpace(c)
    ensures var s := t + [c] + rest;
            && SignAt(s, isSpace) == (0, false)
            && !IsIntegerAt(s, 0, Classes(isSpace, c => false)) && !IsFloatAt(s, 0, Classes(isSpace, c => false))
  {
    hide *;
    var after := [c] + rest;
    var s := t + [c] + rest;
    assert s == [] + [] + t + after;
    WrittenRun(10, t, v);
    NoPrefix();
    EndsDigits(c);
    RadixFound([], [], 10, t, v, after);
    assert [] + t == t && s == [] + [] + (t + after) && (t + after)[0] == t[0];
    SignFound([], [], t + after, isSpace);
    RunInside(10, [] + [], t, after);
    assert |[] + [] + t| == |t| < |s| && s[|t|] == c;
    NothingHere(s, t, isSpace);
  }

  lemma EndsDigits(c: nat)
    requires !GoesOn(c)
    ensures !InRun(10, c) && c != '.' as nat && c != 'e' as nat && c != 'E' as nat
    ensures c != 'b' as nat && c != 'o' as nat && c != 'x' as nat
    ensures c != 'B' as nat && c != 'O' as nat && c != 'X' as nat
    ensures IsSign([])
  {
  }

  lemma NothingHere(s: Text, t: Text, isSpace: nat -> bool)
    requires RadixAt(s, 0) == (0, 10) && KnownRadix(10) && |t| < |s| && !isSpace(s[|t|]) && RunEnd(10, s, 0) == |t|
    requires s[|t|] != '.' as nat && s[|t|] != 'e' as nat && s[|t|] != 'E' as nat
    ensures !IsIntegerAt(s, 0, Classes(isSpace, c => false)) && !IsFloatAt(s, 0, Classes(isSpace, c => false))
  {
    hide RadixAt, RunEnd, IsUnsignedAt;
  }

  // ----- fractions of a second -----

  /** Zeros behind a fraction multiply its digits. */
  lemma {:induction false} ValueBeforeZeros(run: Text, k: nat)
    ensures Value(10, run + Zeros(k)) == Value(10, run) * Pow10(k)
    decreases k
  {
    if k == 0 {
      assert run + Zeros(0) == run;
    } else {
      ZerosEnd(k);
      var longer := run + Zeros(k);
      assert longer[..|longer| - 1] == run + Zeros(k - 1) && longer[|longer| - 1] == '0' as nat;
      ValueBeforeZeros(run, k - 1);
      assert Value(10, longer) == 10 * Value(10, run + Zeros(k - 1));
      assert Pow10(k) == 10 * Pow10(k - 1);
      hide *;
      TimesTen(Value(10, run), Pow10(k - 1));
    }
  }

  lemma TimesTen(v: nat, p: nat)
    ensures v * (10 * p) == 10 * (v * p)
  {
  }

  lemma {:induction false} ZerosEnd(k: nat)
    requires k > 0
    ensures Zeros(k) == Zeros(k - 1) + ['0' as nat]
  {
    if k > 1 {
      ZerosEnd(k - 1);
    }
  }

  /** A fraction counts as many nanoseconds as its digits followed by zeros up to nine. */
  lemma FractionPadded(run: Text)
    requires |run| <= 9
    ensures Nanoseconds(run) == Nanoseconds(run + Zeros(9 - |run|)) == Value(10, run + Zeros(9 - |run|))
  {
    hide *;
    var padded := run + Zeros(9 - |run|);
    ValueBeforeZeros(run, 9 - |run|);
    InNanoseconds(run);
    InNanoseconds(padded);
  }

  lemma InNanoseconds(run: Text)
    requires |run| <= 9
    ensures KnownRadix(10) && Nanoseconds(run) == Value(10, run) * Pow10(9 - |run|)
    ensures |run| == 9 ==> Nanoseconds(run) == Value(10, run)
  {
    assert Pow10(0) == 1;
  }

  /**
   Seconds with a fraction of any digits and something after it: up to nine digits count, as if zeros followed, more are
   refused, and so is what may not come after a timestamp.
   */
  method ParseSeconds(seconds: nat, fraction: Text, after: Text, classes: Classes) returns (r: Result<(nat, nat)>)
    requires seconds <= UNSIGNED_MAX && AllDigits(fraction)
    requires after != [] ==> !('0' as nat <= after[0] <= '9' as nat)
    ensures |fraction| <= 9 && (after == [] || classes.isSpace(after[0]) || classes.terminates(after[0])) ==>
              r == Ok((seconds, Value(10, fraction + Zeros(9 - |fraction|))))
    ensures |fraction| > 9 || !(after == [] || classes.isSpace(after[0]) || classes.terminates(after[0])) ==> r.Err?
  {
    hide *;
    SecondsFacts(seconds, fraction, after, classes);
    var s := Digits(10, seconds) + ['.' as nat] + fraction + after;
    var end;
    r, end := ParseTimestamp(s, 0, classes);
  }

  lemma SecondsFacts(seconds: nat, fraction: Text, after: Text, classes: Classes)
    requires seconds <= UNSIGNED_MAX && AllDigits(fraction)
    requires after != [] ==> !('0' as nat <= after[0] <= '9' as nat)
    ensures KnownRadix(10)
    ensures var s := Digits(10, seconds) + ['.' as nat] + fraction + after;
            && (IsTimestampAt(s, 0, classes) <==>
                |fraction| <= 9 && (after == [] || classes.isSpace(after[0]) || classes.terminates(after[0])))
            && Value(10, RunAt(10, s, 0)) == seconds
            && var (from, to) := FractionAt(s, RunEnd(10, s, 0));
               s[from..to] == fraction
               && (|fraction| <= 9 ==> Nanoseconds(fraction) == Value(10, fraction + Zeros(9 - |fraction|)))
  {
    hide *;
    TenIsRadix();
    var d := Digits(10, seconds);
    var s := d + ['.' as nat] + fraction + after;
    PointCut(d, fraction, after);
    RunOfDigits(10, s, 0, seconds);
    TimestampHere(s, |d|, |d| + 1 + |fraction|, classes);
    if |fraction| <= 9 {
      FractionPadded(fraction);
    }
    assert s[|d| + 1..|d| + 1 + |fraction|] == fraction;
  }

  lemma TimestampHere(s: Text, e: nat, to: nat, classes: Classes)
    requires KnownRadix(10) && IsUnsignedAt(10, s, 0) && RunEnd(10, s, 0) == e < |s| && s[e] == '.' as nat
    requires DigitsEnd(s, e + 1) == to
    ensures FractionAt(s, e) == (e + 1, to)
    ensures IsTimestampAt(s, 0, classes) <==>
            to - (e + 1) <= 9 && (to == |s| || classes.isSpace(s[to]) || classes.terminates(s[to]))
  {
    hide IsUnsignedAt, RunEnd, DigitsEnd;
  }

  lemma PointCut(d: Text, fraction: Text, after: Text)
    requires AllDigits(fraction)
    requires after != [] ==> !('0' as nat <= after[0] <= '9' as nat)
    ensures var s, to := d + ['.' as nat] + fraction + after, |d| + 1 + |fraction|;
            && s[0..0 + |d|] == d && s[|d|] == '.' as nat && !InRun(10, s[|d|]) && DigitsEnd(s, |d| + 1) == to
            && (to < |s| <==> after != []) && (to < |s| ==> s[to] == after[0])
  {
    var s, to := d + ['.' as nat] + fraction + after, |d| + 1 + |fraction|;
    assert forall i :: |d| + 1 <= i < to ==> s[i] == fraction[i - |d| - 1];
    assert to < |s| ==> s[to] == after[0];
    DigitsUpTo(s, |d| + 1, to);
  }
}

/** Numbers and timestamps in text (src/pw_parse.c:16-318, 476-521). A text is a sequence of code points. */
module Parsing {
  import opened Radix

  const UNSIGNED_MAX: nat := 0xFFFF_FFFF_FFFF_FFFF
  const SIGNED_MAX: nat := 0x7FFF_FFFF_FFFF_FFFF

  const SIGNED_MIN: int := -0x8000_0000_0000_0000

  type Text = seq<nat>

  /** pw_char_at: 0 beyond the end. */
  function CharAt(s: Text, p: nat): nat {
    if p < |s| then s[p] else 0
  }

  predicate IsSeparator(c: nat) {
    c == '\'' as nat || c == '_' as nat
  }

  predicate KnownRadix(radix: nat) {
    radix == 2 || radix == 8 || radix == 10 || radix == 16
  }

  predicate IsDigit(radix: nat, c: nat) {
    if radix == 16 then 'a' as nat <= c <= 'f' as nat || 'A' as nat <= c <= 'F' as nat || '0' as nat <= c <= '9' as nat
    else '0' as nat <= c < '0' as nat + radix
  }

  function DigitValue(radix: nat, c: nat): (d: nat)
    requires KnownRadix(radix)
    ensures d < radix
  {
    if !IsDigit(radix, c) then 0
    else if c >= 'a' as nat then c - 'a' as nat + 10 else if c >= 'A' as nat then c - 'A' as nat + 10
        else c - '0' as nat
  }

  /** v * radix. */
  function Scale(radix: nat, v: nat): nat {
    if radix == 2 then 2 * v else if radix == 8 then 8 * v else if radix == 10 then 10 * v else 16 * v
  }

  // ----- what the text of an unsigned number is -----

  predicate InRun(radix: nat, c: nat) {
    IsSeparator(c) || IsDigit(radix, c)
  }

  /** End of the digits and separators that begin at p. */
  function RunEnd(radix: nat, s: Text, p: nat): (e: nat)
    requires p <= |s|
    ensures p <= e <= |s|
    ensures forall i :: p <= i < e ==> InRun(radix, s[i])
    ensures e < |s| ==> !InRun(radix, s[e])
    decreases |s| - p
  {
    if p < |s| && InRun(radix, s[p]) then RunEnd(radix, s, p + 1) else p
  }

  /** The mathematical value of a run, separators left out. */
  function Value(radix: nat, run: Text): (v: nat)
    requires KnownRadix(radix)
  {
    if run == [] then 0
    else
      var init, c := run[..|run| - 1], run[|run| - 1];
      if IsSeparator(c) then Value(radix, init) else Scale(radix, Value(radix, init)) + DigitValue(radix, c)
  }

  predicate NoDoubleSeparator(run: Text) {
    forall i :: 1 <= i < |run| ==> !(IsSeparator(run[i - 1]) && IsSeparator(run[i]))
  }

  /** Starts with a digit, no doubled separator, and no separator at the end of the text. */
  predicate ProperRun(run: Text, endsText: bool) {
    && run != [] && !IsSeparator(run[0])
    && NoDoubleSeparator(run)
    && !(endsText && IsSeparator(run[|run| - 1]))
  }

  /** The run that begins at p. */
  function RunAt(radix: nat, s: Text, p: nat): (run: Text)
    requires p <= |s|
    ensures forall i :: 0 <= i < |run| ==> InRun(radix, run[i])
  {
    s[p..RunEnd(radix, s, p)]
  }

  datatype Error = BadNumber | NumericOverflow | BadTimestamp
  datatype Result<T> = Ok(value: T) | Err(error: Error)

  ghost predicate IsUnsignedAt(radix: nat, s: Text, p: nat)
    requires KnownRadix(radix) && p <= |s|
  {
    var run := RunAt(radix, s, p);
    ProperRun(run, p + |run| == |s|) && Value(radix, run) <= UNSIGNED_MAX
  }

  /** The value read so far stays below the value of the whole run. */
  lemma {:induction false} ValueGrows(radix: nat, run: Text, k: nat)
    requires KnownRadix(radix) && k <= |run|
    ensures Value(radix, run[..k]) <= Value(radix, run)
    decreases |run|
  {
    hide DigitValue, IsSeparator;
    if k < |run| {
      var init := run[..|run| - 1];
      ValueGrows(radix, init, k);
      assert init[..k] == run[..k];
    } else {
      assert run[..k] == run;
    }
  }

  /** The two overflow tests of the code catch exactly the values of 2^64 and above. */
  lemma OverflowTests(radix: nat, v: nat, d: nat)
    requires KnownRadix(radix) && v <= UNSIGNED_MAX && d < radix
    ensures Scale(radix, v) + d > UNSIGNED_MAX <==> v > UNSIGNED_MAX / radix || U64(Scale(radix, v) + d) < v
    ensures Scale(radix, v) + d <= UNSIGNED_MAX ==> U64(Scale(radix, v) + d) == Scale(radix, v) + d
  {
    if radix == 2 {
    } else if radix == 8 {
    } else if radix == 10 {
    } else {
    }
  }

  /** A stretch of run characters from the start lies inside the run. */
  lemma {:induction false} RunReaches(radix: nat, s: Text, start: nat, pos: nat)
    requires start <= pos <= |s| && forall i :: start <= i < pos ==> InRun(radix, s[i])
    ensures RunEnd(radix, s, start) == RunEnd(radix, s, pos)
    decreases pos - start
  {
    if start < pos {
      RunReaches(radix, s, start + 1, pos);
    }
  }

  /** The loop has read a proper part of the run, up to pos, with this value. */
  ghost predicate Reading(radix: nat, s: Text, start: nat, pos: nat, value: nat, separatorSeen: bool)
    requires KnownRadix(radix)
  {
    && start <= pos <= |s|
    && (forall i :: start <= i < pos ==> InRun(radix, s[i]))
    && value == Value(radix, s[start..pos]) && value <= UNSIGNED_MAX
    && (separatorSeen <==> pos > start && IsSeparator(s[pos - 1]))
    && (pos > start ==> !IsSeparator(s[start]))
    && (forall i :: start < i < pos ==> !(IsSeparator(s[i - 1]) && IsSeparator(s[i])))
  }

  /** The characters read are the first ones of the run, which goes on exactly when the next character belongs to it. */
  lemma ReadingRun(radix: nat, s: Text, start: nat, pos: nat, value: nat, separatorSeen: bool)
    requires KnownRadix(radix) && Reading(radix, s, start, pos, value, separatorSeen)
    ensures pos <= RunEnd(radix, s, start) && |RunAt(radix, s, start)| == RunEnd(radix, s, start) - start
    ensures RunEnd(radix, s, start) == pos <==> pos == |s| || !InRun(radix, s[pos])
    ensures forall i :: start <= i < RunEnd(radix, s, start) ==> RunAt(radix, s, start)[i - start] == s[i]
  {
    RunReaches(radix, s, start, pos);
  }

  lemma ReadingStarts(radix: nat, s: Text, start: nat)
    requires KnownRadix(radix) && start <= |s|
    ensures Reading(radix, s, start, start, 0, false)
  {
    assert s[start..start] == [];
  }

  /** A separator is wrong at the start, after another one, and at the end of the text; else reading goes on. */
  lemma AtSeparator(radix: nat, s: Text, start: nat, pos: nat, value: nat, separatorSeen: bool)
    requires KnownRadix(radix) && Reading(radix, s, start, pos, value, separatorSeen)
    requires pos < |s| && IsSeparator(s[pos])
    ensures separatorSeen || pos == start || pos + 1 == |s| ==>
              !ProperRun(RunAt(radix, s, start), start + |RunAt(radix, s, start)| == |s|)
    ensures !separatorSeen && pos > start && pos + 1 < |s| ==> Reading(radix, s, start, pos + 1, value, true)
  {
    ReadingRun(radix, s, start, pos, value, separatorSeen);
    var run := RunAt(radix, s, start);
    assert run[pos - start] == s[pos];
    if separatorSeen {
      assert run[pos - start - 1] == s[pos - 1];
    }
    assert s[start..pos + 1][..pos - start] == s[start..pos];
    hide RunEnd, RunAt, NoDoubleSeparator, IsDigit;
    assert pos + 1 < |s| ==> Value(radix, s[start..pos + 1]) == Value(radix, s[start..pos]);
  }

  /** Any other character ends the run: well, if something was read, badly if not. */
  lemma AtEnd(radix: nat, s: Text, start: nat, pos: nat, value: nat, separatorSeen: bool)
    requires KnownRadix(radix) && Reading(radix, s, start, pos, value, separatorSeen)
    requires pos == |s| || !InRun(radix, s[pos])
    ensures pos == start ==> !ProperRun(RunAt(radix, s, start), start + |RunAt(radix, s, start)| == |s|)
    ensures pos > start && (pos == |s| ==> !separatorSeen) ==>
              && IsUnsignedAt(radix, s, start) && RunEnd(radix, s, start) == pos
              && value == Value(radix, RunAt(radix, s, start))
  {
    ReadingRun(radix, s, start, pos, value, separatorSeen);
    var run := RunAt(radix, s, start);
    assert pos > start ==> run[pos - 1 - start] == s[pos - 1] && run[0] == s[start];
    assert NoDoubleSeparator(run) by {
      forall i | 1 <= i < |run|
        ensures !(IsSeparator(run[i - 1]) && IsSeparator(run[i]))
      {
        assert run[i - 1] == s[start + i - 1] && run[i] == s[start + i];
      }
    }
  }

  /** A digit leads on, unless the value gets too large; then the run's value is too large. */
  lemma AtDigit(radix: nat, s: Text, start: nat, pos: nat, value: nat, separatorSeen: bool)
    requires KnownRadix(radix) && Reading(radix, s, start, pos, value, separatorSeen)
    requires pos < |s| && IsDigit(radix, s[pos]) && !IsSeparator(s[pos])
    ensures var next := Scale(radix, value) + DigitValue(radix, s[pos]);
            if next <= UNSIGNED_MAX then Reading(radix, s, start, pos + 1, next, false)
            else Value(radix, RunAt(radix, s, start)) > UNSIGNED_MAX
  {
    ReadingRun(radix, s, start, pos, value, separatorSeen);
    var run := RunAt(radix, s, start);
    assert s[start..pos + 1][..pos - start] == s[start..pos];
    var next := Scale(radix, value) + DigitValue(radix, s[pos]);
    hide RunEnd, DigitValue, Scale, NoDoubleSeparator, IsDigit;
    assert Value(radix, s[start..pos + 1]) == next;
    if next > UNSIGNED_MAX {
      ValueGrows(radix, run, pos + 1 - start);
      assert run[..pos + 1 - start] == s[start..pos + 1];
    }
  }

  lemma UnsignedMeans(radix: nat, s: Text, start: nat)
    requires KnownRadix(radix) && start <= |s|
    ensures IsUnsignedAt(radix, s, start) ==>
              && ProperRun(RunAt(radix, s, start), start + |RunAt(radix, s, start)| == |s|)
              && Value(radix, RunAt(radix, s, start)) <= UNSIGNED_MAX
    ensures forall c :: InRun(radix, c) <==> IsSeparator(c) || IsDigit(radix, c)
    ensures forall c :: IsDigit(radix, c) ==> !IsSeparator(c)
  {
  }

  /**
   Reads an unsigned number. It succeeds exactly when the run of digits and separators is
   proper and its value fits in 64 bits; the result is that value and the first position after the run.
   */
  method ParseUnsigned(s: Text, start: nat, radix: nat) returns (r: Result<nat>, end: nat)
    requires KnownRadix(radix) && start <= |s|
    ensures r.Ok? <==> IsUnsignedAt(radix, s, start)
    ensures r.Ok? ==> r.value == Value(radix, RunAt(radix, s, start)) && end == RunEnd(radix, s, start)
    ensures r == Err(NumericOverflow) ==> Value(radix, RunAt(radix, s, start)) > UNSIGNED_MAX
    ensures r == Err(BadNumber) ==>
              !ProperRun(RunAt(radix, s, start), start + |RunAt(radix, s, start)| == |s|)
    ensures r != Err(BadTimestamp)
  {
    hide *;
    var digitSeen, separatorSeen, value, pos := false, false, 0, start;
    UnsignedMeans(radix, s, start);
    ReadingStarts(radix, s, start);
    while true
      invariant start <= pos <= |s| && Reading(radix, s, start, pos, value, separatorSeen)
      invariant (digitSeen <==> pos > start) && (pos == |s| ==> pos == start) && value <= UNSIGNED_MAX
      decreases |s| - pos
    {
      var c := CharAt(s, pos);
      CharOrEnd(radix, s, pos);
      if IsSeparator(c) {
        AtSeparator(radix, s, start, pos, value, separatorSeen);
        if separatorSeen || !digitSeen {
          return Err(BadNumber), pos;
        }
        separatorSeen := true;
        pos := pos + 1;
        if pos >= |s| {
          return Err(BadNumber), pos;
        }
        continue;
      }
      if !IsDigit(radix, c) {
        AtEnd(radix, s, start, pos, value, separatorSeen);
        if !digitSeen {
          return Err(BadNumber), pos;
        }
        return Ok(value), pos;
      }
      AtDigit(radix, s, start, pos, value, separatorSeen);
      separatorSeen := false;
      var d := DigitValue(radix, c);
      OverflowTests(radix, value, d);
      if value > UNSIGNED_MAX / radix {
        return Err(NumericOverflow), pos;
      }
      var newValue := U64(Scale(radix, value) + d);
      if newValue < value {
        return Err(NumericOverflow), pos;
      }
      value := newValue;
      pos := pos + 1;
      if pos >= |s| {
        AtEnd(radix, s, start, pos, value, separatorSeen);
        return Ok(value), pos;
      }
      digitSeen := true;
    }
  }

  lemma CharOrEnd(radix: nat, s: Text, pos: nat)
    requires KnownRadix(radix)
    ensures pos < |s| ==> CharAt(s, pos) == s[pos]
    ensures pos >= |s| ==> !IsSeparator(CharAt(s, pos)) && !IsDigit(radix, CharAt(s, pos))
    ensures radix > 0
  {
  }

  // ----- numbers -----

  datatype Number = Signed(n: int) | Unsigned(u: nat) | Float(from: nat, to: nat, negative: bool)

  /** What counts as white space, and which characters may end a number. */
  datatype Classes = Classes(isSpace: nat -> bool, terminates: nat -> bool)

  method SkipDigits(s: Text, p: nat) returns (q: nat)
    requires p <= |s|
    ensures q == DigitsEnd(s, p)
  {
    q := p;
    while q < |s| && IsDigit(10, s[q])
      invariant p <= q <= |s| && DigitsEnd(s, q) == DigitsEnd(s, p)
    {
      q := q + 1;
    }
  }

  /** Where the digits start and what their radix is, given a possible 0b, 0o or 0x. */
  function RadixAt(s: Text, p: nat): (r: (nat, nat))
    ensures KnownRadix(r.1)
  {
    if CharAt(s, p) != '0' as nat then (p, 10)
    else
      var c := CharAt(s, p + 1);
      if c == 'b' as nat || c == 'B' as nat then (p + 2, 2)
      else if c == 'o' as nat || c == 'O' as nat then (p + 2, 8)
      else if c == 'x' as nat || c == 'X' as nat then (p + 2, 16)
      else (p, 10)
  }

  /** The integer a magnitude and a sign make; a negative one has to be above -2^63. */
  function MakeInteger(magnitude: nat, negative: bool): Result<Number> {
    if magnitude > SIGNED_MAX then
      if negative then Err(NumericOverflow) else Ok(Unsigned(magnitude))
    else if negative then Ok(Signed(-(magnitude as int)))
    else Ok(Signed(magnitude))
  }

  /** A proper run of digits of more than 64 bits. */
  ghost predicate TooBigAt(s: Text, start: nat)
    requires start <= |s|
  {
    var (p, radix) := RadixAt(s, start);
    && p < |s| && Value(radix, RunAt(radix, s, p)) > UNSIGNED_MAX
    && ProperRun(RunAt(radix, s, p), p + |RunAt(radix, s, p)| == |s|)
  }

  lemma TooBigIsNone(s: Text, start: nat)
    requires start <= |s|
    ensures TooBigAt(s, start) ==>
              var (p, radix) := RadixAt(s, start); p < |s| && !IsUnsignedAt(radix, s, p)
  {
  }

  /** Text that is an integer followed by nothing or by a character that may end it. */
  ghost predicate IsIntegerAt(s: Text, start: nat, classes: Classes)
    requires start <= |s|
  {
    var (p, radix) := RadixAt(s, start);
    && p < |s| && IsUnsignedAt(radix, s, p)
    && var end := RunEnd(radix, s, p);
       end < |s| ==>
         && s[end] != '.' as nat && s[end] != 'e' as nat && s[end] != 'E' as nat
         && (classes.isSpace(s[end]) || classes.terminates(s[end]))
  }

  /** The end of a point and the digits behind it, if there is one at e. */
  function PointEnd(s: Text, e: nat): (f: nat)
    requires e <= |s|
    ensures e <= f <= |s|
  {
    if e < |s| && s[e] == '.' as nat then DigitsEnd(s, e + 1) else e
  }

  predicate ExponentAt(s: Text, f: nat) {
    f < |s| && (s[f] == 'e' as nat || s[f] == 'E' as nat)
  }

  /** Where the digits of an exponent begin, behind its sign. */
  function ExponentDigits(s: Text, f: nat): (x: nat)
    requires ExponentAt(s, f)
    ensures f < x <= |s|
  {
    if f + 1 < |s| && (s[f + 1] == '-' as nat || s[f + 1] == '+' as nat) then f + 2 else f + 1
  }

  /**
   A point or an exponent or both behind the digits that end at e. What comes next is looked at only when there is no
   exponent; an exponent without digits is let pass at the end of the text.
   */
  predicate FloatTail(s: Text, e: nat, classes: Classes)
    requires e <= |s|
  {
    var f := PointEnd(s, e);
    if ExponentAt(s, f) then f + 1 == |s| || DigitsEnd(s, ExponentDigits(s, f)) > ExponentDigits(s, f)
    else f > e && MayEnd(s, f, classes)
  }

  function TailEnd(s: Text, e: nat): (end: nat)
    requires e <= |s|
  {
    var f := PointEnd(s, e);
    if ExponentAt(s, f) then DigitsEnd(s, ExponentDigits(s, f)) else f
  }

  /** Text of a floating point number. */
  ghost predicate IsFloatAt(s: Text, start: nat, classes: Classes)
    requires start <= |s|
  {
    && RadixAt(s, start).1 == 10 && start < |s| && IsUnsignedAt(10, s, start)
    && FloatTail(s, RunEnd(10, s, start), classes)
  }

  /** What follows the digits that end at e: a fraction and an exponent, if they are decimal, or what may end them. */
  method ReadTail(s: Text, e: nat, decimal: bool, classes: Classes) returns (ok: bool, isFloat: bool, end: nat)
    requires e < |s|
    ensures ok && isFloat <==> decimal && FloatTail(s, e, classes)
    ensures ok && !isFloat <==> s[e] != '.' as nat && !ExponentAt(s, e) && MayEnd(s, e, classes)
    ensures ok ==> end == if isFloat then TailEnd(s, e) else e
  {
    hide IsDigit;
    var p, c := e, CharAt(s, e);
    isFloat := false;
    if c == '.' as nat {
      if !decimal {
        return false, isFloat, p;
      }
      isFloat := true;
      p := SkipDigits(s, p + 1);
      if p >= |s| {
        return true, isFloat, p;
      }
      c := CharAt(s, p);
    }
    if c == 'e' as nat || c == 'E' as nat {
      if !decimal {
        return false, isFloat, p;
      }
      isFloat := true;
      p := p + 1;
      if p >= |s| {
        return true, isFloat, p;
      }
      c := CharAt(s, p);
      if c == '-' as nat || c == '+' as nat {
        p := p + 1;
      }
      var next := SkipDigits(s, p);
      return next > p, isFloat, next;
    }
    return classes.isSpace(c) || classes.terminates(c), isFloat, p;
  }

  /**
   Reads a number without its sign (src/pw_parse.c:119-267): an integer exactly from integer text, a floating point
   number exactly from text of one, which is delimited but not converted.
   */
  method ParseMagnitude(s: Text, start: nat, negative: bool, classes: Classes) returns (r: Result<Number>, end: nat)
    requires start <= |s|
    ensures IsIntegerAt(s, start, classes) ==>
              var (p, radix) := RadixAt(s, start);
              r == MakeInteger(Value(radix, RunAt(radix, s, p)), negative) && (r.Ok? ==> end == RunEnd(radix, s, p))
    ensures r.Ok? && !r.value.Float? ==> IsIntegerAt(s, start, classes)
    ensures r.Ok? && r.value.Float? <==> IsFloatAt(s, start, classes)
    ensures r.Ok? && r.value.Float? ==>
              r.value == Float(start, end, negative) && end == TailEnd(s, RunEnd(10, s, start))
    ensures TooBigAt(s, start) ==> r == Err(NumericOverflow)
  {
    hide Value, RunAt, RunEnd, IsUnsignedAt, KnownRadix, ProperRun, FloatTail, TailEnd;
    TooBigIsNone(s, start);
    var (pos, radix) := RadixAt(s, start);
    if pos >= |s| {
      return Err(BadNumber), pos;
    }
    var base, p := ParseUnsigned(s, pos, radix);
    if base.Err? {
      assert base == Err(base.error) && base.error != BadTimestamp;
      assert TooBigAt(s, start) ==> base.error != BadNumber;
      return Err(base.error), p;
    }
    hide TooBigAt;
    NothingBehind(s, classes);
    if p < |s| {
      var ok, isFloat;
      ok, isFloat, p := ReadTail(s, p, radix == 10, classes);
      if !ok {
        return Err(BadNumber), p;
      }
      if isFloat {
        return Ok(Float(start, p, negative)), p;
      }
    }
    return MakeInteger(base.value, negative), p;
  }

  lemma NothingBehind(s: Text, classes: Classes)
    ensures !FloatTail(s, |s|, classes)
  {
  }

  function SkipSpaces(s: Text, p: nat, isSpace: nat -> bool): (q: nat)
    requires p <= |s|
    ensures p <= q <= |s|
    decreases |s| - p
  {
    if p < |s| && isSpace(s[p]) then SkipSpaces(s, p + 1, isSpace) else p
  }

  /** Where the magnitude starts, and whether a minus stands before it. */
  function SignAt(s: Text, isSpace: nat -> bool): (r: (nat, bool))
    ensures r.0 <= |s|
  {
    var p := SkipSpaces(s, 0, isSpace);
    if CharAt(s, p) == '+' as nat then (p + 1, false)
    else if CharAt(s, p) == '-' as nat then (p + 1, true)
    else (p, false)
  }

  /** Reads a number with leading space and a sign; nothing but space may follow an integer. */
  method ParseNumber(s: Text, isSpace: nat -> bool) returns (r: Result<Number>)
    ensures var (p, negative) := SignAt(s, isSpace);
            var classes := Classes(isSpace, c => false);
            && (IsIntegerAt(s, p, classes) ==>
                  var (q, radix) := RadixAt(s, p); r == MakeInteger(Value(radix, RunAt(radix, s, q)), negative))
            && (r.Ok? && !r.value.Float? ==> IsIntegerAt(s, p, classes))
            && (r.Ok? && r.value.Float? <==> IsFloatAt(s, p, classes))
            && (r.Ok? && r.value.Float? ==> r.value == Float(p, TailEnd(s, RunEnd(10, s, p)), negative))
            && (TooBigAt(s, p) ==> r == Err(NumericOverflow))
  {
    hide IsIntegerAt, RadixAt, Value, RunAt, IsFloatAt, TailEnd, TooBigAt;
    var (p, negative) := SignAt(s, isSpace);
    var classes := Classes(isSpace, c => false);
    var end;
    r, end := ParseMagnitude(s, p, negative, classes);
  }

  // ----- printing -----

  function DigitChar(d: nat): nat {
    if d < 10 then '0' as nat + d else 'a' as nat + (d - 10)
  }

  /** v / radix and v % radix. */
  function Quotient(radix: nat, v: nat): (q: nat)
    requires KnownRadix(radix)
    ensures q <= v && (v >= radix ==> q < v)
  {
    if radix == 2 then v / 2 else if radix == 8 then v / 8 else if radix == 10 then v / 10 else v / 16
  }

  function LastDigit(radix: nat, v: nat): (d: nat)
    requires KnownRadix(radix)
    ensures d < radix && Scale(radix, Quotient(radix, v)) + d == v
  {
    if radix == 2 then v % 2 else if radix == 8 then v % 8 else if radix == 10 then v % 10 else v % 16
  }

  /** The digits of a number, most significant first; what printf writes for it in radix 10. */
  function Digits(radix: nat, v: nat): (s: Text)
    requires KnownRadix(radix)
    ensures s != [] && forall i :: 0 <= i < |s| ==> IsDigit(radix, s[i]) && !IsSeparator(s[i])
    decreases v
  {
    if v < radix then [DigitChar(v)] else Digits(radix, Quotient(radix, v)) + [DigitChar(LastDigit(radix, v))]
  }

  /** Decimal text of an integer, as "%zd" and "%zu" write it. */
  function Decimal(n: int): Text {
    if n < 0 then ['-' as nat] + Digits(10, -n) else Digits(10, n)
  }

  lemma {:induction false} ValueOfDigits(radix: nat, v: nat)
    requires KnownRadix(radix)
    ensures Value(radix, Digits(radix, v)) == v
    decreases v
  {
    if v < radix {
      assert Digits(radix, v)[..0] == [];
      assert Scale(radix, 0) == 0;
    } else {
      ValueOfDigits(radix, Quotient(radix, v));
      assert Digits(radix, v)[..|Digits(radix, v)| - 1] == Digits(radix, Quotient(radix, v));
    }
  }

  /** Zeros lead a decimal number only when it is zero. */
  lemma {:induction false} NoLeadingZero(v: nat)
    ensures Digits(10, v)[0] == '0' as nat <==> v == 0
    decreases v
  {
    if v >= 10 {
      NoLeadingZero(v / 10);
    }
  }

  /** Digits standing at p, with no digit or separator behind them, are the run at p. */
  lemma RunOfDigits(radix: nat, s: Text, p: nat, v: nat)
    requires KnownRadix(radix) && p + |Digits(radix, v)| <= |s| && s[p..p + |Digits(radix, v)|] == Digits(radix, v)
    requires p + |Digits(radix, v)| < |s| ==> !InRun(radix, s[p + |Digits(radix, v)|])
    ensures RunAt(radix, s, p) == Digits(radix, v) && RunEnd(radix, s, p) == p + |Digits(radix, v)|
    ensures Value(radix, RunAt(radix, s, p)) == v
    ensures v <= UNSIGNED_MAX ==> IsUnsignedAt(radix, s, p)
  {
    var d := Digits(radix, v);
    var e := p + |d|;
    assert forall i :: p <= i < e ==> s[i] == d[i - p];
    RunReaches(radix, s, p, e);
    ValueOfDigits(radix, v);
    hide Digits, IsDigit, RunEnd;
    assert RunEnd(radix, s, e) == e by {
      RunEndsHere(radix, s, e);
    }
  }

  lemma RunEndsHere(radix: nat, s: Text, e: nat)
    requires e <= |s| && (e < |s| ==> !InRun(radix, s[e]))
    ensures RunEnd(radix, s, e) == e
  {
  }

  /** Spaces are neither digits nor signs. */
  ghost predicate PlainSpaces(isSpace: nat -> bool) {
    forall c :: isSpace(c) ==> !InRun(10, c) && c != '-' as nat && c != '+' as nat
  }

  /** Where the sign and the digits of a printed integer are found. */
  lemma PrintedSign(n: int, isSpace: nat -> bool)
    requires PlainSpaces(isSpace)
    ensures SignAt(Decimal(n), isSpace) == if n < 0 then (1, true) else (0, false)
  {
    assert IsDigit(10, Decimal(n)[|Decimal(n)| - 1]);
    assert n >= 0 ==> IsDigit(10, Decimal(n)[0]);
  }

  lemma PrintedRadix(n: int)
    ensures var p := if n < 0 then 1 else 0;
            RadixAt(Decimal(n), p) == (p, 10)
  {
    var m: nat := if n < 0 then -n else n;
    var p := if n < 0 then 1 else 0;
    NoLeadingZero(m);
    assert Decimal(n)[p] == Digits(10, m)[0];
    if m == 0 {
      assert Digits(10, 0) == ['0' as nat];
    }
  }

  /** The text printed for an integer is integer text with that magnitude. */
  lemma PrintedIsInteger(n: int, classes: Classes)
    requires -(TWO_64 as int) < n < TWO_64
    ensures var p: nat := if n < 0 then 1 else 0;
            && IsIntegerAt(Decimal(n), p, classes)
            && Value(10, RunAt(10, Decimal(n), p)) == (if n < 0 then -n else n)
  {
    var m: nat := if n < 0 then -n else n;
    var p: nat := if n < 0 then 1 else 0;
    assert Decimal(n)[p..p + |Digits(10, m)|] == Digits(10, m);
    hide Digits, RunEnd, RunAt, Value;
    PrintedRadix(n);
    RunOfDigits(10, Decimal(n), p, m);
  }

  /** Parsing the decimal text of an integer from -2^63 to 2^64 - 1 gives it back, except for -2^63 itself. */
  method PrintThenParse(n: int, isSpace: nat -> bool) returns (r: Result<Number>)
    requires SIGNED_MIN <= n <= UNSIGNED_MAX && PlainSpaces(isSpace)
    ensures n > SIGNED_MIN ==> r == Ok(if n <= SIGNED_MAX then Signed(n) else Unsigned(n))
    ensures n == SIGNED_MIN ==> r == Err(NumericOverflow)
  {
    hide SignAt, IsIntegerAt, RadixAt, Value, RunAt, Decimal;
    PrintedSign(n, isSpace);
    PrintedRadix(n);
    PrintedIsInteger(n, Classes(isSpace, c => false));
    r := ParseNumber(Decimal(n), isSpace);
  }

  // ----- timestamps -----

  function Pow10(k: nat): nat {
    if k == 0 then 1 else 10 * Pow10(k - 1)
  }

  /** The end of the ASCII digits at p. */
  function DigitsEnd(s: Text, p: nat): (e: nat)
    requires p <= |s|
    ensures p <= e <= |s| && (forall i :: p <= i < e ==> IsDigit(10, s[i])) && (e < |s| ==> !IsDigit(10, s[e]))
    decreases |s| - p
  {
    if p < |s| && IsDigit(10, s[p]) then DigitsEnd(s, p + 1) else p
  }

  lemma {:induction false} DigitsReach(s: Text, p: nat, q: nat)
    requires p <= q <= |s| && forall i :: p <= i < q ==> IsDigit(10, s[i])
    ensures DigitsEnd(s, p) == DigitsEnd(s, q)
    decreases q - p
  {
    if p < q {
      DigitsReach(s, p + 1, q);
    }
  }

  /** k digits make a value below 10^k. */
  lemma {:induction false} ValueBelow(run: Text)
    requires forall i :: 0 <= i < |run| ==> IsDigit(10, run[i])
    ensures Value(10, run) < Pow10(|run|)
    decreases |run|
  {
    if run != [] {
      ValueBelow(run[..|run| - 1]);
    }
  }

  /** Fraction digits scaled to nanoseconds. */
  function Nanoseconds(run: Text): (v: nat)
    requires |run| <= 9
  {
    Value(10, run) * Pow10(9 - |run|)
  }

  /** Reads up to nine fraction digits; a tenth one is an error. */
  method ParseFraction(s: Text, start: nat) returns (ok: bool, pos: nat, nanoseconds: nat)
    requires start <= |s|
    ensures ok <==> DigitsEnd(s, start) - start <= 9
    ensures ok ==> pos == DigitsEnd(s, start) && nanoseconds == Nanoseconds(s[start..pos])
    ensures start <= pos <= |s|
  {
    hide Value, Pow10;
    pos := start;
    var value, i := 0, 0;
    FractionStart(s, start);
    while pos < |s|
      invariant start <= pos <= |s| && i == pos - start <= 9
      invariant forall j :: start <= j < pos ==> IsDigit(10, s[j])
      invariant value == Value(10, s[start..pos]) < TWO_32
    {
      DigitsReach(s, start, pos);
      var c := CharAt(s, pos);
      if !IsDigit(10, c) {
        break;
      }
      if i == 9 {
        assert DigitsEnd(s, start) > pos;
        return false, pos, 0;
      }
      FractionStep(s, start, pos);
      value := U32(U32(value * 10) + (c - '0' as nat));
      i, pos := i + 1, pos + 1;
    }
    DigitsReach(s, start, pos);
    ok, nanoseconds := true, value * Pow10(9 - i);
  }

  lemma FractionStart(s: Text, start: nat)
    requires start <= |s|
    ensures Value(10, s[start..start]) == 0
  {
  }

  lemma FractionStep(s: Text, start: nat, pos: nat)
    requires start <= pos < |s| && pos - start < 9 && forall j :: start <= j <= pos ==> IsDigit(10, s[j])
    ensures Value(10, s[start..pos + 1]) == Value(10, s[start..pos]) * 10 + (s[pos] - '0' as nat) < 1_000_000_000
  {
    var run := s[start..pos + 1];
    assert run[..|run| - 1] == s[start..pos];
    ValueBelow(run);
    Pow10Monotone(|run|, 9);
    assert Pow10(9) == 1_000_000_000;
  }

  lemma {:induction false} Pow10Monotone(a: nat, b: nat)
    requires a <= b
    ensures Pow10(a) <= Pow10(b)
    decreases b - a
  {
    if a < b {
      Pow10Monotone(a + 1, b);
    }
  }

  predicate MayEnd(s: Text, p: nat, classes: Classes) {
    p < |s| ==> classes.isSpace(s[p]) || classes.terminates(s[p])
  }

  /** Where the fraction digits after the seconds are: after a point, or nowhere. */
  function FractionAt(s: Text, e: nat): (f: (nat, nat))
    requires e <= |s|
    ensures e <= f.0 <= f.1 <= |s|
  {
    if e < |s| && s[e] == '.' as nat then (e + 1, DigitsEnd(s, e + 1)) else (e, e)
  }

  ghost predicate IsTimestampAt(s: Text, start: nat, classes: Classes)
    requires start <= |s|
  {
    && IsUnsignedAt(10, s, start)
    && var (from, to) := FractionAt(s, RunEnd(10, s, start));
       to - from <= 9 && MayEnd(s, to, classes)
  }

  /** Seconds, and up to nine digits of fraction after a point. */
  method ParseTimestamp(s: Text, start: nat, classes: Classes) returns (r: Result<(nat, nat)>, end: nat)
    requires start <= |s|
    ensures r.Ok? <==> IsTimestampAt(s, start, classes)
    ensures r.Ok? ==>
              var (from, to) := FractionAt(s, RunEnd(10, s, start));
              to - from <= 9 && r.value == (Value(10, RunAt(10, s, start)), Nanoseconds(s[from..to])) && end == to
  {
    hide Value, RunAt, RunEnd, IsUnsignedAt, DigitsEnd, IsDigit, IsSeparator, Nanoseconds, KnownRadix;
    TenIsRadix();
    var seconds, pos := ParseUnsigned(s, start, 10);
    if seconds.Err? {
      return Err(seconds.error), pos;
    }
    NoFraction(s, pos);
    if pos >= |s| {
      return Ok((seconds.value, 0)), pos;
    }
    var nanoseconds := 0;
    if CharAt(s, pos) == '.' as nat {
      var ok;
      ok, pos, nanoseconds := ParseFraction(s, pos + 1);
      if !ok {
        return Err(BadTimestamp), pos;
      }
    }
    if pos >= |s| {
      return Ok((seconds.value, nanoseconds)), pos;
    }
    var c := CharAt(s, pos);
    if !(classes.isSpace(c) || classes.terminates(c)) {
      return Err(BadTimestamp), pos;
    }
    return Ok((seconds.value, nanoseconds)), pos;
  }

  lemma TenIsRadix()
    ensures KnownRadix(10)
  {
  }

  lemma NoFraction(s: Text, p: nat)
    requires p <= |s|
    ensures Nanoseconds(s[p..p]) == 0
  {
    FractionStart(s, p);
  }

  function Zeros(k: int): (s: Text)
    ensures |s| == if k < 0 then 0 else k
    ensures forall i :: 0 <= i < |s| ==> s[i] == '0' as nat
    decreases k
  {
    if k <= 0 then [] else ['0' as nat] + Zeros(k - 1)
  }

  /** "%09u" */
  function Padded9(v: nat): Text {
    Zeros(9 - |Digits(10, v)|) + Digits(10, v)
  }

  /** timestamp_to_string */
  function TimestampText(seconds: nat, nanoseconds: nat): Text {
    Digits(10, seconds) + ['.' as nat] + Padded9(nanoseconds)
  }

  lemma {:induction false} ValueAfterZeros(k: nat, run: Text)
    ensures Value(10, Zeros(k) + run) == Value(10, run)
    decreases k, |run|
  {
    if run == [] {
      assert Zeros(k) + run == Zeros(k);
      if k > 0 {
        assert Zeros(k)[..k - 1] == Zeros(k - 1) + [];
        ValueAfterZeros(k - 1, []);
      }
    } else {
      var z := Zeros(k);
      assert (z + run)[..|z + run| - 1] == z + run[..|run| - 1];
      ValueAfterZeros(k, run[..|run| - 1]);
    }
  }

  /** A number below 10^k has at most k digits. */
  lemma {:induction false} DigitCount(v: nat, k: nat)
    requires k >= 1
    ensures |Digits(10, v)| <= k <==> v < Pow10(k)
    decreases k
  {
    if v >= 10 {
      if k == 1 {
        assert |Digits(10, v)| >= 2;
      } else {
        DigitCount(v / 10, k - 1);
      }
    } else {
      Pow10Monotone(1, k);
    }
  }

  /** Parsing the text of a timestamp gives it back exactly when it has fewer than 10^9 nanoseconds. */
  method TimestampRoundTrip(seconds: nat, nanoseconds: nat, classes: Classes) returns (r: Result<(nat, nat)>)
    requires seconds <= UNSIGNED_MAX && nanoseconds < TWO_32
    ensures r == Ok((seconds, nanoseconds)) <==> nanoseconds < 1_000_000_000
    ensures nanoseconds >= 1_000_000_000 ==> r.Err?
  {
    hide *;
    var s := TimestampText(seconds, nanoseconds);
    TimestampParts(seconds, nanoseconds, classes);
    var end;
    r, end := ParseTimestamp(s, 0, classes);
  }

  lemma TimestampParts(seconds: nat, nanoseconds: nat, classes: Classes)
    requires seconds <= UNSIGNED_MAX
    ensures var s := TimestampText(seconds, nanoseconds);
            && (IsTimestampAt(s, 0, classes) <==> nanoseconds < 1_000_000_000)
            && Value(10, RunAt(10, s, 0)) == seconds
            && var (from, to) := FractionAt(s, RunEnd(10, s, 0));
               to - from <= 9 ==> Nanoseconds(s[from..to]) == nanoseconds
  {
    hide Digits, RunEnd, RunAt, Value, IsUnsignedAt, IsDigit, DigitsEnd, Padded9, Nanoseconds;
    var s := TimestampText(seconds, nanoseconds);
    var e := |Digits(10, seconds)|;
    TimestampCut(seconds, nanoseconds);
    RunOfDigits(10, s, 0, seconds);
    DigitsReach(s, e + 1, |s|);
    DigitsEndAtEnd(s);
    DigitCount(nanoseconds, 9);
    assert Pow10(9) == 1_000_000_000;
    PaddedValue(nanoseconds);
  }

  lemma TimestampCut(seconds: nat, nanoseconds: nat)
    ensures var s, e := TimestampText(seconds, nanoseconds), |Digits(10, seconds)|;
            && e < |s| && s[0..0 + e] == Digits(10, seconds) && s[e] == '.' as nat && !InRun(10, s[e])
            && s[e + 1..|s|] == Padded9(nanoseconds)
            && forall i :: e + 1 <= i < |s| ==> IsDigit(10, s[i])
  {
    hide Digits;
    var s, e, f := TimestampText(seconds, nanoseconds), |Digits(10, seconds)|, Padded9(nanoseconds);
    assert forall i :: 0 <= i < |f| ==> IsDigit(10, f[i]);
    assert forall i :: e + 1 <= i < |s| ==> s[i] == f[i - e - 1];
  }

  lemma DigitsEndAtEnd(s: Text)
    ensures DigitsEnd(s, |s|) == |s|
  {
  }

  lemma PaddedValue(v: nat)
    ensures |Padded9(v)| >= 9 && (|Padded9(v)| <= 9 <==> |Digits(10, v)| <= 9)
    ensures |Padded9(v)| == 9 ==> Nanoseconds(Padded9(v)) == v
  {
    var k := 9 - |Digits(10, v)|;
    if k > 0 {
      ValueAfterZeros(k, Digits(10, v));
    } else {
      assert Zeros(k) + Digits(10, v) == Digits(10, v);
    }
    ValueOfDigits(10, v);
    assert Pow10(0) == 1;
  }
}

/** Values and their JSON text (src/pw_to_json.c), and what removing whitespace makes of it. */
module JsonText {
  import opened Parsing

  datatype Json =
    | JNull
    | JBool(b: bool)
    | JInt(n: int)
    | JString(s: Text)
    | JArray(items: seq<Json>)
    | JMap(pairs: seq<Pair>)
    | JOther

  datatype Pair = Pair(key: Text, value: Json)

  /** Text constants. */
  function Chars(s: string): (t: Text)
    ensures |t| == |s| && forall i :: 0 <= i < |s| ==> t[i] == s[i] as nat
  {
    seq(|s|, i requires 0 <= i < |s| => s[i] as nat)
  }

  const QUOTE: nat := 34
  const BACKSLASH: nat := 92
  const COMMA: nat := 44
  const COLON: nat := 58

  /** How one character appears between the quotes. */
  function Escaped(c: nat): (t: Text)
    ensures t != []
  {
    if c == QUOTE || c == BACKSLASH then [BACKSLASH, c]
    else if c >= 32 then [c]
    else if c == 8 then [BACKSLASH, 98]
    else if c == 12 then [BACKSLASH, 102]
    else if c == 10 then [BACKSLASH, 110]
    else if c == 13 then [BACKSLASH, 114]
    else if c == 9 then [BACKSLASH, 116]
    else [BACKSLASH, 48, 48, 48 + c / 16, 48 + c % 16]
  }

  function EscapedText(s: Text): Text {
    if s == [] then [] else Escaped(s[0]) + EscapedText(s[1..])
  }

  function Quoted(s: Text): Text {
    [QUOTE] + EscapedText(s) + [QUOTE]
  }

  function Spaces(n: nat): (t: Text)
    ensures |t| == n && forall i :: 0 <= i < n ==> t[i] == 32
  {
    seq(n, _ => 32)
  }

  /** A line break and so many spaces, if things go on lines of their own. */
  function Break(multiline: bool, n: nat): Text {
    if multiline then [10] + Spaces(n) else []
  }

  /** Spaces at the beginning of a line at a depth. */
  function Margin(indent: nat, depth: nat): nat {
    indent * depth
  }

  function Multiline(indent: nat, n: nat): bool {
    indent > 0 && n > 1
  }

  function Deeper(depth: nat, multiline: bool): nat {
    if multiline then depth + 1 else depth
  }

  /** The text of a value at a nesting depth; the outermost value is at depth 1. */
  function Print(v: Json, indent: nat, depth: nat): Text
    requires depth >= 1
    decreases v, 0
  {
    match v
    case JNull => Chars("null")
    case JBool(b) => if b then Chars("true") else Chars("false")
    case JInt(n) => Decimal(n)
    case JString(s) => Quoted(s)
    case JArray(items) =>
      var m := Multiline(indent, |items|);
      [91] + ItemsFrom(items, 0, indent, depth, m) + Break(m, Margin(indent, depth - 1)) + [93]
    case JMap(pairs) =>
      var m := Multiline(indent, |pairs|);
      [123] + PairsFrom(pairs, 0, indent, depth, m) + Break(m, Margin(indent, depth - 1)) + [125]
    case JOther => []
  }

  function Comma(i: nat): Text {
    if i > 0 then [COMMA] else []
  }

  /** Items i and up, each with what comes before it. */
  function ItemsFrom(items: seq<Json>, i: nat, indent: nat, depth: nat, m: bool): Text
    requires depth >= 1 && i <= |items|
    decreases items, |items| - i
  {
    if i == |items| then []
    else
      Comma(i) + Break(m, Margin(indent, depth)) + Print(items[i], indent, Deeper(depth, m))
      + ItemsFrom(items, i + 1, indent, depth, m)
  }

  function KeyEnd(indent: nat): Text {
    if indent > 0 then [COLON, 32] else [COLON]
  }

  function PairsFrom(pairs: seq<Pair>, i: nat, indent: nat, depth: nat, m: bool): Text
    requires depth >= 1 && i <= |pairs|
    decreases pairs, |pairs| - i
  {
    if i == |pairs| then []
    else
      Comma(i) + Break(m, Margin(indent, depth)) + Quoted(pairs[i].key) + KeyEnd(indent)
      + Print(pairs[i].value, indent, Deeper(depth, m)) + PairsFrom(pairs, i + 1, indent, depth, m)
  }

  /** Nothing in the value is of a type that has no JSON text. */
  predicate Printable(v: Json) {
    match v
    case JArray(items) => forall i :: 0 <= i < |items| ==> Printable(items[i])
    case JMap(pairs) => forall i :: 0 <= i < |pairs| ==> Printable(pairs[i].value)
    case JOther => false
    case _ => true
  }

  // ----- whitespace -----

  predicate IsSpace(c: nat) {
    c == 32 || c == 9 || c == 10 || c == 13
  }

  datatype Place = Outside | Inside | AfterBackslash

  function NextPlace(at: Place, c: nat): Place {
    match at
    case Outside => if c == QUOTE then Inside else Outside
    case Inside => if c == QUOTE then Outside else if c == BACKSLASH then AfterBackslash else Inside
    case AfterBackslash => Inside
  }

  function PlaceAfter(t: Text, at: Place): Place {
    if t == [] then at else PlaceAfter(t[1..], NextPlace(at, t[0]))
  }

  /** The text without the whitespace outside strings. */
  function Strip(t: Text, at: Place): Text {
    if t == [] then []
    else (if at.Outside? && IsSpace(t[0]) then [] else [t[0]]) + Strip(t[1..], NextPlace(at, t[0]))
  }

  lemma {:induction false} StripConcat(a: Text, b: Text, at: Place)
    ensures Strip(a + b, at) == Strip(a, at) + Strip(b, PlaceAfter(a, at))
    ensures PlaceAfter(a + b, at) == PlaceAfter(b, PlaceAfter(a, at))
    decreases |a|
  {
    if a == [] {
      assert a + b == b;
    } else {
      assert (a + b)[1..] == a[1..] + b && (a + b)[0] == a[0];
      StripConcat(a[1..], b, NextPlace(at, a[0]));
      hide NextPlace, IsSpace;
      ghost var first: Text := if at.Outside? && IsSpace(a[0]) then [] else [a[0]];
      AssocText(first, Strip(a[1..], NextPlace(at, a[0])), Strip(b, PlaceAfter(a, at)));
    }
  }

  lemma AssocText(a: Text, b: Text, c: Text)
    ensures a + b + c == a + (b + c)
  {
  }

  /** A stretch of plain text outside strings that stripping leaves alone. */
  ghost predicate Plain(t: Text) {
    forall i :: 0 <= i < |t| ==> t[i] != QUOTE && !IsSpace(t[i])
  }

  lemma {:induction false} StripPlain(t: Text)
    requires Plain(t)
    ensures Strip(t, Outside) == t && PlaceAfter(t, Outside) == Outside
    decreases |t|
  {
    if t != [] {
      StripPlain(t[1..]);
      assert t == [t[0]] + t[1..];
    }
  }

  lemma {:induction false} StripSpaces(t: Text)
    requires forall i :: 0 <= i < |t| ==> IsSpace(t[i])
    ensures Strip(t, Outside) == [] && PlaceAfter(t, Outside) == Outside
    decreases |t|
  {
    if t != [] {
      StripSpaces(t[1..]);
    }
  }

  /** Nothing inside a string is removed, and its quotes are recognised. */
  lemma StripQuoted(s: Text)
    ensures Strip(Quoted(s), Outside) == Quoted(s) && PlaceAfter(Quoted(s), Outside) == Outside
  {
    hide Strip, PlaceAfter, EscapedText;
    var e := EscapedText(s);
    StripOne(QUOTE, Outside);
    StripOne(QUOTE, Inside);
    StripEscaped(s);
    StripConcat([QUOTE] + e, [QUOTE], Outside);
    StripConcat([QUOTE], e, Outside);
  }

  lemma StripOne(c: nat, at: Place)
    ensures Strip([c], at) == (if at.Outside? && IsSpace(c) then [] else [c]) && PlaceAfter([c], at) == NextPlace(at, c)
  {
    assert [c][1..] == [];
  }

  lemma {:induction false} StripEscaped(s: Text)
    ensures Strip(EscapedText(s), Inside) == EscapedText(s) && PlaceAfter(EscapedText(s), Inside) == Inside
    decreases |s|
  {
    if s != [] {
      StripEscapedChar(s[0]);
      StripEscaped(s[1..]);
      hide Strip, PlaceAfter, Escaped;
      StripConcat(Escaped(s[0]), EscapedText(s[1..]), Inside);
    }
  }

  lemma StripEscapedChar(c: nat)
    ensures Strip(Escaped(c), Inside) == Escaped(c) && PlaceAfter(Escaped(c), Inside) == Inside
  {
    var e := Escaped(c);
    if |e| == 1 {
      StripOne(c, Inside);
    } else {
      StripPlainInside(e[1..], c);
      assert e == [BACKSLASH] + e[1..];
      StripOne(BACKSLASH, Inside);
      StripConcat([BACKSLASH], e[1..], Inside);
    }
  }

  lemma StripPlainInside(t: Text, c: nat)
    requires |t| == 1 || (|t| == 4 && forall i :: 0 <= i < 4 ==> t[i] != QUOTE && t[i] != BACKSLASH)
    ensures Strip(t, AfterBackslash) == t && PlaceAfter(t, AfterBackslash) == Inside
  {
    StripOne(t[0], AfterBackslash);
    assert t == [t[0]] + t[1..];
    StripConcat([t[0]], t[1..], AfterBackslash);
    StripInside(t[1..]);
  }

  lemma {:induction false} StripInside(t: Text)
    requires forall i :: 0 <= i < |t| ==> t[i] != QUOTE && t[i] != BACKSLASH
    ensures Strip(t, Inside) == t && PlaceAfter(t, Inside) == Inside
    decreases |t|
  {
    if t != [] {
      StripInside(t[1..]);
      assert t == [t[0]] + t[1..];
    }
  }

  lemma StripBreak(m: bool, n: nat)
    ensures Strip(Break(m, n), Outside) == [] && PlaceAfter(Break(m, n), Outside) == Outside
  {
    StripSpaces(Break(m, n));
  }

  lemma StripSmall(indent: nat, i: nat)
    ensures Strip(Comma(i), Outside) == Comma(i) && PlaceAfter(Comma(i), Outside) == Outside
    ensures Strip(KeyEnd(indent), Outside) == KeyEnd(0) && PlaceAfter(KeyEnd(indent), Outside) == Outside
  {
    StripPlain(Comma(i));
    StripOne(COLON, Outside);
    StripOne(32, Outside);
    StripConcat([COLON], [32], Outside);
    assert [COLON] + [32] == [COLON, 32];
  }

  lemma StripDecimal(n: int)
    ensures Strip(Decimal(n), Outside) == Decimal(n) && PlaceAfter(Decimal(n), Outside) == Outside
  {
    StripPlain(Decimal(n));
  }

  /** The whole begins and ends outside strings, so the parts of a text are stripped one by one. */
  lemma StripThree(a: Text, b: Text, c: Text)
    requires PlaceAfter(a, Outside) == PlaceAfter(b, Outside) == Outside
    ensures Strip(a + b + c, Outside) == Strip(a, Outside) + Strip(b, Outside) + Strip(c, Outside)
    ensures PlaceAfter(a + b + c, Outside) == PlaceAfter(c, Outside)
  {
    hide Strip, PlaceAfter;
    StripConcat(a + b, c, Outside);
    StripConcat(a, b, Outside);
  }

  lemma StripParts(a: Text, b: Text, c: Text, d: Text, e: Text, f: Text)
    requires PlaceAfter(a, Outside) == PlaceAfter(b, Outside) == PlaceAfter(c, Outside) == Outside
    requires PlaceAfter(d, Outside) == PlaceAfter(e, Outside) == PlaceAfter(f, Outside) == Outside
    ensures Strip(a + b + c + d + e + f, Outside)
         == Strip(a, Outside) + Strip(b, Outside) + Strip(c, Outside) + Strip(d, Outside) + Strip(e, Outside)
             + Strip(f, Outside)
    ensures PlaceAfter(a + b + c + d + e + f, Outside) == Outside
  {
    hide Strip, PlaceAfter;
    StripThree(a, b, c);
    StripConcat(a + b + c, d, Outside);
    StripConcat(a + b + c + d, e, Outside);
    StripConcat(a + b + c + d + e, f, Outside);
  }

  lemma NoBreak(n: nat)
    ensures Break(false, n) == []
  {
  }

  /** Removing whitespace outside strings from the indented text gives the text without indentation. */
  lemma {:induction false} StripPrint(v: Json, indent: nat, depth: nat, d: nat)
    requires depth >= 1 && d >= 1
    ensures Strip(Print(v, indent, depth), Outside) == Print(v, 0, d) && PlaceAfter(Print(v, indent, depth), Outside)
            == Outside
    decreases v, 0
  {
    match v
    case JNull => StripPlain(Chars("null"));
    case JBool(b) => StripPlain(Chars("true")); StripPlain(Chars("false"));
    case JInt(n) => StripDecimal(n);
    case JString(s) => StripQuoted(s);
    case JArray(items) => StripArray(items, indent, depth, d);
    case JMap(pairs) => StripMap(pairs, indent, depth, d);
    case JOther =>
  }

  lemma {:induction false} StripArray(items: seq<Json>, indent: nat, depth: nat, d: nat)
    requires depth >= 1 && d >= 1
    ensures Strip(Print(JArray(items), indent, depth), Outside) == Print(JArray(items), 0, d)
    ensures PlaceAfter(Print(JArray(items), indent, depth), Outside) == Outside
    decreases items
  {
    var m := Multiline(indent, |items|);
    StripItems(items, 0, indent, depth, m, d);
    hide Strip, PlaceAfter, ItemsFrom, Break;
    var parts, back := ItemsFrom(items, 0, indent, depth, m), Break(m, Margin(indent, depth - 1));
    StripBreak(m, Margin(indent, depth - 1));
    NoBreak(Margin(0, d - 1));
    StripOne(91, Outside);
    StripOne(93, Outside);
    StripThree([91] + parts, back, [93]);
    StripConcat([91], parts, Outside);
    Nothing([91] + ItemsFrom(items, 0, 0, d, false));
  }

  lemma Nothing(t: Text)
    ensures t + [] == t && [] + t == t
  {
  }

  lemma {:induction false} StripItems(items: seq<Json>, i: nat, indent: nat, depth: nat, m: bool, d: nat)
    requires depth >= 1 && d >= 1 && i <= |items|
    ensures Strip(ItemsFrom(items, i, indent, depth, m), Outside) == ItemsFrom(items, i, 0, d, false)
    ensures PlaceAfter(ItemsFrom(items, i, indent, depth, m), Outside) == Outside
    decreases items, |items| - i
  {
    ItemsUnfold(items, i, indent, depth, m);
    ItemsUnfold(items, i, 0, d, false);
    hide *;
    if i < |items| {
      StripPrint(items[i], indent, Deeper(depth, m), d);
      StripItems(items, i + 1, indent, depth, m, d);
      StripSmall(indent, i);
      StripBreak(m, Margin(indent, depth));
      NoBreak(Margin(0, d));
      StripParts(Comma(i), Break(m, Margin(indent, depth)), [], [], Print(items[i], indent, Deeper(depth, m)),
          ItemsFrom(items, i + 1, indent, depth, m));
      StripNone();
      Nothing(Comma(i) + Break(m, Margin(indent, depth)));
      Nothing(Comma(i) + []);
    } else {
      StripNone();
    }
  }

  lemma StripNone()
    ensures Strip([], Outside) == [] && PlaceAfter([], Outside) == Outside
  {
  }

  lemma ItemsUnfold(items: seq<Json>, i: nat, indent: nat, depth: nat, m: bool)
    requires depth >= 1 && i <= |items|
    ensures ItemsFrom(items, i, indent, depth, m) ==
              if i == |items| then []
              else
                Comma(i) + Break(m, Margin(indent, depth)) + Print(items[i], indent, Deeper(depth, m))
                + ItemsFrom(items, i + 1, indent, depth, m)
    ensures Deeper(depth, false) == depth && Deeper(depth, m) >= 1
  {
  }

  lemma PairsUnfold(pairs: seq<Pair>, i: nat, indent: nat, depth: nat, m: bool)
    requires depth >= 1 && i <= |pairs|
    ensures PairsFrom(pairs, i, indent, depth, m) ==
              if i == |pairs| then []
              else
                Comma(i) + Break(m, Margin(indent, depth)) + Quoted(pairs[i].key) + KeyEnd(indent)
                + Print(pairs[i].value, indent, Deeper(depth, m)) + PairsFrom(pairs, i + 1, indent, depth, m)
    ensures Deeper(depth, false) == depth && Deeper(depth, m) >= 1
  {
  }

  lemma {:induction false} StripMap(pairs: seq<Pair>, indent: nat, depth: nat, d: nat)
    requires depth >= 1 && d >= 1
    ensures Strip(Print(JMap(pairs), indent, depth), Outside) == Print(JMap(pairs), 0, d)
    ensures PlaceAfter(Print(JMap(pairs), indent, depth), Outside) == Outside
    decreases pairs
  {
    var m := Multiline(indent, |pairs|);
    StripPairs(pairs, 0, indent, depth, m, d);
    hide Strip, PlaceAfter, PairsFrom, Break;
    var parts, back := PairsFrom(pairs, 0, indent, depth, m), Break(m, Margin(indent, depth - 1));
    StripBreak(m, Margin(indent, depth - 1));
    NoBreak(Margin(0, d - 1));
    StripOne(123, Outside);
    StripOne(125, Outside);
    StripThree([123] + parts, back, [125]);
    StripConcat([123], parts, Outside);
    Nothing([123] + PairsFrom(pairs, 0, 0, d, false));
  }

  lemma {:induction false} StripPairs(pairs: seq<Pair>, i: nat, indent: nat, depth: nat, m: bool, d: nat)
    requires depth >= 1 && d >= 1 && i <= |pairs|
    ensures Strip(PairsFrom(pairs, i, indent, depth, m), Outside) == PairsFrom(pairs, i, 0, d, false)
    ensures PlaceAfter(PairsFrom(pairs, i, indent, depth, m), Outside) == Outside
    decreases pairs, |pairs| - i
  {
    PairsUnfold(pairs, i, indent, depth, m);
    PairsUnfold(pairs, i, 0, d, false);
    hide *;
    if i < |pairs| {
      StripPrint(pairs[i].value, indent, Deeper(depth, m), d);
      StripPairs(pairs, i + 1, indent, depth, m, d);
      StripSmall(indent, i);
      StripBreak(m, Margin(indent, depth));
      StripQuoted(pairs[i].key);
      NoBreak(Margin(0, d));
      StripParts(Comma(i), Break(m, Margin(indent, depth)), Quoted(pairs[i].key), KeyEnd(indent),
                 Print(pairs[i].value, indent, Deeper(depth, m)), PairsFrom(pairs, i + 1, indent, depth, m));
    } else {
      StripNone();
    }
  }
}

/**
 A reader of JSON text, written from RFC 8259 (sections 2 to 7) and not from the printer, and what it makes of printed
 values. It reads the printer's own escapes only when asked to. Numbers with a fraction or an exponent are not read, and
 \u gives a code unit.
 */
module JsonReader {
  import opened Parsing
  import opened JsonText

  /**
   JSON, or JSON with the printer's own escape for control characters: a backslash, two zeros and the two halves of the
   character, each added to '0'.
   */
  datatype Grammar = Rfc8259 | Extended

  datatype Read<T> = Got(value: T, rest: Text) | Bad

  function SkipSpace(s: Text): (r: Text)
    ensures |r| <= |s| && (r == [] || !IsSpace(r[0]))
    decreases |s|
  {
    if s != [] && IsSpace(s[0]) then SkipSpace(s[1..]) else s
  }

  predicate StartsWith(s: Text, c: nat) {
    s != [] && s[0] == c
  }

  predicate IsHex4(s: Text) {
    |s| >= 4 && forall i :: 0 <= i < 4 ==> IsDigit(16, s[i])
  }

  /** The character of a two-character escape. */
  function SimpleEscape(c: nat): (r: Read<nat>) {
    if c == QUOTE || c == BACKSLASH || c == 47 then Got(c, [])
    else if c == 98 then Got(8, [])
    else if c == 102 then Got(12, [])
    else if c == 110 then Got(10, [])
    else if c == 114 then Got(13, [])
    else if c == 116 then Got(9, [])
    else Bad
  }

  predicate IsOwnEscape(s: Text) {
    |s| >= 5 && s[0] == BACKSLASH && s[1] == 48 && s[2] == 48 && 48 <= s[3] <= 49 && 48 <= s[4] <= 63
  }

  /** One character of a string, escaped or not. */
  function ReadChar(g: Grammar, s: Text): (r: Read<nat>)
    ensures r.Got? ==> |r.rest| < |s|
  {
    if s == [] || s[0] < 32 || s[0] == QUOTE then Bad
    else if s[0] != BACKSLASH then Got(s[0], s[1..])
    else if |s| == 1 then Bad
    else if s[1] == 117 then if IsHex4(s[2..]) then Got(Value(16, s[2..6]), s[6..]) else Bad
    else if g.Extended? && IsOwnEscape(s) then Got(16 * (s[3] - 48) + (s[4] - 48), s[5..])
    else match SimpleEscape(s[1]) case Bad => Bad case Got(c, _) => Got(c, s[2..])
  }

  /** The characters of a string and its closing quote. */
  function ReadChars(g: Grammar, s: Text): (r: Read<Text>)
    ensures r.Got? ==> |r.rest| < |s|
    decreases |s|
  {
    if StartsWith(s, QUOTE) then Got([], s[1..])
    else
      match ReadChar(g, s)
      case Bad => Bad
      case Got(c, t) => match ReadChars(g, t) case Bad => Bad case Got(cs, u) => Got([c] + cs, u)
  }

  function ReadInt(s: Text): (r: Read<Json>)
    ensures r.Got? ==> |r.rest| < |s|
  {
    var p := if StartsWith(s, '-' as nat) then 1 else 0;
    var e := DigitsEnd(s, p);
    if e == p || (s[p] == '0' as nat && e > p + 1)
        || (e < |s| && (s[e] == '.' as nat || s[e] == 'e' as nat || s[e] == 'E' as nat)) then Bad
    else
      var v: int := Value(10, s[p..e]);
      Got(JInt(if p == 1 then -v else v), s[e..])
  }

  function ReadValue(g: Grammar, s: Text): (r: Read<Json>)
    ensures r.Got? ==> |r.rest| < |s|
    decreases |s|, 1
  {
    ReadToken(g, SkipSpace(s))
  }

  /** A value that begins here. */
  function ReadToken(g: Grammar, t: Text): (r: Read<Json>)
    ensures r.Got? ==> |r.rest| < |t|
    decreases |t|, 0
  {
    if Chars("null") <= t then Got(JNull, t[4..])
    else if Chars("true") <= t then Got(JBool(true), t[4..])
    else if Chars("false") <= t then Got(JBool(false), t[5..])
    else if StartsWith(t, QUOTE) then
      match ReadChars(g, t[1..]) case Bad => Bad case Got(s, u) => Got(JString(s), u)
    else if StartsWith(t, 91) then
      var u := SkipSpace(t[1..]);
      if StartsWith(u, 93) then Got(JArray([]), u[1..])
      else match ReadItems(g, u) case Bad => Bad case Got(items, w) => Got(JArray(items), w)
    else if StartsWith(t, 123) then
      var u := SkipSpace(t[1..]);
      if StartsWith(u, 125) then Got(JMap([]), u[1..])
      else match ReadPairs(g, u) case Bad => Bad case Got(pairs, w) => Got(JMap(pairs), w)
    else ReadInt(t)
  }

  /** Items separated by commas, and the closing bracket. */
  function ReadItems(g: Grammar, s: Text): (r: Read<seq<Json>>)
    ensures r.Got? ==> |r.rest| < |s|
    decreases |s|, 2
  {
    match ReadValue(g, s)
    case Bad => Bad
    case Got(v, t) =>
      var u := SkipSpace(t);
      if StartsWith(u, 93) then Got([v], u[1..])
      else if StartsWith(u, COMMA) then match ReadItems(g, u[1..]) case Bad => Bad case Got(vs, w) => Got([v] + vs, w)
      else Bad
  }

  /** A key, a colon and a value. */
  function ReadPair(g: Grammar, s: Text): (r: Read<Pair>)
    ensures r.Got? ==> |r.rest| < |s|
    decreases |s|, 2
  {
    var t := SkipSpace(s);
    if !StartsWith(t, QUOTE) then Bad
    else
      match ReadChars(g, t[1..])
      case Bad => Bad
      case Got(k, u) =>
        var w := SkipSpace(u);
        if !StartsWith(w, COLON) then Bad
        else match ReadValue(g, w[1..]) case Bad => Bad case Got(v, x) => Got(Pair(k, v), x)
  }

  function ReadPairs(g: Grammar, s: Text): (r: Read<seq<Pair>>)
    ensures r.Got? ==> |r.rest| < |s|
    decreases |s|, 3
  {
    match ReadPair(g, s)
    case Bad => Bad
    case Got(p, t) =>
      var u := SkipSpace(t);
      if StartsWith(u, 125) then Got([p], u[1..])
      else if StartsWith(u, COMMA) then match ReadPairs(g, u[1..]) case Bad => Bad case Got(ps, w) => Got([p] + ps, w)
      else Bad
  }

  /** A whole text: a value and nothing but whitespace after it. */
  function ReadText(g: Grammar, s: Text): Read<Json> {
    match ReadValue(g, s)
    case Bad => Bad
    case Got(v, t) => if SkipSpace(t) == [] then Got(v, []) else Bad
  }

  // ----- what it makes of printed values -----

  /** The grammar has the escapes that the printer makes of the text's control characters. */
  predicate ReadableText(g: Grammar, s: Text) {
    g.Extended? || forall i :: 0 <= i < |s| ==>
        s[i] >= 32 || s[i] == 8 || s[i] == 9 || s[i] == 10 || s[i] == 12 || s[i] == 13
  }

  predicate Readable(g: Grammar, v: Json) {
    match v
    case JString(s) => ReadableText(g, s)
    case JArray(items) => forall i :: 0 <= i < |items| ==> Readable(g, items[i])
    case JMap(pairs) => forall i :: 0 <= i < |pairs| ==> ReadableText(g, pairs[i].key) && Readable(g, pairs[i].value)
    case _ => true
  }

  /** A text after which a number has ended. */
  predicate EndsNumber(s: Text) {
    s == [] || !(IsDigit(10, s[0]) || s[0] == '.' as nat || s[0] == 'e' as nat || s[0] == 'E' as nat)
  }

  lemma {:induction false} SkipSpaces(a: Text, b: Text)
    requires forall i :: 0 <= i < |a| ==> IsSpace(a[i])
    ensures SkipSpace(a + b) == SkipSpace(b)
    decreases |a|
  {
    if a == [] {
      assert a + b == b;
    } else {
      assert (a + b)[1..] == a[1..] + b;
      SkipSpaces(a[1..], b);
    }
  }

  lemma SkipBreak(m: bool, n: nat, b: Text)
    ensures SkipSpace(Break(m, n) + b) == SkipSpace(b)
  {
    SkipSpaces(Break(m, n), b);
  }

  lemma SkipNone(c: nat, t: Text)
    requires !IsSpace(c)
    ensures SkipSpace([c] + t) == [c] + t && ([c] + t)[1..] == t && StartsWith([c] + t, c)
  {
  }

  /** An escaped character is read back, unless it is a control character the printer has no escape for. */
  lemma ReadEscaped(g: Grammar, c: nat, t: Text)
    ensures ReadChar(g, Escaped(c) + t) == if ReadableText(g, [c]) then Got(c, t) else Bad
    ensures !StartsWith(Escaped(c) + t, QUOTE)
  {
    var s := Escaped(c) + t;
    if |Escaped(c)| == 1 {
      assert s[1..] == t;
    } else if |Escaped(c)| == 2 {
      assert s[2..] == t;
    } else {
      assert s[5..] == t && 16 * (c / 16) + c % 16 == c;
    }
    assert ReadableText(g, [c]) <==> g.Extended? || c >= 32 || c == 8 || c == 9 || c == 10 || c == 12 || c == 13 by {
      assert [c][0] == c;
    }
  }

  lemma {:induction false} ReadEscapedText(g: Grammar, s: Text, rest: Text)
    ensures ReadChars(g, EscapedText(s) + [QUOTE] + rest) == if ReadableText(g, s) then Got(s, rest) else Bad
    decreases |s|
  {
    if s == [] {
      assert EscapedText(s) + [QUOTE] + rest == [QUOTE] + rest;
      SkipNone(QUOTE, rest);
    } else {
      var t := EscapedText(s[1..]) + [QUOTE] + rest;
      assert EscapedText(s) + [QUOTE] + rest == Escaped(s[0]) + t;
      ReadEscaped(g, s[0], t);
      ReadEscapedText(g, s[1..], rest);
      ReadableSplit(g, s);
      hide ReadChar, Escaped, ReadableText, EscapedText;
      assert s == [s[0]] + s[1..];
    }
  }

  lemma ReadableSplit(g: Grammar, s: Text)
    requires s != []
    ensures ReadableText(g, s) <==> ReadableText(g, [s[0]]) && ReadableText(g, s[1..])
  {
    if g.Rfc8259? && ReadableText(g, [s[0]]) && ReadableText(g, s[1..]) {
      assert [s[0]][0] == s[0];
      forall i | 0 <= i < |s|
        ensures s[i] >= 32 || s[i] == 8 || s[i] == 9 || s[i] == 10 || s[i] == 12 || s[i] == 13
      {
        assert i > 0 ==> s[1..][i - 1] == s[i];
      }
    }
  }

  // ----- each kind of value -----

  lemma DigitsThenEnd(d: Text, t: Text, p: nat)
    requires p <= |d| && (forall i :: p <= i < |d| ==> IsDigit(10, d[i])) && EndsNumber(t)
    ensures DigitsEnd(d + t, p) == |d|
  {
    DigitsReach(d + t, p, |d|);
  }

  lemma ReadDecimal(n: int, t: Text)
    requires EndsNumber(t)
    ensures ReadInt(Decimal(n) + t) == Got(JInt(n), t)
  {
    var v: nat := if n < 0 then -n else n;
    var d, p := Decimal(n), if n < 0 then 1 else 0;
    var s := d + t;
    NoLeadingZero(v);
    ValueOfDigits(10, v);
    DigitsThenEnd(d, t, p);
    assert s[p..|d|] == Digits(10, v);
    assert s[|d|..] == t;
    OneDigitZero(v);
    hide Digits, Value, DigitsEnd;
    assert s[p] == Digits(10, v)[0];
  }

  lemma OneDigitZero(v: nat)
    ensures v == 0 ==> |Digits(10, v)| == 1
  {
  }

  /** The first character tells the kinds of values apart. */
  lemma FirstOfDecimal(n: int)
    ensures Decimal(n) != [] && (Decimal(n)[0] == '-' as nat || IsDigit(10, Decimal(n)[0]))
  {
  }

  lemma NotAWord(t: Text)
    requires t != [] && t[0] != 'n' as nat && t[0] != 't' as nat && t[0] != 'f' as nat
    ensures !(Chars("null") <= t) && !(Chars("true") <= t) && !(Chars("false") <= t)
  {
    assert Chars("null")[0] == 'n' as nat && Chars("true")[0] == 't' as nat && Chars("false")[0] == 'f' as nat;
  }

  lemma ReadIntToken(g: Grammar, n: int, t: Text)
    requires EndsNumber(t)
    ensures ReadToken(g, Decimal(n) + t) == Got(JInt(n), t)
  {
    FirstOfDecimal(n);
    NotAWord(Decimal(n) + t);
    ReadDecimal(n, t);
    hide Decimal, ReadInt;
  }

  lemma ReadWord(g: Grammar, b: bool, t: Text)
    ensures ReadToken(g, Chars("null") + t) == Got(JNull, t)
    ensures ReadToken(g, (if b then Chars("true") else Chars("false")) + t) == Got(JBool(b), t)
  {
    var w := if b then Chars("true") else Chars("false");
    assert (Chars("null") + t)[4..] == t;
    assert (w + t)[|w|..] == t;
    assert Chars("null")[0] == 'n' as nat && Chars("true")[0] == 't' as nat && Chars("false")[0] == 'f' as nat;
    assert w <= w + t;
    assert b ==> !(Chars("null") <= w + t);
    assert !b ==> !(Chars("null") <= w + t) && !(Chars("true") <= w + t);
  }

  lemma ReadQuotedToken(g: Grammar, s: Text, t: Text)
    ensures ReadToken(g, Quoted(s) + t) == if ReadableText(g, s) then Got(JString(s), t) else Bad
    ensures Quoted(s) + t == [QUOTE] + (EscapedText(s) + [QUOTE] + t)
  {
    var u := EscapedText(s) + [QUOTE] + t;
    assert Quoted(s) + t == [QUOTE] + u;
    SkipNone(QUOTE, u);
    NotAWord([QUOTE] + u);
    ReadEscapedText(g, s, t);
    hide EscapedText, ReadableText, ReadChars;
  }

  lemma ReadArrayToken(g: Grammar, t: Text)
    ensures var u := SkipSpace(t);
            ReadToken(g, [91] + t) ==
              if StartsWith(u, 93) then Got(JArray([]), u[1..])
              else match ReadItems(g, u) case Bad => Bad case Got(items, w) => Got(JArray(items), w)
  {
    SkipNone(91, t);
    NotAWord([91] + t);
  }

  lemma ReadMapToken(g: Grammar, t: Text)
    ensures var u := SkipSpace(t);
            ReadToken(g, [123] + t) ==
              if StartsWith(u, 125) then Got(JMap([]), u[1..])
              else match ReadPairs(g, u) case Bad => Bad case Got(pairs, w) => Got(JMap(pairs), w)
  {
    SkipNone(123, t);
    NotAWord([123] + t);
  }

  /** A printed value begins with a character that is neither space nor a closing bracket. */
  lemma PrintBegins(v: Json, indent: nat, depth: nat, t: Text)
    requires depth >= 1 && Printable(v)
    ensures var s := Print(v, indent, depth) + t;
            s != [] && !IsSpace(s[0]) && s[0] != 93 && s[0] != 125 && SkipSpace(s) == s
  {
    match v
    case JInt(n) => FirstOfDecimal(n); assert (Decimal(n) + t)[0] == Decimal(n)[0];
    case JNull => assert (Chars("null") + t)[0] == 'n' as nat;
    case JBool(b) => assert (Chars("true") + t)[0] == 't' as nat && (Chars("false") + t)[0] == 'f' as nat;
    case _ =>
  }

  // ----- whole values -----

  ghost predicate ReadableFrom(g: Grammar, items: seq<Json>, i: nat) {
    forall k :: i <= k < |items| ==> Readable(g, items[k])
  }

  /** The text from item i on: its line break, the item, the others and the closing bracket. */
  ghost function FromItem(items: seq<Json>, i: nat, indent: nat, depth: nat, m: bool, tail: Text): Text
    requires depth >= 1 && i < |items|
  {
    Break(m, Margin(indent, depth)) + (Print(items[i], indent, Deeper(depth, m))
        + (ItemsFrom(items, i + 1, indent, depth, m) + tail))
  }

  lemma FromItemStep(items: seq<Json>, i: nat, indent: nat, depth: nat, m: bool, tail: Text)
    requires depth >= 1 && i < |items|
    ensures ItemsFrom(items, i, indent, depth, m) + tail == Comma(i) + FromItem(items, i, indent, depth, m, tail)
  {
    hide Print, Break;
    var a, b, p, r := Comma(i), Break(m, Margin(indent, depth)), Print(items[i], indent, Deeper(depth, m)),
        ItemsFrom(items, i + 1, indent, depth, m);
    assert a + b + p + r + tail == a + (b + (p + (r + tail)));
  }

  lemma ClosingBracket(m: bool, back: nat, close: nat, rest: Text)
    requires close == 93 || close == 125
    ensures var tail := Break(m, back) + ([close] + rest);
            SkipSpace(tail) == [close] + rest && EndsNumber(tail) && [] + tail == tail
  {
    SkipBreak(m, back, [close] + rest);
    SkipNone(close, rest);
  }

  lemma NextAfterComma(i: nat, next: Text)
    requires i > 0
    ensures var y := Comma(i) + next;
            y == [COMMA] + next && SkipSpace(y) == y && EndsNumber(y)
  {
    SkipNone(COMMA, next);
  }

  /** What follows an item: the closing bracket, or a comma and the next item. */
  lemma AfterItem(items: seq<Json>, i: nat, indent: nat, depth: nat, m: bool, back: nat, rest: Text)
    requires depth >= 1 && i < |items|
    ensures var tail := Break(m, back) + ([93] + rest);
            var y := ItemsFrom(items, i + 1, indent, depth, m) + tail;
            && EndsNumber(y)
            && (i + 1 == |items| ==> SkipSpace(y) == [93] + rest)
            && (i + 1 < |items| ==> y == [COMMA] + FromItem(items, i + 1, indent, depth, m, tail) && SkipSpace(y) == y)
  {
    hide *;
    var tail := Break(m, back) + ([93] + rest);
    ClosingBracket(m, back, 93, rest);
    ItemsUnfold(items, i + 1, indent, depth, m);
    if i + 1 < |items| {
      FromItemStep(items, i + 1, indent, depth, m, tail);
      NextAfterComma(i + 1, FromItem(items, i + 1, indent, depth, m, tail));
    }
  }

  /** One step of reading items. */
  lemma ReadItemsStep(g: Grammar, s: Text, v: Json, y: Text)
    requires ReadValue(g, s) == Got(v, y)
    ensures var u := SkipSpace(y);
            ReadItems(g, s) ==
              if StartsWith(u, 93) then Got([v], u[1..])
              else if StartsWith(u, COMMA) then match ReadItems(g, u[1..]) case Bad => Bad
                  case Got(vs, w) => Got([v] + vs, w)
              else Bad
  {
    hide ReadValue;
  }

  lemma ReadItemsBad(g: Grammar, s: Text)
    requires ReadValue(g, s) == Bad
    ensures ReadItems(g, s) == Bad
  {
    hide ReadValue;
  }

  /** Reading a printed value gives the value, exactly when the control characters in its strings have JSON escapes. */
  lemma {:induction false} ReadPrint(g: Grammar, v: Json, indent: nat, depth: nat, rest: Text)
    requires depth >= 1 && Printable(v) && EndsNumber(rest)
    ensures ReadToken(g, Print(v, indent, depth) + rest) == if Readable(g, v) then Got(v, rest) else Bad
    decreases v, 0, 0
  {
    hide ReadToken;
    match v
    case JNull => ReadWord(g, true, rest);
    case JBool(b) => ReadWord(g, b, rest);
    case JInt(n) => ReadIntToken(g, n, rest);
    case JString(s) => ReadQuotedToken(g, s, rest);
    case JArray(items) => ReadPrintedArray(g, items, indent, depth, rest);
    case JMap(pairs) => ReadPrintedMap(g, pairs, indent, depth, rest);
  }

  lemma ReadValueSkips(g: Grammar, a: Text, b: Text)
    requires SkipSpace(a) == SkipSpace(b)
    ensures ReadValue(g, a) == ReadValue(g, b)
  {
    hide ReadToken;
  }

  lemma ReadItemsSkips(g: Grammar, a: Text)
    ensures ReadItems(g, SkipSpace(a)) == ReadItems(g, a)
  {
    SkipTwice(a);
    ReadValueSkips(g, SkipSpace(a), a);
    hide ReadValue, SkipSpace;
    match ReadValue(g, a)
    case Bad => ReadItemsBad(g, a); ReadItemsBad(g, SkipSpace(a));
    case Got(v, y) => ReadItemsStep(g, a, v, y); ReadItemsStep(g, SkipSpace(a), v, y);
  }

  lemma SkipTwice(a: Text)
    ensures SkipSpace(SkipSpace(a)) == SkipSpace(a)
  {
  }

  lemma ItemValue(g: Grammar, items: seq<Json>, i: nat, indent: nat, depth: nat, m: bool, tail: Text)
    requires depth >= 1 && i < |items| && Printable(items[i])
    ensures ReadValue(g, FromItem(items, i, indent, depth, m, tail))
         == ReadToken(g, Print(items[i], indent, Deeper(depth, m)) + (ItemsFrom(items, i + 1, indent, depth, m) + tail))
  {
    var y := ItemsFrom(items, i + 1, indent, depth, m) + tail;
    PrintBegins(items[i], indent, Deeper(depth, m), y);
    SkipBreak(m, Margin(indent, depth), Print(items[i], indent, Deeper(depth, m)) + y);
    hide ReadToken, Print, ItemsFrom, Break;
  }

  lemma ReadableStep(g: Grammar, items: seq<Json>, i: nat)
    requires i < |items|
    ensures ReadableFrom(g, items, i) <==> Readable(g, items[i]) && ReadableFrom(g, items, i + 1)
    ensures items[i..] == [items[i]] + items[i + 1..] && (i + 1 == |items| ==>
            items[i..] == [items[i]] && ReadableFrom(g, items, i + 1))
  {
    hide Readable;
  }

  /** An item and what follows it give the items from there on. */
  lemma ItemsChain(g: Grammar, items: seq<Json>, i: nat, s: Text, y: Text, next: Text, rest: Text)
    requires i < |items|
    requires ReadValue(g, s) == if Readable(g, items[i]) then Got(items[i], y) else Bad
    requires i + 1 == |items| ==> SkipSpace(y) == [93] + rest
    requires i + 1 < |items| ==>
               && y == [COMMA] + next && SkipSpace(y) == y
               && ReadItems(g, next) == if ReadableFrom(g, items, i + 1) then Got(items[i + 1..], rest) else Bad
    ensures ReadItems(g, s) == if ReadableFrom(g, items, i) then Got(items[i..], rest) else Bad
  {
    hide ReadValue, SkipSpace, Readable, ReadableFrom, ReadItems;
    ReadableStep(g, items, i);
    SkipNone(93, rest);
    SkipNone(COMMA, next);
    if Readable(g, items[i]) {
      ReadItemsStep(g, s, items[i], y);
    } else {
      ReadItemsBad(g, s);
    }
  }

  lemma {:induction false} ReadPrintedItems(g: Grammar, items: seq<Json>, i: nat, indent: nat, depth: nat, m: bool,
                                            back: nat, rest: Text)
    requires depth >= 1 && i < |items| && Printable(JArray(items))
    ensures ReadItems(g, FromItem(items, i, indent, depth, m, Break(m, back) + ([93] + rest)))
         == if ReadableFrom(g, items, i) then Got(items[i..], rest) else Bad
    decreases items, |items| - i, 0
  {
    hide ReadToken, ReadValue, Print, Break, ItemsFrom, SkipSpace, Readable, ReadableFrom, ReadItems, FromItem,
         EndsNumber;
    var tail := Break(m, back) + ([93] + rest);
    var y := ItemsFrom(items, i + 1, indent, depth, m) + tail;
    AfterItem(items, i, indent, depth, m, back, rest);
    ReadPrint(g, items[i], indent, Deeper(depth, m), y);
    ItemValue(g, items, i, indent, depth, m, tail);
    var next := [];
    if i + 1 < |items| {
      next := FromItem(items, i + 1, indent, depth, m, tail);
      ReadPrintedItems(g, items, i + 1, indent, depth, m, back, rest);
    }
    ItemsChain(g, items, i, FromItem(items, i, indent, depth, m, tail), y, next, rest);
  }

  /** The text of an array from its opening bracket on. */
  lemma ArrayText(items: seq<Json>, indent: nat, depth: nat, rest: Text)
    requires depth >= 1
    ensures var m, back := Multiline(indent, |items|), Margin(indent, depth - 1);
            var tail := Break(m, back) + ([93] + rest);
            && Print(JArray(items), indent, depth) + rest == [91] + (ItemsFrom(items, 0, indent, depth, m) + tail)
            && (items == [] ==> ItemsFrom(items, 0, indent, depth, m) + tail == [93] + rest)
            && (items != [] ==> ItemsFrom(items, 0, indent, depth, m) + tail == FromItem(items, 0, indent, depth, m,
                tail))
  {
    var m, back := Multiline(indent, |items|), Margin(indent, depth - 1);
    var tail := Break(m, back) + ([93] + rest);
    Brackets(91, ItemsFrom(items, 0, indent, depth, m), Break(m, back), 93, rest);
    if items != [] {
      FromItemStep(items, 0, indent, depth, m, tail);
      hide ItemsFrom, Break, FromItem;
      assert Comma(0) + FromItem(items, 0, indent, depth, m, tail) == FromItem(items, 0, indent, depth, m, tail);
    }
  }

  lemma ReadableArray(g: Grammar, items: seq<Json>)
    ensures Readable(g, JArray(items)) <==> ReadableFrom(g, items, 0)
    ensures Printable(JArray(items)) ==> forall i :: 0 <= i < |items| ==> Printable(items[i])
    ensures items[0..] == items
  {
  }

  lemma {:induction false} ReadPrintedArray(g: Grammar, items: seq<Json>, indent: nat, depth: nat, rest: Text)
    requires depth >= 1 && Printable(JArray(items))
    ensures ReadToken(g, Print(JArray(items), indent, depth) + rest) == if Readable(g, JArray(items))
            then Got(JArray(items), rest) else Bad
    decreases items, |items| + 1, 0
  {
    hide ReadToken, ReadItems, Print, Printable, Readable, ReadableFrom, ItemsFrom, FromItem, Break, SkipSpace;
    var m, back := Multiline(indent, |items|), Margin(indent, depth - 1);
    var tail := Break(m, back) + ([93] + rest);
    var inner := ItemsFrom(items, 0, indent, depth, m) + tail;
    ArrayText(items, indent, depth, rest);
    ReadableArray(g, items);
    ReadArrayToken(g, inner);
    SkipNone(93, rest);
    if items == [] {
      NothingToRead(g, items, []);
    } else {
      FirstItem(items, indent, depth, m, tail);
      ReadItemsSkips(g, inner);
      ReadPrintedItems(g, items, 0, indent, depth, m, back, rest);
    }
  }

  lemma NothingToRead(g: Grammar, items: seq<Json>, pairs: seq<Pair>)
    ensures |items| == 0 ==> Readable(g, JArray(items))
    ensures |pairs| == 0 ==> Readable(g, JMap(pairs))
  {
  }

  lemma FirstItem(items: seq<Json>, indent: nat, depth: nat, m: bool, tail: Text)
    requires depth >= 1 && items != [] && Printable(items[0])
    ensures !StartsWith(SkipSpace(FromItem(items, 0, indent, depth, m, tail)), 93)
  {
    var y := ItemsFrom(items, 1, indent, depth, m) + tail;
    PrintBegins(items[0], indent, Deeper(depth, m), y);
    SkipBreak(m, Margin(indent, depth), Print(items[0], indent, Deeper(depth, m)) + y);
  }

  lemma Brackets(open: nat, parts: Text, back: Text, close: nat, rest: Text)
    ensures [open] + parts + back + [close] + rest == [open] + (parts + (back + ([close] + rest)))
  {
  }

  // ----- the same for maps -----

  ghost predicate ReadablePair(g: Grammar, p: Pair) {
    ReadableText(g, p.key) && Readable(g, p.value)
  }

  ghost predicate ReadablePairs(g: Grammar, pairs: seq<Pair>, i: nat) {
    forall k :: i <= k < |pairs| ==> ReadablePair(g, pairs[k])
  }

  /** The text of a pair and what follows it. */
  ghost function PairThen(p: Pair, indent: nat, depth: nat, y: Text): Text
    requires depth >= 1
  {
    Quoted(p.key) + (KeyEnd(indent) + (Print(p.value, indent, depth) + y))
  }

  ghost function FromPair(pairs: seq<Pair>, i: nat, indent: nat, depth: nat, m: bool, tail: Text): Text
    requires depth >= 1 && i < |pairs|
  {
    Break(m, Margin(indent, depth)) + PairThen(pairs[i], indent, Deeper(depth, m),
        PairsFrom(pairs, i + 1, indent, depth, m) + tail)
  }

  lemma FromPairStep(pairs: seq<Pair>, i: nat, indent: nat, depth: nat, m: bool, tail: Text)
    requires depth >= 1 && i < |pairs|
    ensures PairsFrom(pairs, i, indent, depth, m) + tail == Comma(i) + FromPair(pairs, i, indent, depth, m, tail)
  {
    hide Print, Break, Quoted, KeyEnd;
    var a, b, q, k := Comma(i), Break(m, Margin(indent, depth)), Quoted(pairs[i].key), KeyEnd(indent);
    var p, r := Print(pairs[i].value, indent, Deeper(depth, m)), PairsFrom(pairs, i + 1, indent, depth, m);
    assert a + b + q + k + p + r + tail == a + (b + (q + (k + (p + (r + tail)))));
  }

  lemma AfterPair(pairs: seq<Pair>, i: nat, indent: nat, depth: nat, m: bool, back: nat, rest: Text)
    requires depth >= 1 && i < |pairs|
    ensures var tail := Break(m, back) + ([125] + rest);
            var y := PairsFrom(pairs, i + 1, indent, depth, m) + tail;
            && EndsNumber(y)
            && (i + 1 == |pairs| ==> SkipSpace(y) == [125] + rest)
            && (i + 1 < |pairs| ==> y == [COMMA] + FromPair(pairs, i + 1, indent, depth, m, tail) && SkipSpace(y) == y)
  {
    hide *;
    var tail := Break(m, back) + ([125] + rest);
    ClosingBracket(m, back, 125, rest);
    PairsUnfold(pairs, i + 1, indent, depth, m);
    if i + 1 < |pairs| {
      FromPairStep(pairs, i + 1, indent, depth, m, tail);
      NextAfterComma(i + 1, FromPair(pairs, i + 1, indent, depth, m, tail));
    }
  }

  /** A printed pair is read back when its value is. */
  lemma PairRead(g: Grammar, p: Pair, indent: nat, depth: nat, y: Text)
    requires depth >= 1 && Printable(p.value)
    requires ReadToken(g, Print(p.value, indent, depth) + y) == if Readable(g, p.value) then Got(p.value, y) else Bad
    ensures ReadPair(g, PairThen(p, indent, depth, y)) == if ReadablePair(g, p) then Got(p, y) else Bad
    ensures var s := PairThen(p, indent, depth, y); StartsWith(s, QUOTE) && SkipSpace(s) == s
  {
    var value := Print(p.value, indent, depth) + y;
    var after := KeyEnd(indent) + value;
    var inner := EscapedText(p.key) + [QUOTE] + after;
    ReadQuotedToken(g, p.key, after);
    ReadEscapedText(g, p.key, after);
    SkipNone(QUOTE, inner);
    KeyEnds(indent, value);
    PrintBegins(p.value, indent, depth, y);
    hide Print, KeyEnd, EscapedText, ReadChars, ReadToken, Readable, ReadableText, Quoted, SkipSpace;
    assert ReadValue(g, after[1..]) == ReadToken(g, value);
  }

  lemma KeyEnds(indent: nat, value: Text)
    ensures var after := KeyEnd(indent) + value;
            SkipSpace(after) == after && StartsWith(after, COLON) && SkipSpace(after[1..]) == SkipSpace(value)
  {
    var after := KeyEnd(indent) + value;
    if indent > 0 {
      assert after[1..] == [32] + value;
      SkipSpaces([32], value);
    } else {
      assert after[1..] == value;
    }
  }

  lemma ReadPairsStep(g: Grammar, s: Text, p: Pair, y: Text)
    requires ReadPair(g, s) == Got(p, y)
    ensures var u := SkipSpace(y);
            ReadPairs(g, s) ==
              if StartsWith(u, 125) then Got([p], u[1..])
              else if StartsWith(u, COMMA) then match ReadPairs(g, u[1..]) case Bad => Bad
                  case Got(ps, w) => Got([p] + ps, w)
              else Bad
  {
    hide ReadPair;
  }

  lemma ReadPairsBad(g: Grammar, s: Text)
    requires ReadPair(g, s) == Bad
    ensures ReadPairs(g, s) == Bad
  {
    hide ReadPair;
  }

  lemma ReadPairSkips(g: Grammar, a: Text, b: Text)
    requires SkipSpace(a) == SkipSpace(b)
    ensures ReadPair(g, a) == ReadPair(g, b)
  {
    hide ReadValue, ReadChars, SkipSpace;
  }

  lemma ReadPairsSkips(g: Grammar, a: Text)
    ensures ReadPairs(g, SkipSpace(a)) == ReadPairs(g, a)
  {
    SkipTwice(a);
    ReadPairSkips(g, SkipSpace(a), a);
    hide ReadPair, SkipSpace;
    match ReadPair(g, a)
    case Bad => ReadPairsBad(g, a); ReadPairsBad(g, SkipSpace(a));
    case Got(p, y) => ReadPairsStep(g, a, p, y); ReadPairsStep(g, SkipSpace(a), p, y);
  }

  lemma ReadablePairsStep(g: Grammar, pairs: seq<Pair>, i: nat)
    requires i < |pairs|
    ensures ReadablePairs(g, pairs, i) <==> ReadablePair(g, pairs[i]) && ReadablePairs(g, pairs, i + 1)
    ensures pairs[i..] == [pairs[i]] + pairs[i + 1..] && (i + 1 == |pairs| ==>
            pairs[i..] == [pairs[i]] && ReadablePairs(g, pairs, i + 1))
  {
    hide ReadablePair;
  }

  lemma PairsChain(g: Grammar, pairs: seq<Pair>, i: nat, s: Text, y: Text, next: Text, rest: Text)
    requires i < |pairs|
    requires ReadPair(g, s) == if ReadablePair(g, pairs[i]) then Got(pairs[i], y) else Bad
    requires i + 1 == |pairs| ==> SkipSpace(y) == [125] + rest
    requires i + 1 < |pairs| ==>
               && y == [COMMA] + next && SkipSpace(y) == y
               && ReadPairs(g, next) == if ReadablePairs(g, pairs, i + 1) then Got(pairs[i + 1..], rest) else Bad
    ensures ReadPairs(g, s) == if ReadablePairs(g, pairs, i) then Got(pairs[i..], rest) else Bad
  {
    hide ReadPair, SkipSpace, ReadablePair, ReadablePairs, ReadPairs;
    ReadablePairsStep(g, pairs, i);
    SkipNone(125, rest);
    SkipNone(COMMA, next);
    if ReadablePair(g, pairs[i]) {
      ReadPairsStep(g, s, pairs[i], y);
    } else {
      ReadPairsBad(g, s);
    }
  }

  lemma {:induction false} ReadPrintedPairs(g: Grammar, pairs: seq<Pair>, i: nat, indent: nat, depth: nat, m: bool,
                                            back: nat, rest: Text)
    requires depth >= 1 && i < |pairs| && Printable(JMap(pairs))
    ensures ReadPairs(g, FromPair(pairs, i, indent, depth, m, Break(m, back) + ([125] + rest)))
         == if ReadablePairs(g, pairs, i) then Got(pairs[i..], rest) else Bad
    ensures !StartsWith(SkipSpace(FromPair(pairs, i, indent, depth, m, Break(m, back) + ([125] + rest))), 125)
    decreases pairs, |pairs| - i, 0
  {
    hide ReadToken, ReadValue, Print, Break, PairsFrom, SkipSpace, Readable, ReadableText, ReadablePair, ReadablePairs,
         ReadPair, ReadPairs, PairThen, EndsNumber;
    var tail := Break(m, back) + ([125] + rest);
    var y := PairsFrom(pairs, i + 1, indent, depth, m) + tail;
    var body := PairThen(pairs[i], indent, Deeper(depth, m), y);
    var s := FromPair(pairs, i, indent, depth, m, tail);
    AfterPair(pairs, i, indent, depth, m, back, rest);
    ReadPrint(g, pairs[i].value, indent, Deeper(depth, m), y);
    PairRead(g, pairs[i], indent, Deeper(depth, m), y);
    SkipBreak(m, Margin(indent, depth), body);
    ReadPairSkips(g, s, body);
    var next := [];
    if i + 1 < |pairs| {
      next := FromPair(pairs, i + 1, indent, depth, m, tail);
      ReadPrintedPairs(g, pairs, i + 1, indent, depth, m, back, rest);
    }
    PairsChain(g, pairs, i, s, y, next, rest);
  }

  lemma MapText(pairs: seq<Pair>, indent: nat, depth: nat, rest: Text)
    requires depth >= 1
    ensures var m, back := Multiline(indent, |pairs|), Margin(indent, depth - 1);
            var tail := Break(m, back) + ([125] + rest);
            && Print(JMap(pairs), indent, depth) + rest == [123] + (PairsFrom(pairs, 0, indent, depth, m) + tail)
            && (pairs == [] ==> PairsFrom(pairs, 0, indent, depth, m) + tail == [125] + rest)
            && (pairs != [] ==> PairsFrom(pairs, 0, indent, depth, m) + tail == FromPair(pairs, 0, indent, depth, m,
                tail))
  {
    var m, back := Multiline(indent, |pairs|), Margin(indent, depth - 1);
    var tail := Break(m, back) + ([125] + rest);
    Brackets(123, PairsFrom(pairs, 0, indent, depth, m), Break(m, back), 125, rest);
    if pairs != [] {
      FromPairStep(pairs, 0, indent, depth, m, tail);
      hide PairsFrom, Break, FromPair;
      assert Comma(0) + FromPair(pairs, 0, indent, depth, m, tail) == FromPair(pairs, 0, indent, depth, m, tail);
    }
  }

  lemma ReadableMap(g: Grammar, pairs: seq<Pair>)
    ensures Readable(g, JMap(pairs)) <==> ReadablePairs(g, pairs, 0)
    ensures pairs[0..] == pairs
  {
    if ReadablePairs(g, pairs, 0) {
      forall i | 0 <= i < |pairs|
        ensures ReadableText(g, pairs[i].key) && Readable(g, pairs[i].value)
      {
        assert ReadablePair(g, pairs[i]);
      }
    }
  }

  lemma {:induction false} ReadPrintedMap(g: Grammar, pairs: seq<Pair>, indent: nat, depth: nat, rest: Text)
    requires depth >= 1 && Printable(JMap(pairs))
    ensures ReadToken(g, Print(JMap(pairs), indent, depth) + rest) == if Readable(g, JMap(pairs))
            then Got(JMap(pairs), rest) else Bad
    decreases pairs, |pairs| + 1, 0
  {
    hide ReadToken, ReadPairs, Print, Printable, Readable, ReadablePairs, PairsFrom, FromPair, Break, SkipSpace;
    var m, back := Multiline(indent, |pairs|), Margin(indent, depth - 1);
    var tail := Break(m, back) + ([125] + rest);
    var inner := PairsFrom(pairs, 0, indent, depth, m) + tail;
    MapText(pairs, indent, depth, rest);
    ReadableMap(g, pairs);
    ReadMapToken(g, inner);
    SkipNone(125, rest);
    if pairs == [] {
      NothingToRead(g, [], pairs);
    } else {
      ReadPairsSkips(g, inner);
      ReadPrintedPairs(g, pairs, 0, indent, depth, m, back, rest);
    }
  }

  /**
   The whole text of a value, at any indentation, read as one text: the value, or no text of the grammar. As JSON it
   reads back exactly when its control characters have JSON escapes; with the printer's own escapes it always does.
   */
  lemma RoundTrip(g: Grammar, v: Json, indent: nat)
    requires Printable(v)
    ensures ReadText(g, Print(v, indent, 1)) == if Readable(g, v) then Got(v, []) else Bad
  {
    hide ReadToken, Print;
    ReadPrint(g, v, indent, 1, []);
    PrintBegins(v, indent, 1, []);
    assert Print(v, indent, 1) + [] == Print(v, indent, 1);
  }

  lemma {:induction false} AllReadable(v: Json)
    ensures Readable(Extended, v)
  {
    match v
    case JArray(items) =>
      forall i | 0 <= i < |items|
        ensures Readable(Extended, items[i])
      {
        AllReadable(items[i]);
      }
    case JMap(pairs) =>
      forall i | 0 <= i < |pairs|
        ensures Readable(Extended, pairs[i].value)
      {
        AllReadable(pairs[i].value);
      }
    case _ =>
  }

  /** Different values never print alike, whatever characters their strings hold. */
  lemma Unambiguous(v: Json, w: Json, indent: nat, indent': nat)
    requires Printable(v) && Printable(w)
    ensures Print(v, indent, 1) == Print(w, indent', 1) ==> v == w
  {
    AllReadable(v);
    AllReadable(w);
    RoundTrip(Extended, v, indent);
    RoundTrip(Extended, w, indent');
  }

  /** A control character without a JSON escape: the text is no JSON. */
  lemma ControlCharacterLost()
    ensures ReadText(Rfc8259, Print(JString([1]), 0, 1)) == Bad
  {
    assert !ReadableText(Rfc8259, [1]) by {
      assert [1 as nat][0] == 1;
    }
    RoundTrip(Rfc8259, JString([1]), 0);
  }

  /** No text is shorter that JSON reads as the character, and a character that needs no escape gets none. */
  lemma EscapedShortest(c: nat, t: Text)
    requires ReadChar(Rfc8259, t) == Got(c, [])
    ensures ReadableText(Rfc8259, [c]) ==> |Escaped(c)| <= |t|
    ensures |t| == 1 ==> Escaped(c) == t
  {
    assert [c][0] == c;
  }
}

/** The printer itself, which appends piece by piece to its output (src/pw_to_json.c). */
module JsonWriting {
  import opened Parsing
  import opened JsonText
  import opened JsonReader
  import opened JsonLayout

  /** All strings and keys are stored at one byte per character. */
  ghost predicate Narrow(v: Json) {
    match v
    case JString(s) => NarrowChars(s)
    case JArray(items) => forall i :: 0 <= i < |items| ==> Narrow(items[i])
    case JMap(pairs) => forall i :: 0 <= i < |pairs| ==> NarrowChars(pairs[i].key) && Narrow(pairs[i].value)
    case _ => true
  }

  ghost predicate NarrowChars(s: Text) {
    forall i :: 0 <= i < |s| ==> s[i] < 256
  }

  class JsonWriter {
    var out: Text

    constructor ()
      ensures out == []
    {
      out := [];
    }

    method Append(t: Text)
      modifies this
      ensures out == old(out) + t
    {
      out := out + t;
    }

    /** escape_string: stretches that need no escape are appended as they are. */
    method EscapeString(s: Text)
      requires NarrowChars(s)
      modifies this
      ensures out == old(out) + Quoted(s)
    {
      hide EscapedText, Escaped;
      ghost var out0 := out;
      Append([QUOTE]);
      var start, p := 0, 0;
      EscapedNothing(s, out);
      while p < |s|
        invariant start <= p <= |s| && out + s[start..p] == out0 + [QUOTE] + EscapedText(s[..p])
      {
        var c := s[p];
        EscapedOneMore(s, p);
        if c == QUOTE || c == BACKSLASH || c < 32 {
          ghost var before := out + s[start..p];
          if p > start {
            Append(s[start..p]);
          }
          EmptyStretch(s, start, p, out);
          start := p + 1;
          Append(EscapeOf(c));
          Assoc(out0 + [QUOTE], EscapedText(s[..p]), Escaped(c));
          EmptyStretch(s, start, start, out);
        } else {
          PlainOneMore(s, start, p);
          Assoc(out, s[start..p], [c]);
          Assoc(out0 + [QUOTE], EscapedText(s[..p]), Escaped(c));
        }
        p := p + 1;
      }
      if p > start {
        Append(s[start..p]);
      }
      EmptyStretch(s, start, p, out);
      assert s[..p] == s;
      Append([QUOTE]);
      Assoc3(out0, [QUOTE], EscapedText(s), [QUOTE]);
    }

    /** array_to_json. */
    method ArrayToJson(items: seq<Json>, indent: nat, depth: nat) returns (ok: bool)
      requires depth >= 1 && Narrow(JArray(items))
      modifies this
      ensures ok <==> Printable(JArray(items))
      ensures ok ==> out == old(out) + Print(JArray(items), indent, depth)
      decreases items, 1, 0
    {
      hide ItemsFrom, Printable, Narrow, Print, Break, ItemText;
      ghost var out0 := out;
      Append([91]);
      var multiline := indent > 0 && |items| > 1;
      EmptyArray(items, indent, depth);
      if |items| == 0 {
        Append([93]);
        Assoc(out0, [91], [93]);
        return true;
      }
      var i := 0;
      ghost var all := ItemsFrom(items, 0, indent, depth, multiline);
      while i < |items|
        invariant i <= |items|
        invariant forall k :: 0 <= k < i ==> Printable(items[k])
        invariant out + ItemsFrom(items, i, indent, depth, multiline) == out0 + [91] + all
      {
        ItemPart(items, i, indent, depth, multiline);
        ghost var out1 := out;
        var done := ItemToJson(items, i, indent, depth, multiline);
        if !done {
          NotPrintable(items, i);
          return false;
        }
        Assoc(out1, ItemText(items, i, indent, depth, multiline), ItemsFrom(items, i + 1, indent, depth, multiline));
        i := i + 1;
      }
      AllPrintable(items);
      NoItems(items, indent, depth, multiline, out);
      ghost var out2 := out;
      if multiline {
        Append(Break(true, Margin(indent, depth - 1)));
      }
      MaybeBreak(out2, multiline, Margin(indent, depth - 1));
      Append([93]);
      Assoc4(out0, [91], all, Break(multiline, Margin(indent, depth - 1)), [93]);
      ok := true;
    }

    /** One round of its loop: what comes before an item, and the item. */
    method ItemToJson(items: seq<Json>, i: nat, indent: nat, depth: nat, multiline: bool) returns (ok: bool)
      requires depth >= 1 && i < |items| && Narrow(items[i])
      modifies this
      ensures ok <==> Printable(items[i])
      ensures ok ==> out == old(out) + ItemText(items, i, indent, depth, multiline)
      decreases items, 0, 0
    {
      hide Printable, Narrow, Print, Break;
      ghost var out0 := out;
      if i > 0 {
        Append([COMMA]);
      }
      MaybeComma(out0, i);
      if multiline {
        Append(Break(true, Margin(indent, depth)));
      }
      MaybeBreak(out0 + Comma(i), multiline, Margin(indent, depth));
      ok := ValueToJson(items[i], indent, Deeper(depth, multiline));
      Assoc3(out0, Comma(i), Break(multiline, Margin(indent, depth)),
          Print(items[i], indent, Deeper(depth, multiline)));
    }

    /** map_to_json. */
    method MapToJson(pairs: seq<Pair>, indent: nat, depth: nat) returns (ok: bool)
      requires depth >= 1 && Narrow(JMap(pairs))
      modifies this
      ensures ok <==> Printable(JMap(pairs))
      ensures ok ==> out == old(out) + Print(JMap(pairs), indent, depth)
      decreases pairs, 1, 0
    {
      hide PairsFrom, Printable, Narrow, NarrowChars, Print, Break, PairText;
      ghost var out0 := out;
      Append([123]);
      var multiline := indent > 0 && |pairs| > 1;
      EmptyMap(pairs, indent, depth);
      if |pairs| == 0 {
        Append([125]);
        Assoc(out0, [123], [125]);
        return true;
      }
      var i := 0;
      ghost var all := PairsFrom(pairs, 0, indent, depth, multiline);
      while i < |pairs|
        invariant i <= |pairs|
        invariant forall k :: 0 <= k < i ==> Printable(pairs[k].value)
        invariant out + PairsFrom(pairs, i, indent, depth, multiline) == out0 + [123] + all
      {
        PairPart(pairs, i, indent, depth, multiline);
        ghost var out1 := out;
        var done := PairToJson(pairs, i, indent, depth, multiline);
        if !done {
          NotPrintablePair(pairs, i);
          return false;
        }
        Assoc(out1, PairText(pairs, i, indent, depth, multiline), PairsFrom(pairs, i + 1, indent, depth, multiline));
        i := i + 1;
      }
      AllPrintablePairs(pairs);
      NoPairs(pairs, indent, depth, multiline, out);
      ghost var out2 := out;
      if multiline {
        Append(Break(true, Margin(indent, depth - 1)));
      }
      MaybeBreak(out2, multiline, Margin(indent, depth - 1));
      Append([125]);
      Assoc4(out0, [123], all, Break(multiline, Margin(indent, depth - 1)), [125]);
      ok := true;
    }

    /** One round of its loop: what comes before a pair, its key and its value. */
    method PairToJson(pairs: seq<Pair>, i: nat, indent: nat, depth: nat, multiline: bool) returns (ok: bool)
      requires depth >= 1 && i < |pairs| && NarrowChars(pairs[i].key) && Narrow(pairs[i].value)
      modifies this
      ensures ok <==> Printable(pairs[i].value)
      ensures ok ==> out == old(out) + PairText(pairs, i, indent, depth, multiline)
      decreases pairs, 0, 0
    {
      hide Printable, Narrow, NarrowChars, Print, Break, Quoted;
      ghost var out0 := out;
      if i > 0 {
        Append([COMMA]);
      }
      MaybeComma(out0, i);
      if multiline {
        Append(Break(true, Margin(indent, depth)));
      }
      MaybeBreak(out0 + Comma(i), multiline, Margin(indent, depth));
      EscapeString(pairs[i].key);
      Append([COLON]);
      if indent > 0 {
        Append([32]);
      }
      PairStart(out0, Comma(i), Break(multiline, Margin(indent, depth)), Quoted(pairs[i].key), indent, out);
      ok := ValueToJson(pairs[i].value, indent, Deeper(depth, multiline));
      Assoc5(out0, Comma(i), Break(multiline, Margin(indent, depth)), Quoted(pairs[i].key), KeyEnd(indent),
             Print(pairs[i].value, indent, Deeper(depth, multiline)));
    }

    /** value_to_json. */
    method ValueToJson(v: Json, indent: nat, depth: nat) returns (ok: bool)
      requires depth >= 1 && Narrow(v)
      modifies this
      ensures ok <==> Printable(v)
      ensures ok ==> out == old(out) + Print(v, indent, depth)
      decreases v, 2, 0
    {
      ok := true;
      match v
      case JNull => Append(Chars("null"));
      case JBool(b) =>
        if b {
          Append(Chars("true"));
        } else {
          Append(Chars("false"));
        }
      case JInt(n) => Append(Decimal(n));
      case JString(s) => EscapeString(s);
      case JArray(items) => ok := ArrayToJson(items, indent, depth);
      case JMap(pairs) => ok := MapToJson(pairs, indent, depth);
      case JOther => ok := false;
    }
  }

  /** What is appended for a character that cannot stand as it is. */
  function EscapeOf(c: nat): (t: Text)
    ensures c == QUOTE || c == BACKSLASH || c < 32 ==> t == Escaped(c)
  {
    if c == QUOTE || c == BACKSLASH then [BACKSLASH, c]
    else if c == 8 then [BACKSLASH, 'b' as nat]
    else if c == 12 then [BACKSLASH, 'f' as nat]
    else if c == 10 then [BACKSLASH, 'n' as nat]
    else if c == 13 then [BACKSLASH, 'r' as nat]
    else if c == 9 then [BACKSLASH, 't' as nat]
    else [BACKSLASH, '0' as nat, '0' as nat, '0' as nat + c / 16, '0' as nat + c % 16]
  }

  lemma EscapedNothing(s: Text, out: Text)
    ensures s[0..0] == [] && s[..0] == [] && out + [] == out && EscapedText([]) == []
  {
  }

  lemma {:induction false} EscapedOneMore(s: Text, p: nat)
    requires p < |s|
    ensures EscapedText(s[..p + 1]) == EscapedText(s[..p]) + Escaped(s[p])
    decreases |s|
  {
    hide Escaped;
    var t, u := s[..p + 1], s[..p];
    assert t[0] == s[0];
    if p == 0 {
      assert t[1..] == [] && u == [];
      assert EscapedText([]) == [];
      assert Escaped(s[0]) + [] == Escaped(s[0]) && [] + Escaped(s[0]) == Escaped(s[0]);
    } else {
      EscapedOneMore(s[1..], p - 1);
      assert t[1..] == s[1..][..p] && u[1..] == s[1..][..p - 1];
      Assoc(Escaped(s[0]), EscapedText(s[1..][..p - 1]), Escaped(s[p]));
    }
  }

  lemma PlainOneMore(s: Text, start: nat, p: nat)
    requires start <= p < |s| && s[p] != QUOTE && s[p] != BACKSLASH && s[p] >= 32
    ensures s[start..p + 1] == s[start..p] + [s[p]] && Escaped(s[p]) == [s[p]]
  {
  }

  lemma EmptyStretch(s: Text, start: nat, p: nat, out: Text)
    requires start <= p <= |s|
    ensures start == p ==> s[start..p] == [] && out + s[start..p] == out
  {
  }

  lemma Assoc(a: Text, b: Text, c: Text)
    ensures a + b + c == a + (b + c)
  {
  }

  lemma Assoc3(a: Text, b: Text, c: Text, d: Text)
    ensures a + b + c + d == a + (b + c + d)
  {
  }

  lemma Assoc4(a: Text, b: Text, c: Text, d: Text, e: Text)
    ensures a + b + c + d + e == a + (b + c + d + e)
  {
  }

  lemma Assoc5(a: Text, b: Text, c: Text, d: Text, e: Text, f: Text)
    ensures a + b + c + d + e + f == a + (b + c + d + e + f)
  {
  }

  lemma MaybeComma(out: Text, i: nat)
    ensures out + Comma(i) == if i > 0 then out + [COMMA] else out
  {
  }

  lemma MaybeBreak(out: Text, m: bool, n: nat)
    ensures out + Break(m, n) == if m then out + Break(true, n) else out
  {
  }

  /** An item and what comes before it. */
  ghost function ItemText(items: seq<Json>, i: nat, indent: nat, depth: nat, m: bool): Text
    requires depth >= 1 && i < |items|
  {
    Comma(i) + Break(m, Margin(indent, depth)) + Print(items[i], indent, Deeper(depth, m))
  }

  ghost function PairText(pairs: seq<Pair>, i: nat, indent: nat, depth: nat, m: bool): Text
    requires depth >= 1 && i < |pairs|
  {
    Comma(i) + Break(m, Margin(indent, depth)) + Quoted(pairs[i].key) + KeyEnd(indent) + Print(pairs[i].value, indent,
        Deeper(depth, m))
  }

  lemma PairStart(a: Text, b: Text, c: Text, q: Text, indent: nat, out: Text)
    requires out == if indent > 0 then a + b + c + q + [COLON] + [32] else a + b + c + q + [COLON]
    ensures out == a + b + c + q + KeyEnd(indent)
  {
  }

  lemma EmptyArray(items: seq<Json>, indent: nat, depth: nat)
    requires depth >= 1
    ensures items == [] ==> Print(JArray(items), indent, depth) == [91] + [93] && Printable(JArray(items))
    ensures var m := Multiline(indent, |items|);
            Print(JArray(items), indent, depth) == [91] + ItemsFrom(items, 0, indent, depth, m)
                + Break(m, Margin(indent, depth - 1)) + [93]
    ensures ItemsFrom(items, |items|, indent, depth, Multiline(indent, |items|)) == []
    ensures Narrow(JArray(items)) ==> forall i :: 0 <= i < |items| ==> Narrow(items[i])
  {
  }

  lemma ItemPart(items: seq<Json>, i: nat, indent: nat, depth: nat, m: bool)
    requires depth >= 1 && i < |items|
    ensures ItemsFrom(items, i, indent, depth, m)
         == ItemText(items, i, indent, depth, m) + ItemsFrom(items, i + 1, indent, depth, m)
  {
  }

  lemma NoItems(items: seq<Json>, indent: nat, depth: nat, m: bool, out: Text)
    requires depth >= 1
    ensures out + ItemsFrom(items, |items|, indent, depth, m) == out
  {
  }

  lemma NotPrintable(items: seq<Json>, i: nat)
    requires i < |items| && !Printable(items[i])
    ensures !Printable(JArray(items))
  {
  }

  lemma AllPrintable(items: seq<Json>)
    requires forall k :: 0 <= k < |items| ==> Printable(items[k])
    ensures Printable(JArray(items))
  {
  }

  lemma EmptyMap(pairs: seq<Pair>, indent: nat, depth: nat)
    requires depth >= 1
    ensures pairs == [] ==> Print(JMap(pairs), indent, depth) == [123] + [125] && Printable(JMap(pairs))
    ensures var m := Multiline(indent, |pairs|);
            Print(JMap(pairs), indent, depth) == [123] + PairsFrom(pairs, 0, indent, depth, m)
                + Break(m, Margin(indent, depth - 1)) + [125]
    ensures Narrow(JMap(pairs)) ==> forall i :: 0 <= i < |pairs| ==> NarrowChars(pairs[i].key) && Narrow(pairs[i].value)
  {
  }

  lemma PairPart(pairs: seq<Pair>, i: nat, indent: nat, depth: nat, m: bool)
    requires depth >= 1 && i < |pairs|
    ensures PairsFrom(pairs, i, indent, depth, m)
         == PairText(pairs, i, indent, depth, m) + PairsFrom(pairs, i + 1, indent, depth, m)
  {
  }

  lemma NoPairs(pairs: seq<Pair>, indent: nat, depth: nat, m: bool, out: Text)
    requires depth >= 1
    ensures out + PairsFrom(pairs, |pairs|, indent, depth, m) == out
  {
  }

  lemma NotPrintablePair(pairs: seq<Pair>, i: nat)
    requires i < |pairs| && !Printable(pairs[i].value)
    ensures !Printable(JMap(pairs))
  {
  }

  lemma AllPrintablePairs(pairs: seq<Pair>)
    requires forall k :: 0 <= k < |pairs| ==> Printable(pairs[k].value)
    ensures Printable(JMap(pairs))
  {
  }

  /**
   pw_to_json, and the reader on its output: the value again, unless a string holds a control character without an
   escape.
   */
  method ToJson(v: Json, indent: nat) returns (ok: bool, text: Text)
    requires Narrow(v)
    ensures ok <==> Printable(v)
    ensures ok ==> ReadText(Rfc8259, text) == if Readable(Rfc8259, v) then Got(v, []) else Bad
    ensures ok ==> Strip(text, Outside) == Print(v, 0, 1) && (indent == 0 ==> Strip(text, Outside) == text)
    ensures ok ==> LaidOut(indent, text)
  {
    hide Print, Printable, Readable, ReadText, Strip, Narrow, LaidOut;
    var w := new JsonWriter();
    ok := w.ValueToJson(v, indent, 1);
    text := w.out;
    if ok {
      RoundTrip(Rfc8259, v, indent);
      StripPrint(v, indent, 1, 1);
      PrintIsLaidOut(v, indent);
      assert [] + Print(v, indent, 1) == Print(v, indent, 1);
    }
  }
}

/**
 Where the lines of printed JSON break and how far they are indented (src/pw_to_json.c:95-183), told by a machine that
 reads the text one character at a time and counts open brackets; it knows nothing of the values printed.
 */
module JsonLayout {
  import opened Parsing
  import opened JsonText

  // ----- the machine -----

  const FEED: nat := 10
  const BLANK: nat := 32

  /** An open container: whether a line break came right after its bracket, and whether a comma has come in it. */
  datatype Open = Open(broken: bool, comma: bool)

  /** What came last. */
  datatype Last =
    | Nothing
    | Bracket
    | Separator
    | Colon
    | KeyBlank
    | Indented(width: nat, closing: bool)
    | Ended
    | InString(escaped: bool)

  datatype State = State(open: seq<Open>, last: Last) | Wrong

  /** Containers that have their items on lines of their own. */
  function Broken(open: seq<Open>): nat {
    if open == [] then 0 else Broken(open[..|open| - 1]) + if open[|open| - 1].broken then 1 else 0
  }

  function Top(open: seq<Open>): Open
    requires open != []
  {
    open[|open| - 1]
  }

  function WithTop(open: seq<Open>, top: Open): seq<Open>
    requires open != []
  {
    open[..|open| - 1] + [top]
  }

  predicate Closes(c: nat) {
    c == ']' as nat || c == '}' as nat
  }

  /** A line break: behind an opening bracket or a comma, or before a closing bracket of a container that has one. */
  function AtFeed(indent: nat, st: State): State
    requires st.State?
  {
    if indent == 0 || st.open == [] then Wrong
    else
      match st.last
      case Bracket => State(WithTop(st.open, Open(true, false)), Indented(0, false))
      case Separator => State(st.open, Indented(0, false))
      case Ended => if Top(st.open).broken then State(st.open, Indented(0, true)) else Wrong
      case _ => Wrong
  }

  /** May a token begin here, one that closes a container or another? */
  predicate MayBegin(indent: nat, st: State, closing: bool)
    requires st.State?
  {
    match st.last
    case Nothing => !closing
    case Bracket => true
    case Separator => indent == 0 && !closing
    case Colon => indent == 0 && !closing
    case KeyBlank => !closing
    case Indented(width, forClosing) =>
      closing == forClosing && width == indent * (Broken(st.open) - if closing then 1 else 0)
    case Ended => closing ==> st.open != [] && !Top(st.open).broken
    case InString(_) => false
  }

  /** A token outside strings begins or goes on. */
  function AtToken(indent: nat, st: State, c: nat): State
    requires st.State?
  {
    if Closes(c) then
      if st.open != [] && MayBegin(indent, st, true) && (indent > 0 ==> Top(st.open).broken == Top(st.open).comma) then
        State(st.open[..|st.open| - 1], Ended)
      else Wrong
    else if c == ',' as nat then
      if st.last.Ended? && st.open != [] then State(WithTop(st.open, Top(st.open).(comma := true)), Separator)
      else Wrong
    else if c == ':' as nat then
      if st.last.Ended? then State(st.open, Colon) else Wrong
    else if !MayBegin(indent, st, false) then Wrong
    else if c == '[' as nat || c == '{' as nat then State(st.open + [Open(false, false)], Bracket)
    else if c == '"' as nat then State(st.open, InString(false))
    else State(st.open, Ended)
  }

  /** One character. */
  function Next(indent: nat, st: State, c: nat): State {
    if st.Wrong? then Wrong
    else if st.last.InString? then
      if st.last.escaped then State(st.open, InString(false))
      else if c == '"' as nat then State(st.open, Ended)
      else State(st.open, InString(c == '\\' as nat))
    else if c == FEED then AtFeed(indent, st)
    else if c == BLANK then
      match st.last
      case Indented(width, closing) => State(st.open, Indented(width + 1, closing))
      case Colon => if indent > 0 then State(st.open, KeyBlank) else Wrong
      case _ => Wrong
    else if c == 9 || c == 13 then Wrong
    else AtToken(indent, st, c)
  }

  function After(indent: nat, st: State, t: Text): State
    decreases |t|
  {
    if t == [] then st else After(indent, Next(indent, st, t[0]), t[1..])
  }

  /**
   The text of one value is laid out at an indentation. Outside strings, a line feed stands behind the opening bracket,
   behind every comma and before the closing bracket of exactly those containers that have a comma, none at
   indentation 0, and nowhere else. It is followed by as many blanks as the indentation times the number of such
   containers open, one fewer before a closing bracket. One blank follows each colon exactly if the indentation is not
   0, and there is no other white space.
   */
  predicate LaidOut(indent: nat, t: Text) {
    After(indent, State([], Nothing), t) == State([], Ended)
  }

  // ----- texts one after the other -----

  lemma {:induction false} AfterConcat(indent: nat, st: State, a: Text, b: Text)
    ensures After(indent, st, a + b) == After(indent, After(indent, st, a), b)
    decreases |a|
  {
    if a == [] {
      assert a + b == b;
    } else {
      assert (a + b)[1..] == a[1..] + b && (a + b)[0] == a[0];
      hide Next;
      AfterConcat(indent, Next(indent, st, a[0]), a[1..], b);
    }
  }

  lemma AfterOne(indent: nat, st: State, c: nat)
    ensures After(indent, st, [c]) == Next(indent, st, c) && After(indent, st, []) == st
  {
    assert [c][1..] == [];
  }

  lemma {:induction false} AfterBlanks(indent: nat, open: seq<Open>, width: nat, closing: bool, n: nat)
    ensures After(indent, State(open, Indented(width, closing)), Spaces(n)) == State(open, Indented(width + n, closing))
    decreases n
  {
    if n > 0 {
      assert Spaces(n)[1..] == Spaces(n - 1);
      AfterBlanks(indent, open, width + 1, closing, n - 1);
    } else {
      assert Spaces(0) == [];
    }
  }

  // ----- the parts of a printed value -----

  /** Characters of literals and numbers. */
  predicate IsPlain(c: nat) {
    c > 32 && c != '"' as nat && c != ',' as nat && c != ':' as nat && c != '[' as nat && c != '{' as nat && !Closes(c)
  }

  lemma {:induction false} PlainLaidOut(indent: nat, st: State, t: Text)
    requires st.State? && MayBegin(indent, st, false) && t != [] && forall i :: 0 <= i < |t| ==> IsPlain(t[i])
    ensures After(indent, st, t) == State(st.open, Ended)
    decreases |t|
  {
    PlainNext(indent, st, t[0]);
    if |t| > 1 {
      hide Next;
      PlainLaidOut(indent, State(st.open, Ended), t[1..]);
    } else {
      assert t[1..] == [];
    }
  }

  lemma PlainNext(indent: nat, st: State, c: nat)
    requires st.State? && MayBegin(indent, st, false) && IsPlain(c)
    ensures Next(indent, st, c) == State(st.open, Ended) && MayBegin(indent, State(st.open, Ended), false)
  {
  }

  lemma {:induction false} EscapedLaidOut(indent: nat, open: seq<Open>, s: Text)
    ensures After(indent, State(open, InString(false)), EscapedText(s)) == State(open, InString(false))
    decreases |s|
  {
    if s != [] {
      EscapedCharLaidOut(indent, open, s[0]);
      EscapedLaidOut(indent, open, s[1..]);
      hide Next, After, Escaped;
      AfterConcat(indent, State(open, InString(false)), Escaped(s[0]), EscapedText(s[1..]));
    }
  }

  lemma EscapedCharLaidOut(indent: nat, open: seq<Open>, c: nat)
    ensures After(indent, State(open, InString(false)), Escaped(c)) == State(open, InString(false))
  {
    var e := Escaped(c);
    if |e| == 1 {
      assert e[1..] == [];
    } else if |e| == 2 {
      assert e[1..] == [e[1]];
      AfterOne(indent, State(open, InString(true)), e[1]);
    } else {
      InStringStays(indent, open, e[2..]);
      assert e[1..][1..] == e[2..];
    }
  }

  lemma {:induction false} InStringStays(indent: nat, open: seq<Open>, t: Text)
    requires forall i :: 0 <= i < |t| ==> t[i] != QUOTE && t[i] != BACKSLASH
    ensures After(indent, State(open, InString(false)), t) == State(open, InString(false))
    decreases |t|
  {
    if t != [] {
      InStringStays(indent, open, t[1..]);
    }
  }

  lemma QuotedLaidOut(indent: nat, st: State, s: Text)
    requires st.State? && MayBegin(indent, st, false)
    ensures After(indent, st, Quoted(s)) == State(st.open, Ended)
  {
    AfterOne(indent, st, QUOTE);
    AfterOne(indent, State(st.open, InString(false)), QUOTE);
    EscapedLaidOut(indent, st.open, s);
    assert Next(indent, st, QUOTE) == State(st.open, InString(false));
    assert Next(indent, State(st.open, InString(false)), QUOTE) == State(st.open, Ended);
    hide Next, After, EscapedText;
    AfterConcat(indent, st, [QUOTE], EscapedText(s));
    AfterConcat(indent, st, [QUOTE] + EscapedText(s), [QUOTE]);
  }

  lemma KeyEndLaidOut(indent: nat, open: seq<Open>)
    ensures var st := After(indent, State(open, Ended), KeyEnd(indent));
            st.State? && st.open == open && MayBegin(indent, st, false)
  {
    AfterOne(indent, State(open, Ended), COLON);
    AfterOne(indent, State(open, Colon), BLANK);
    AfterConcat(indent, State(open, Ended), [COLON], [BLANK]);
    assert [COLON] + [BLANK] == [COLON, BLANK];
    assert Next(indent, State(open, Ended), COLON) == State(open, Colon);
    hide After;
  }

  // ----- containers -----

  /** Inside a container, when i items have been printed. */
  function Within(open: seq<Open>, i: nat, m: bool): State {
    if i == 0 then State(open + [Open(false, false)], Bracket) else State(open + [Open(m, i > 1)], Ended)
  }

  lemma BrokenMore(open: seq<Open>, o: Open)
    ensures Broken(open + [o]) == Broken(open) + if o.broken then 1 else 0
    ensures Top(open + [o]) == o && (open + [o])[..|open + [o]| - 1] == open
    ensures forall top :: WithTop(open + [o], top) == open + [top]
  {
    assert (open + [o])[..|open|] == open;
  }

  lemma BreakLaidOut(indent: nat, st: State, n: nat, open: seq<Open>, closing: bool)
    requires st.State? && AtFeed(indent, st) == State(open, Indented(0, closing)) && !st.last.InString?
    ensures After(indent, st, Break(true, n)) == State(open, Indented(n, closing))
  {
    AfterOne(indent, st, FEED);
    AfterConcat(indent, st, [FEED], Spaces(n));
    AfterBlanks(indent, open, 0, closing, n);
    assert Next(indent, st, FEED) == AtFeed(indent, st);
    hide Next, After, AtFeed;
  }

  /** What comes before item i. */
  lemma ItemBegins(indent: nat, depth: nat, open: seq<Open>, i: nat, n: nat)
    requires i < n && depth == Broken(open) + 1
    ensures var m := Multiline(indent, n);
            var st, inner := After(indent, Within(open, i, m), Comma(i) + Break(m, Margin(indent, depth))),
                open + [Open(m, i > 0)];
            && st.State? && st.open == inner && MayBegin(indent, st, false)
            && Broken(inner) + 1 == Deeper(depth, m) && Within(open, i + 1, m) == State(inner, Ended)
  {
    var m := Multiline(indent, n);
    var inner := open + [Open(m, i > 0)];
    BrokenMore(open, Open(false, false));
    BrokenMore(open, Open(m, i > 1));
    BrokenMore(open, Open(m, i > 0));
    var st0 := Within(open, i, m);
    var st1 := if i == 0 then st0 else State(inner, Separator);
    assert After(indent, st0, Comma(i)) == st1 by {
      AfterOne(indent, st0, COMMA);
    }
    AfterConcat(indent, st0, Comma(i), Break(m, Margin(indent, depth)));
    if m {
      assert AtFeed(indent, st1) == State(inner, Indented(0, false));
      BreakLaidOut(indent, st1, Margin(indent, depth), inner, false);
    } else {
      AfterOne(indent, st1, 0);
    }
    hide After, Next, AtFeed, Comma, Break;
  }

  /** What comes after the last item. */
  lemma ContainerEnds(indent: nat, depth: nat, open: seq<Open>, n: nat, c: nat)
    requires depth == Broken(open) + 1 && Closes(c)
    ensures var m := Multiline(indent, n);
            After(indent, Within(open, n, m), Break(m, Margin(indent, depth - 1)) + [c]) == State(open, Ended)
  {
    var m := Multiline(indent, n);
    var st := Within(open, n, m);
    BrokenMore(open, Open(false, false));
    BrokenMore(open, Open(m, n > 1));
    AfterConcat(indent, st, Break(m, Margin(indent, depth - 1)), [c]);
    if m {
      BreakLaidOut(indent, st, Margin(indent, depth - 1), st.open, true);
      AfterOne(indent, State(st.open, Indented(Margin(indent, depth - 1), true)), c);
    } else {
      AfterOne(indent, st, c);
    }
    hide After, AtFeed, Break;
  }

  /** A value printed at the depth of the containers that are open is laid out. */
  lemma {:induction false} ValueLaidOut(v: Json, indent: nat, depth: nat, st: State)
    requires Printable(v) && st.State? && MayBegin(indent, st, false) && depth == Broken(st.open) + 1
    ensures After(indent, st, Print(v, indent, depth)) == State(st.open, Ended)
    decreases v, 0
  {
    match v
    case JNull => PlainLaidOut(indent, st, Chars("null"));
    case JBool(b) => PlainLaidOut(indent, st, if b then Chars("true") else Chars("false"));
    case JInt(n) => PlainLaidOut(indent, st, Decimal(n));
    case JString(s) => QuotedLaidOut(indent, st, s);
    case JArray(items) =>
      BracketOpens(indent, st, 91);
      ItemsLaidOut(items, 0, indent, depth, st.open);
      ContainerEnds(indent, depth, st.open, |items|, 93);
      ContainerLaidOut(indent, depth, st, ItemsFrom(items, 0, indent, depth, Multiline(indent, |items|)), |items|, 91,
                       93);
    case JMap(pairs) =>
      BracketOpens(indent, st, 123);
      PairsLaidOut(pairs, 0, indent, depth, st.open);
      ContainerEnds(indent, depth, st.open, |pairs|, 125);
      ContainerLaidOut(indent, depth, st, PairsFrom(pairs, 0, indent, depth, Multiline(indent, |pairs|)), |pairs|, 123,
                       125);
  }

  lemma BracketOpens(indent: nat, st: State, c: nat)
    requires st.State? && MayBegin(indent, st, false) && (c == '[' as nat || c == '{' as nat)
    ensures forall m :: Next(indent, st, c) == Within(st.open, 0, m)
  {
  }

  lemma ContainerLaidOut(indent: nat, depth: nat, st: State, parts: Text, n: nat, begin: nat, end: nat)
    requires depth >= 1 && st.State? && Next(indent, st, begin) == Within(st.open, 0, Multiline(indent, n))
    requires var m := Multiline(indent, n);
             && After(indent, Within(st.open, 0, m), parts) == Within(st.open, n, m)
             && After(indent, Within(st.open, n, m), Break(m, Margin(indent, depth - 1)) + [end])
                == State(st.open, Ended)
    ensures After(indent, st, [begin] + parts + Break(Multiline(indent, n), Margin(indent, depth - 1)) + [end])
            == State(st.open, Ended)
  {
    var back := Break(Multiline(indent, n), Margin(indent, depth - 1));
    AfterOne(indent, st, begin);
    hide After, Next, Within, Break, Multiline;
    AfterConcat(indent, st, [begin], parts);
    AfterConcat(indent, st, [begin] + parts, back + [end]);
    assert [begin] + parts + back + [end] == [begin] + parts + (back + [end]);
  }

  lemma {:induction false} ItemsLaidOut(items: seq<Json>, i: nat, indent: nat, depth: nat, open: seq<Open>)
    requires i <= |items| && depth == Broken(open) + 1 && forall k :: 0 <= k < |items| ==> Printable(items[k])
    ensures var m := Multiline(indent, |items|);
            After(indent, Within(open, i, m), ItemsFrom(items, i, indent, depth, m)) == Within(open, |items|, m)
    decreases items, |items| - i
  {
    var m := Multiline(indent, |items|);
    ItemsUnfold(items, i, indent, depth, m);
    AfterOne(indent, Within(open, i, m), 0);
    if i < |items| {
      var before, text, rest := Comma(i) + Break(m, Margin(indent, depth)), Print(items[i], indent, Deeper(depth, m)),
          ItemsFrom(items, i + 1, indent, depth, m);
      ItemBegins(indent, depth, open, i, |items|);
      hide After, Next, Within, Break, Multiline, Comma, MayBegin, ItemsFrom, Print, Broken;
      var st := After(indent, Within(open, i, m), before);
      ValueLaidOut(items[i], indent, Deeper(depth, m), st);
      ItemsLaidOut(items, i + 1, indent, depth, open);
      AfterConcat(indent, Within(open, i, m), before, text);
      AfterConcat(indent, Within(open, i, m), before + text, rest);
    }
  }

  lemma {:induction false} PairsLaidOut(pairs: seq<Pair>, i: nat, indent: nat, depth: nat, open: seq<Open>)
    requires i <= |pairs| && depth == Broken(open) + 1 && forall k :: 0 <= k < |pairs| ==> Printable(pairs[k].value)
    ensures var m := Multiline(indent, |pairs|);
            After(indent, Within(open, i, m), PairsFrom(pairs, i, indent, depth, m)) == Within(open, |pairs|, m)
    decreases pairs, |pairs| - i
  {
    var m := Multiline(indent, |pairs|);
    PairsUnfold(pairs, i, indent, depth, m);
    AfterOne(indent, Within(open, i, m), 0);
    if i < |pairs| {
      var before, key, rest := Comma(i) + Break(m, Margin(indent, depth)), Quoted(pairs[i].key),
          PairsFrom(pairs, i + 1, indent, depth, m);
      var end, text := KeyEnd(indent), Print(pairs[i].value, indent, Deeper(depth, m));
      ItemBegins(indent, depth, open, i, |pairs|);
      hide After, Next, Within, Break, Multiline, Comma, MayBegin, PairsFrom, Print, Broken, Quoted, KeyEnd;
      var st0 := Within(open, i, m);
      var st := After(indent, st0, before);
      QuotedLaidOut(indent, st, pairs[i].key);
      KeyEndLaidOut(indent, st.open);
      ValueLaidOut(pairs[i].value, indent, Deeper(depth, m), After(indent, State(st.open, Ended), end));
      PairsLaidOut(pairs, i + 1, indent, depth, open);
      AfterConcat(indent, st0, before, key);
      AfterConcat(indent, st0, before + key, end);
      AfterConcat(indent, st0, before + key + end, text);
      AfterConcat(indent, st0, before + key + end + text, rest);
    }
  }

  /** The printed text of any value is laid out at its indentation. */
  lemma PrintIsLaidOut(v: Json, indent: nat)
    requires Printable(v)
    ensures LaidOut(indent, Print(v, indent, 1))
  {
    ValueLaidOut(v, indent, 1, State([], Nothing));
  }
}

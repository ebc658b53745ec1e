/**
 Splitting at a character and joining again (src/string/split_chr.c, rsplit_chr.c, strchr2.c, strrchr2.c,
 src/pw_array.c:614-700).
 */
module Splitting {
  import opened Radix
  import opened AssocList
  import opened CharSizes
  import opened StringSizes
  import opened StringValues
  import opened StringChars

  // ----- what splitting and joining mean -----

  function Join(sep: seq<nat>, pieces: seq<seq<nat>>): seq<nat> {
    if pieces == [] then [] else if |pieces| == 1 then pieces[0] else pieces[0] + sep + Join(sep, pieces[1..])
  }

  /** Place of the first c, or the length. */
  function First(s: seq<nat>, c: nat): (k: nat)
    ensures k <= |s| && c !in s[..k] && (k < |s| ==> s[k] == c)
    decreases |s|
  {
    if s == [] || s[0] == c then 0
    else
      var k := First(s[1..], c);
      assert s[..k + 1] == [s[0]] + s[1..][..k];
      k + 1
  }

  /** Number of places up to and including the last c. */
  function AfterLast(s: seq<nat>, c: nat): (k: nat)
    ensures k <= |s| && c !in s[k..] && (k > 0 ==> s[k - 1] == c)
    decreases |s|
  {
    if s == [] || s[|s| - 1] == c then |s|
    else
      var k := AfterLast(s[..|s| - 1], c);
      assert s[k..] == s[..|s| - 1][k..] + [s[|s| - 1]];
      k
  }

  function Count(s: seq<nat>, c: nat): nat
    decreases |s|
  {
    if s == [] then 0 else Count(s[..|s| - 1], c) + if s[|s| - 1] == c then 1 else 0
  }

  /** The pieces of a text from the left, at most `limit` splits; nothing is left after a last splitter. */
  function SplitText(s: seq<nat>, c: nat, limit: nat): (r: seq<seq<nat>>)
    ensures r != []
    decreases |s|
  {
    var k := First(s, c);
    if limit == 0 || k == |s| then [s]
    else if k + 1 == |s| then [s[..k]]
    else [s[..k]] + SplitText(s[k + 1..], c, limit - 1)
  }

  /** The pieces from the right; nothing is left before a first splitter. */
  function RSplitText(s: seq<nat>, c: nat, limit: nat): (r: seq<seq<nat>>)
    ensures r != []
    decreases |s|
  {
    var k := AfterLast(s, c);
    if limit == 0 || k == 0 then [s]
    else if k == 1 then [s[k..]]
    else RSplitText(s[..k - 1], c, limit - 1) + [s[k..]]
  }

  // ----- joining the pieces -----

  lemma {:induction false} CountConcat(a: seq<nat>, b: seq<nat>, c: nat)
    ensures Count(a + b, c) == Count(a, c) + Count(b, c)
    decreases |b|
  {
    if b == [] {
      assert a + b == a;
    } else {
      var n := |b| - 1;
      assert (a + b)[..|a + b| - 1] == a + b[..n];
      CountConcat(a, b[..n], c);
    }
  }

  lemma {:induction false} CountNone(s: seq<nat>, c: nat)
    requires c !in s
    ensures Count(s, c) == 0
    decreases |s|
  {
    if s != [] {
      CountNone(s[..|s| - 1], c);
    }
  }

  /** Cut at the first splitter. */
  lemma CutFirst(s: seq<nat>, c: nat)
    requires First(s, c) < |s|
    ensures var k := First(s, c);
            s == s[..k] + [c] + s[k + 1..] && Count(s, c) == 1 + Count(s[k + 1..], c)
  {
    var k := First(s, c);
    assert s == s[..k] + [c] + s[k + 1..];
    CountConcat(s[..k] + [c], s[k + 1..], c);
    CountConcat(s[..k], [c], c);
    CountNone(s[..k], c);
  }

  lemma CutLast(s: seq<nat>, c: nat)
    requires AfterLast(s, c) > 0
    ensures var k := AfterLast(s, c);
            s == s[..k - 1] + [c] + s[k..] && Count(s, c) == 1 + Count(s[..k - 1], c)
  {
    var k := AfterLast(s, c);
    assert s == s[..k - 1] + [c] + s[k..];
    CountConcat(s[..k - 1] + [c], s[k..], c);
    CountConcat(s[..k - 1], [c], c);
    CountNone(s[k..], c);
  }

  lemma JoinCons(sep: seq<nat>, p: seq<nat>, rest: seq<seq<nat>>)
    requires rest != []
    ensures Join(sep, [p] + rest) == p + sep + Join(sep, rest)
  {
    assert ([p] + rest)[1..] == rest;
  }

  lemma {:induction false} JoinSnoc(sep: seq<nat>, init: seq<seq<nat>>, p: seq<nat>)
    requires init != []
    ensures Join(sep, init + [p]) == Join(sep, init) + sep + p
    decreases |init|
  {
    assert (init + [p])[1..] == init[1..] + [p];
    if |init| > 1 {
      JoinSnoc(sep, init[1..], p);
      assert init[0] + sep + (Join(sep, init[1..]) + sep + p) == init[0] + sep + Join(sep, init[1..]) + sep + p;
    }
  }

  lemma NoneLeft(s: seq<nat>, c: nat, k: nat)
    requires k <= |s| && c !in s[..k] && k == |s|
    ensures c !in s
  {
    assert s[..k] == s;
  }

  /** The final splitter that splitting from the left loses: one that was split at. */
  function Dropped(s: seq<nat>, c: nat, limit: nat): seq<nat> {
    if s != [] && s[|s| - 1] == c && Count(s, c) <= limit then [c] else []
  }

  /** The leading splitter that splitting from the right loses. */
  function RDropped(s: seq<nat>, c: nat, limit: nat): seq<nat> {
    if s != [] && s[0] == c && Count(s, c) <= limit then [c] else []
  }

  /** One step of splitting from the left. */
  lemma SplitStep(s: seq<nat>, c: nat, limit: nat)
    ensures var k := First(s, c);
            if k == |s| then SplitText(s, c, limit) == [s] && Dropped(s, c, limit) == []
            else if limit == 0 then SplitText(s, c, limit) == [s] && Dropped(s, c, limit) == []
            else if k + 1 == |s| then SplitText(s, c, limit) == [s[..k]] && Dropped(s, c, limit) == [c]
            else
              && SplitText(s, c, limit) == [s[..k]] + SplitText(s[k + 1..], c, limit - 1)
              && Dropped(s, c, limit) == Dropped(s[k + 1..], c, limit - 1)
  {
    var k := First(s, c);
    if k == |s| {
      NoneLeft(s, c, k);
    } else {
      CutFirst(s, c);
      assert k + 1 < |s| ==> s[k + 1..][|s| - k - 2] == s[|s| - 1];
      assert k + 1 == |s| ==> s[k + 1..] == [];
    }
  }

  lemma RSplitStep(s: seq<nat>, c: nat, limit: nat)
    ensures var k := AfterLast(s, c);
            if k == 0 then RSplitText(s, c, limit) == [s] && RDropped(s, c, limit) == []
            else if limit == 0 then RSplitText(s, c, limit) == [s] && RDropped(s, c, limit) == []
            else if k == 1 then RSplitText(s, c, limit) == [s[k..]] && RDropped(s, c, limit) == [c]
            else
              && RSplitText(s, c, limit) == RSplitText(s[..k - 1], c, limit - 1) + [s[k..]]
              && RDropped(s, c, limit) == RDropped(s[..k - 1], c, limit - 1)
  {
    var k := AfterLast(s, c);
    if k == 0 {
      assert s[0..] == s;
    } else {
      CutLast(s, c);
      assert k == 1 ==> s[..k - 1] == [];
    }
  }

  lemma Regroup(s: seq<nat>, p: seq<nat>, c: seq<nat>, r: seq<nat>, j: seq<nat>, d: seq<nat>)
    requires s == p + c + r && r == j + d
    ensures s == p + c + j + d
  {
    assert p + c + (j + d) == p + c + j + d;
  }

  lemma RRegroup(s: seq<nat>, p: seq<nat>, c: seq<nat>, r: seq<nat>, j: seq<nat>, d: seq<nat>)
    requires s == r + c + p && r == d + j
    ensures s == d + (j + c + p)
  {
    assert d + j + c + p == d + (j + c + p);
  }

  lemma JoinOne(sep: seq<nat>, p: seq<nat>)
    ensures Join(sep, [p]) == p && p + [] == p && [] + p == p
  {
  }

  /** Joining gives the text back, less one final splitter exactly when the text ends in one that was split at. */
  lemma {:induction false} SplitJoins(s: seq<nat>, c: nat, limit: nat)
    ensures s == Join([c], SplitText(s, c, limit)) + Dropped(s, c, limit)
    decreases |s|
  {
    hide SplitText, Dropped, Join, Count, First;
    var k := First(s, c);
    SplitStep(s, c, limit);
    JoinOne([c], s);
    if k < |s| && limit > 0 {
      JoinOne([c], s[..k]);
      CutFirst(s, c);
      var r := s[k + 1..];
      if k + 1 < |s| {
        SplitJoins(r, c, limit - 1);
        JoinCons([c], s[..k], SplitText(r, c, limit - 1));
        Regroup(s, s[..k], [c], r, Join([c], SplitText(r, c, limit - 1)), Dropped(r, c, limit - 1));
      } else {
        assert s == s[..k] + [c];
      }
    }
  }

  /** From the right: less one leading splitter. */
  lemma {:induction false} RSplitJoins(s: seq<nat>, c: nat, limit: nat)
    ensures s == RDropped(s, c, limit) + Join([c], RSplitText(s, c, limit))
    decreases |s|
  {
    hide RSplitText, RDropped, Join, Count, AfterLast;
    var k := AfterLast(s, c);
    RSplitStep(s, c, limit);
    JoinOne([c], s);
    if k > 0 && limit > 0 {
      JoinOne([c], s[k..]);
      CutLast(s, c);
      var r := s[..k - 1];
      if k > 1 {
        RSplitJoins(r, c, limit - 1);
        JoinSnoc([c], RSplitText(r, c, limit - 1), s[k..]);
        RRegroup(s, s[k..], [c], r, Join([c], RSplitText(r, c, limit - 1)), RDropped(r, c, limit - 1));
      } else {
        assert s == [c] + s[k..];
      }
    }
  }

  /**
   At most limit + 1 pieces, and no more than the characters allow; only a piece left over when the limit is used up may
   contain the splitter.
   */
  lemma {:induction false} SplitPieces(s: seq<nat>, c: nat, limit: nat)
    ensures |SplitText(s, c, limit)| <= limit + 1 && |SplitText(s, c, limit)| <= |s| + 1
    ensures forall i :: 0 <= i < |SplitText(s, c, limit)| && i < limit ==> c !in SplitText(s, c, limit)[i]
    decreases |s|
  {
    hide SplitText, Dropped, Count;
    var k := First(s, c);
    SplitStep(s, c, limit);
    if k == |s| {
      NoneLeft(s, c, k);
    } else if limit > 0 && k + 1 < |s| {
      hide First;
      SplitPieces(s[k + 1..], c, limit - 1);
    }
  }

  /** One piece more than splitters, one fewer if the text ends in one, and never more than limit + 1. */
  lemma {:induction false} PieceCount(s: seq<nat>, c: nat, limit: nat)
    ensures |SplitText(s, c, limit)|
            == if Count(s, c) > limit then limit + 1
               else Count(s, c) + if s != [] && s[|s| - 1] == c then 0 else 1
    decreases |s|
  {
    hide SplitText, Dropped, Count;
    var k := First(s, c);
    SplitStep(s, c, limit);
    if k == |s| {
      NoneLeft(s, c, k);
      CountNone(s, c);
    } else {
      CutFirst(s, c);
      var rest := s[k + 1..];
      assert rest == [] ==> k == |s| - 1 && s[k] == c;
      assert rest != [] ==> rest[|rest| - 1] == s[|s| - 1];
      CountNone([], c);
      if limit > 0 && rest != [] {
        PieceCount(rest, c, limit - 1);
      }
    }
  }

  /** The same from the right, with a leading splitter. */
  lemma {:induction false} RPieceCount(s: seq<nat>, c: nat, limit: nat)
    ensures |RSplitText(s, c, limit)|
            == if Count(s, c) > limit then limit + 1
               else Count(s, c) + if s != [] && s[0] == c then 0 else 1
    decreases |s|
  {
    hide RSplitText, RDropped, Count;
    var k := AfterLast(s, c);
    RSplitStep(s, c, limit);
    if k == 0 {
      assert s[0..] == s;
      CountNone(s, c);
    } else {
      CutLast(s, c);
      var rest := s[..k - 1];
      assert rest == [] ==> k == 1 && s[0] == c;
      assert rest != [] ==> rest[0] == s[0];
      CountNone([], c);
      if limit > 0 && rest != [] {
        RPieceCount(rest, c, limit - 1);
      }
    }
  }

  lemma {:induction false} RSplitPieces(s: seq<nat>, c: nat, limit: nat)
    ensures |RSplitText(s, c, limit)| <= limit + 1 && |RSplitText(s, c, limit)| <= |s| + 1
    ensures forall i :: 0 <= i < |RSplitText(s, c, limit)| && |RSplitText(s, c, limit)| - i <= limit ==>
            c !in RSplitText(s, c, limit)[i]
    decreases |s|
  {
    hide RSplitText, RDropped, Count;
    var k := AfterLast(s, c);
    RSplitStep(s, c, limit);
    if k == 0 {
      assert s[0..] == s;
    } else if limit > 0 && k > 1 {
      hide AfterLast;
      RSplitPieces(s[..k - 1], c, limit - 1);
    }
  }

  /** A limit above the length is no limit: no piece contains the splitter. */
  lemma UnlimitedPieces(s: seq<nat>, c: nat, limit: nat)
    requires |s| < limit
    ensures forall p :: p in SplitText(s, c, limit) ==> c !in p
    ensures forall p :: p in RSplitText(s, c, limit) ==> c !in p
  {
    SplitPieces(s, c, limit);
    RSplitPieces(s, c, limit);
  }

  // ----- searching -----

  lemma {:induction false} WidthOfConcat(a: seq<nat>, b: seq<nat>)
    ensures TextWidth(a + b) == Max(TextWidth(a), TextWidth(b))
    decreases |b|
  {
    if b == [] {
      assert a + b == a;
    } else {
      var n := |b| - 1;
      assert (a + b)[..|a + b| - 1] == a + b[..n];
      WidthOfConcat(a, b[..n]);
    }
  }

  lemma WidthOfOne(c: nat)
    ensures TextWidth([c]) == CharSize(c) && CharSize(c) >= 1 && TextWidth([]) == 1 && CharSize(0) == 1
  {
    Pow256Values();
    CharSizeFits(c, 1);
    CharSizeFits(0, 1);
    assert [c][..0] == [];
  }

  /** One more character scanned, in either direction. */
  lemma WidthGrows(s: seq<nat>, c: nat, width: nat)
    requires CharSize(width) == TextWidth(s)
    ensures CharSize(BitOr(width, c)) == TextWidth(s + [c]) == TextWidth([c] + s)
  {
    hide TextWidth, CharSize, BitOr;
    CharSizeOfOr(width, c);
    WidthOfOne(c);
    WidthOfConcat(s, [c]);
    WidthOfConcat([c], s);
  }

  lemma NarrowText(s: seq<nat>)
    requires FitsWidth(s, 1)
    ensures TextWidth(s) == 1
  {
    TextWidthIsLeast(s, 1);
  }

  lemma FitsStretch(s: seq<nat>, w: nat, a: nat, b: nat)
    requires FitsWidth(s, w) && a <= b <= |s|
    ensures FitsWidth(s[a..b], w)
  {
  }

  lemma FirstIs(s: seq<nat>, c: nat, k: nat)
    requires k <= |s| && c !in s[..k] && (k < |s| ==> s[k] == c)
    ensures First(s, c) == k
  {
    hide First;
    var m := First(s, c);
    assert forall i :: 0 <= i < k ==> s[i] == s[..k][i] != c;
    assert forall i :: 0 <= i < m ==> s[i] == s[..m][i] != c;
  }

  lemma AfterLastIs(s: seq<nat>, c: nat, k: nat)
    requires k <= |s| && c !in s[k..] && (k > 0 ==> s[k - 1] == c)
    ensures AfterLast(s, c) == k
  {
    hide AfterLast;
    var m := AfterLast(s, c);
    assert forall i, j :: 0 <= i < |s| - k && j == k + i ==> s[j] == s[k..][i] != c;
    assert forall i, j :: 0 <= i < |s| - m && j == m + i ==> s[j] == s[m..][i] != c;
  }

  /** The code point that a search in a string of a width looks for: one byte of it when characters are bytes. */
  function Needle(sw: nat, c: nat): nat {
    if sw == 1 then c % 256 else c
  }

  /** Searching for the needle is searching for the code point exactly when it is not cut. */
  lemma NeedleExact(sw: nat, c: nat)
    requires Width(sw)
    ensures (forall s {:trigger First(s, c)} :: FitsWidth(s, sw) ==> First(s, Needle(sw, c)) == First(s, c)) <==>
            sw > 1 || c < 256
    ensures (forall s {:trigger AfterLast(s, c)} :: FitsWidth(s, sw) ==>
            AfterLast(s, Needle(sw, c)) == AfterLast(s, c)) <==> sw > 1 || c < 256
  {
    if sw == 1 && c >= 256 {
      Pow256Values();
      var s := [c % 256];
      FirstIs(s, c, 1);
      FirstIs(s, c % 256, 0);
      AfterLastIs(s, c, 0);
      AfterLastIs(s, c % 256, 1);
      assert FitsWidth(s, sw);
      assert First(s, Needle(sw, c)) != First(s, c) && AfterLast(s, Needle(sw, c)) != AfterLast(s, c);
    }
  }

  lemma NeedleOfFitting(sw: nat, c: nat)
    requires Width(sw) && CharSize(c) <= sw
    ensures Needle(sw, c) == c
  {
    Pow256Values();
    CharSizeFits(c, sw);
  }

  /** strchr2: the first of what is looked for from a position on, and the width of the characters looked at. */
  method StrChr2(sw: nat, src: seq<byte>, n: nat, from: nat, c: nat) returns (found: bool, at: nat, width: nat)
    requires Width(sw) && |src| == Bytes(sw, n) && from < n
    ensures at == from + First(CharsIn(sw, n, src)[from..], Needle(sw, c)) && (found <==> at < n)
    ensures width == TextWidth(CharsIn(sw, n, src)[from..if found then at + 1 else n])
  {
    hide *;
    var needle := Needle(sw, c);
    ghost var chars := CharsIn(sw, n, src);
    var acc := 0;
    at := from;
    StretchesFit(sw, n, src);
    ScanNothing(chars, from, needle);
    while at < n
      invariant from <= at <= n && needle !in chars[from..at]
      invariant CharSize(acc) == TextWidth(chars[from..at])
    {
      CharThere(sw, n, src, at);
      var x := GetChar(sw, src, Bytes(sw, at));
      WidthGrows(chars[from..at], x, acc);
      ScanOne(chars, from, at, needle);
      acc := BitOr(acc, x);
      if x == needle {
        FirstFrom(chars, from, at, needle);
        width := WidthFound(sw, acc, chars[from..at + 1]);
        return true, at, width;
      }
      at := at + 1;
    }
    FirstFrom(chars, from, at, needle);
    width := WidthFound(sw, acc, chars[from..n]);
    found := false;
  }

  /** Strings of one byte per character do not track the width. */
  method WidthFound(sw: nat, acc: nat, ghost scanned: seq<nat>) returns (width: nat)
    requires Width(sw) && CharSize(acc) == TextWidth(scanned) && FitsWidth(scanned, sw)
    ensures width == TextWidth(scanned)
  {
    hide CharSize, TextWidth;
    if sw == 1 {
      NarrowText(scanned);
      width := 1;
    } else {
      width := CharSize(acc);
    }
  }

  lemma ScanNothing(s: seq<nat>, p: nat, c: nat)
    requires p <= |s|
    ensures c !in s[p..p] && TextWidth(s[p..p]) == 1 == CharSize(0)
  {
    WidthOfOne(0);
    assert s[p..p] == [];
  }

  lemma CharThere(sw: nat, n: nat, src: seq<byte>, k: nat)
    requires Width(sw) && |src| == Bytes(sw, n) && k < n
    ensures Bytes(sw, k) + sw <= |src| && GetChar(sw, src, Bytes(sw, k)) == CharsIn(sw, n, src)[k]
  {
    CharsAt(sw, n, src, k);
  }

  lemma StretchesFit(sw: nat, n: nat, src: seq<byte>)
    requires Width(sw) && |src| == Bytes(sw, n)
    ensures forall a, b :: 0 <= a <= b <= n ==> FitsWidth(CharsIn(sw, n, src)[a..b], sw)
  {
    hide CharsIn;
    forall a, b | 0 <= a <= b <= n
      ensures FitsWidth(CharsIn(sw, n, src)[a..b], sw)
    {
      FitsStretch(CharsIn(sw, n, src), sw, a, b);
    }
  }

  lemma ScanOne(s: seq<nat>, a: nat, k: nat, c: nat)
    requires a <= k < |s| && c !in s[a..k]
    ensures s[a..k + 1] == s[a..k] + [s[k]] && (s[k] != c ==> c !in s[a..k + 1])
  {
  }

  lemma FirstFrom(s: seq<nat>, a: nat, k: nat, c: nat)
    requires a <= k <= |s| && c !in s[a..k] && (k < |s| ==> s[k] == c)
    ensures First(s[a..], c) == k - a
  {
    hide First;
    assert s[a..][..k - a] == s[a..k];
    FirstIs(s[a..], c, k - a);
  }

  /** strrchr2: the last of what is looked for before a position, and the width of the characters looked at. */
  method StrRChr2(sw: nat, src: seq<byte>, n: nat, end: nat, c: nat) returns (found: bool, at: nat, width: nat)
    requires Width(sw) && |src| == Bytes(sw, n) && 0 < end <= n
    ensures found <==> AfterLast(CharsIn(sw, n, src)[..end], Needle(sw, c)) > 0
    ensures found ==> at + 1 == AfterLast(CharsIn(sw, n, src)[..end], Needle(sw, c))
    ensures width == TextWidth(CharsIn(sw, n, src)[if found then at else 0..end])
  {
    hide *;
    var needle := Needle(sw, c);
    ghost var chars := CharsIn(sw, n, src);
    var acc := 0;
    at := end;
    StretchesFit(sw, n, src);
    ScanNothing(chars, end, needle);
    while at > 0
      invariant at <= end && needle !in chars[at..end]
      invariant CharSize(acc) == TextWidth(chars[at..end])
    {
      at := at - 1;
      CharThere(sw, n, src, at);
      var x := GetChar(sw, src, Bytes(sw, at));
      WidthGrows(chars[at + 1..end], x, acc);
      ScanOneBack(chars, at, end, needle);
      acc := BitOr(acc, x);
      if x == needle {
        LastUpTo(chars, at + 1, end, needle);
        width := WidthFound(sw, acc, chars[at..end]);
        return true, at, width;
      }
    }
    LastUpTo(chars, 0, end, needle);
    width := WidthFound(sw, acc, chars[0..end]);
    found := false;
  }

  lemma ScanOneBack(s: seq<nat>, k: nat, b: nat, c: nat)
    requires k < b <= |s| && c !in s[k + 1..b]
    ensures s[k..b] == [s[k]] + s[k + 1..b] && (s[k] != c ==> c !in s[k..b])
  {
  }

  lemma LastUpTo(s: seq<nat>, k: nat, b: nat, c: nat)
    requires k <= b <= |s| && c !in s[k..b] && (k > 0 ==> s[k - 1] == c)
    ensures AfterLast(s[..b], c) == k
  {
    hide AfterLast;
    assert s[..b][k..] == s[k..b];
    AfterLastIs(s[..b], c, k);
  }

  // ----- splitting -----

  const UINT_MAX: nat := 0xFFFF_FFFF

  /** The characters from a to b, copied one by one. */
  method ReadChars(sw: nat, src: seq<byte>, n: nat, a: nat, b: nat) returns (piece: seq<nat>)
    requires Width(sw) && |src| == Bytes(sw, n) && a <= b <= n
    ensures piece == CharsIn(sw, n, src)[a..b]
  {
    hide *;
    ghost var chars := CharsIn(sw, n, src);
    piece := [];
    var k := a;
    assert chars[a..a] == [];
    while k < b
      invariant a <= k <= b && piece == chars[a..k]
    {
      CharThere(sw, n, src, k);
      assert chars[a..k + 1] == chars[a..k] + [chars[k]];
      piece := piece + [GetChar(sw, src, Bytes(sw, k))];
      k := k + 1;
    }
  }

  /** What a piece needs, or what it needs together with the splitter next to it. */
  predicate WidthFor(p: seq<nat>, w: nat, c: nat) {
    w == TextWidth(p) || w == Max(TextWidth(p), CharSize(c))
  }

  /** Widths asked for the pieces; the piece left over at the limit starts at one byte. */
  ghost predicate WidthsSuffice(pieces: seq<seq<nat>>, widths: seq<nat>, c: nat, left: int) {
    && |widths| == |pieces|
    && forall i :: 0 <= i < |pieces| ==> WidthFor(pieces[i], widths[i], c) || (i == left && widths[i] == 1)
  }

  lemma NoWidths(c: nat, left: int)
    ensures WidthsSuffice([], [], c, left) && RWidthsSuffice([], [], c, left)
  {
  }

  lemma WidthsMore(pieces: seq<seq<nat>>, widths: seq<nat>, p: seq<nat>, w: nat, c: nat, left: int)
    requires WidthsSuffice(pieces, widths, c, left)
    requires WidthFor(p, w, c) || (|pieces| == left && w == 1)
    ensures WidthsSuffice(pieces + [p], widths + [w], c, left)
  {
    hide WidthFor;
  }

  lemma RWidthsMore(pieces: seq<seq<nat>>, widths: seq<nat>, p: seq<nat>, w: nat, c: nat, left: int)
    requires RWidthsSuffice(pieces, widths, c, left)
    requires WidthFor(p, w, c) || (|pieces| == left && w == 1)
    ensures RWidthsSuffice([p] + pieces, [w] + widths, c, left)
  {
    hide WidthFor;
    var ps, ws := [p] + pieces, [w] + widths;
    forall i | 0 <= i < |ps|
      ensures WidthFor(ps[i], ws[i], c) || (|ps| - 1 - i == left && ws[i] == 1)
    {
      if i > 0 {
        assert ps[i] == pieces[i - 1] && ws[i] == widths[i - 1];
      }
    }
  }

  /** The width of a stretch and a splitter next to it. */
  lemma WidthOfStretch(s: seq<nat>, a: nat, b: nat, a': nat, b': nat, c: nat)
    requires a' <= a <= b <= b' <= |s| && (b - a) + 1 >= b' - a'
    requires a' < a ==> s[a'] == c
    requires b < b' ==> s[b] == c
    ensures WidthFor(s[a..b], TextWidth(s[a'..b']), c)
  {
    OneWidth(c);
    hide TextWidth, CharSize;
    if a' < a {
      WidthOfConcat([c], s[a..b]);
      assert s[a'..b'] == [c] + s[a..b];
    } else if b < b' {
      WidthOfConcat(s[a..b], [c]);
      assert s[a'..b'] == s[a..b] + [c];
    }
  }

  lemma OneWidth(c: nat)
    ensures TextWidth([c]) == CharSize(c)
    ensures forall s :: TextWidth(s) >= 1
  {
    assert [c][..0] == [];
  }

  /** pw_string_split_chr. */
  method SplitChr(sw: nat, src: seq<byte>, n: nat, c: nat, maxsplit: nat)
    returns (pieces: seq<seq<nat>>, widths: seq<nat>)
    requires Width(sw) && |src| == Bytes(sw, n)
    ensures pieces == SplitText(CharsIn(sw, n, src), c, if maxsplit == 0 then UINT_MAX else maxsplit)
    ensures WidthsSuffice(pieces, widths, c, if maxsplit == 0 then UINT_MAX else maxsplit)
            || (|pieces| == 1 && widths == [sw])
  {
    hide SplitText, CharsIn, GetChar, CharSize, TextWidth, First, Bytes, WidthsSuffice;
    ghost var chars := CharsIn(sw, n, src);
    var all := ReadChars(sw, src, n, 0, n);
    WholeSlice(chars);
    WholeIsOne(chars, sw, c, if maxsplit == 0 then UINT_MAX else maxsplit);
    if sw < CharSize(c) {
      return [all], [sw];
    }
    NeedleOfFitting(sw, c);
    var limit: nat := if maxsplit == 0 then UINT_MAX else maxsplit;
    if n == 0 {
      return [all], [sw];
    }
    ghost var limit0 := limit;
    pieces, widths := [], [];
    NoWidths(c, limit);
    var p := 0;
    WholeRest(chars, c, limit);
    while p < n
      invariant if p < n then |pieces| + limit == limit0 && SplitText(chars, c, limit0) == pieces
                + SplitText(chars[p..], c, limit)
                else SplitText(chars, c, limit0) == pieces
      invariant WidthsSuffice(pieces, widths, c, limit0)
      decreases n - p
    {
      PieceStep(chars, p, c, limit);
      var end, width := n, 1;
      if limit > 0 {
        limit := limit - 1;
        var found, at, w := StrChr2(sw, src, n, p, c);
        end, width := at, w;
        assert found ==> chars[p..][at - p] == chars[at] == c;
        WidthOfStretch(chars, p, end, p, if found then at + 1 else n, c);
      }
      var piece := ReadChars(sw, src, n, p, end);
      Longer(pieces, piece, if end + 1 < n then SplitText(chars[end + 1..], c, limit) else []);
      WidthsMore(pieces, widths, piece, width, c, limit0);
      pieces, widths := pieces + [piece], widths + [width];
      p := end + 1;
    }
  }

  lemma WholeRest(s: seq<nat>, c: nat, limit: nat)
    ensures s[0..] == s && [] + SplitText(s, c, limit) == SplitText(s, c, limit)
  {
  }

  lemma Longer(pieces: seq<seq<nat>>, p: seq<nat>, rest: seq<seq<nat>>)
    ensures pieces + ([p] + rest) == pieces + [p] + rest && [p] + [] == [p] && pieces + [p] + [] == pieces + [p]
  {
  }

  /** A text without the splitter, or too narrow for it, is one piece. */
  lemma WholeIsOne(s: seq<nat>, sw: nat, c: nat, limit: nat)
    requires FitsWidth(s, sw) && sw >= 1
    ensures s == [] || sw < CharSize(c) ==> SplitText(s, c, limit) == [s] == RSplitText(s, c, limit)
  {
    CharSizeFits(c, sw);
    if s == [] || sw < CharSize(c) {
      FirstIs(s, c, |s|);
      assert s[|s|..] == [];
      AfterLastIs(s, c, 0);
    }
  }

  /** The next piece is the stretch up to the next splitter, or everything at the limit. */
  lemma PieceStep(s: seq<nat>, p: nat, c: nat, limit: nat)
    requires p < |s|
    ensures var end := if limit == 0 then |s| else p + First(s[p..], c);
            && p <= end <= |s|
            && SplitText(s[p..], c, limit) == [s[p..end]] + if end + 1 < |s| then SplitText(s[end + 1..], c, limit - 1)
                else []
  {
    hide SplitText, First;
    var k := First(s[p..], c);
    SplitStep(s[p..], c, limit);
    assert s[p..][..k] == s[p..p + k];
    assert s[p..|s|] == s[p..];
    if k + 1 < |s| - p {
      assert s[p..][k + 1..] == s[p + k + 1..];
    }
  }

  ghost predicate RWidthsSuffice(pieces: seq<seq<nat>>, widths: seq<nat>, c: nat, left: int) {
    && |widths| == |pieces|
    && forall i :: 0 <= i < |pieces| ==>
        WidthFor(pieces[i], widths[i], c) || (|pieces| - 1 - i == left && widths[i] == 1)
  }

  /** pw_string_rsplit_chr. */
  method RSplitChr(sw: nat, src: seq<byte>, n: nat, c: nat, maxsplit: nat)
    returns (pieces: seq<seq<nat>>, widths: seq<nat>)
    requires Width(sw) && |src| == Bytes(sw, n)
    ensures pieces == RSplitText(CharsIn(sw, n, src), c, if maxsplit == 0 then UINT_MAX else maxsplit)
    ensures RWidthsSuffice(pieces, widths, c, if maxsplit == 0 then UINT_MAX else maxsplit)
            || (|pieces| == 1 && widths == [sw])
  {
    hide RSplitText, CharsIn, GetChar, CharSize, TextWidth, AfterLast, Bytes, RWidthsSuffice;
    ghost var chars := CharsIn(sw, n, src);
    var all := ReadChars(sw, src, n, 0, n);
    WholeSlice(chars);
    WholeIsOne(chars, sw, c, if maxsplit == 0 then UINT_MAX else maxsplit);
    if sw < CharSize(c) {
      return [all], [sw];
    }
    NeedleOfFitting(sw, c);
    var limit: nat := if maxsplit == 0 then UINT_MAX else maxsplit;
    if n == 0 {
      return [all], [sw];
    }
    ghost var limit0 := limit;
    pieces, widths := [], [];
    NoWidths(c, limit);
    var e: int := n;
    RWholeRest(chars, c, limit);
    while e > 0
      invariant -1 <= e <= n
      invariant if e > 0 then |pieces| + limit == limit0
                && RSplitText(chars, c, limit0) == RSplitText(chars[..e], c, limit) + pieces
                else RSplitText(chars, c, limit0) == pieces
      invariant RWidthsSuffice(pieces, widths, c, limit0)
      decreases e
    {
      RPieceStep(chars, e, c, limit);
      var start: int, width: nat := 0, 1;
      if limit > 0 {
        limit := limit - 1;
        var found, at, w := StrRChr2(sw, src, n, e, c);
        start, width := if found then at + 1 else 0, w;
        assert found ==> chars[..e][at] == chars[at] == c;
        WidthOfStretch(chars, start, e, if found then at else 0, e, c);
      }
      var piece := ReadChars(sw, src, n, start, e);
      RLonger(pieces, piece, if start > 1 then RSplitText(chars[..start - 1], c, limit) else []);
      RWidthsMore(pieces, widths, piece, width, c, limit0);
      pieces, widths := [piece] + pieces, [width] + widths;
      e := -1 + start;
    }
  }

  lemma RWholeRest(s: seq<nat>, c: nat, limit: nat)
    ensures s[..|s|] == s && RSplitText(s, c, limit) + [] == RSplitText(s, c, limit)
  {
  }

  lemma RLonger(pieces: seq<seq<nat>>, p: seq<nat>, rest: seq<seq<nat>>)
    ensures rest + [p] + pieces == rest + ([p] + pieces) && [] + ([p] + pieces) == [p] + pieces
  {
  }

  lemma RPieceStep(s: seq<nat>, e: nat, c: nat, limit: nat)
    requires 0 < e <= |s|
    ensures var start := if limit == 0 then 0 else AfterLast(s[..e], c);
            && start <= e
            && RSplitText(s[..e], c, limit) == (if start > 1 then RSplitText(s[..start - 1], c, limit - 1) else [])
                + [s[start..e]]
  {
    hide RSplitText, AfterLast;
    var k := AfterLast(s[..e], c);
    RSplitStep(s[..e], c, limit);
    assert s[..e][k..] == s[k..e] && s[0..e] == s[..e];
    if k > 1 {
      assert s[..e][..k - 1] == s[..k - 1];
    }
  }

  // ----- joining -----

  /** What _pw_array_join makes of its items: those that are not strings are skipped, but count as a place. */
  function JoinItems(sep: seq<nat>, items: seq<Option<seq<nat>>>): seq<nat>
    decreases |items|
  {
    if items == [] then []
    else
      var i := |items| - 1;
      JoinItems(sep, items[..i]) + match items[i] case None => [] case Some(t) => (if i > 0 then sep else []) + t
  }

  function AllStrings(pieces: seq<seq<nat>>): (items: seq<Option<seq<nat>>>)
    ensures |items| == |pieces| && forall i :: 0 <= i < |items| ==> items[i] == Some(pieces[i])
  {
    seq(|pieces|, i requires 0 <= i < |pieces| => Some(pieces[i]))
  }

  /** Joining strings only is joining. */
  lemma {:induction false} JoinOfStrings(sep: seq<nat>, pieces: seq<seq<nat>>)
    ensures JoinItems(sep, AllStrings(pieces)) == Join(sep, pieces)
    decreases |pieces|
  {
    if pieces != [] {
      var n := |pieces| - 1;
      var items := AllStrings(pieces);
      JoinOfStrings(sep, pieces[..n]);
      assert items[..n] == AllStrings(pieces[..n]);
      assert pieces == pieces[..n] + [pieces[n]];
      if n > 0 {
        JoinSnoc(sep, pieces[..n], pieces[n]);
        assert Join(sep, pieces[..n]) + (sep + pieces[n]) == Join(sep, pieces[..n]) + sep + pieces[n];
      } else {
        assert items[..0] == [];
        JoinOne(sep, pieces[0]);
      }
    }
  }

  /** The items that are strings. */
  function Strings(items: seq<Option<seq<nat>>>): seq<seq<nat>>
    decreases |items|
  {
    if items == [] then []
    else
      var i := |items| - 1;
      Strings(items[..i]) + match items[i] case None => [] case Some(t) => [t]
  }

  /** Joining any items is joining the strings, behind a separator if something else comes first. */
  lemma {:induction false} JoinSkips(sep: seq<nat>, items: seq<Option<seq<nat>>>)
    ensures JoinItems(sep, items)
            == (if Strings(items) != [] && items[0].None? then sep else []) + Join(sep, Strings(items))
    decreases |items|
  {
    if items != [] {
      var i := |items| - 1;
      var strings := Strings(items[..i]);
      JoinSkips(sep, items[..i]);
      if items[i].Some? {
        var t := items[i].value;
        var lead := if strings != [] && items[0].None? then sep else [];
        JoinOne(sep, t);
        if strings != [] {
          JoinSnoc(sep, strings, t);
          assert lead + Join(sep, strings) + (sep + t) == lead + (Join(sep, strings) + sep + t);
        } else {
          FirstString(items[..i]);
          assert Join(sep, []) == [] && [] + [t] == [t];
        }
      } else {
        assert strings + [] == strings;
      }
    }
  }

  lemma {:induction false} FirstString(items: seq<Option<seq<nat>>>)
    requires Strings(items) == []
    ensures items == [] || items[0].None?
    decreases |items|
  {
    if |items| > 1 {
      FirstString(items[..|items| - 1]);
    }
  }

  /** The sum of lengths computed before joining. */
  function JoinedRoom(sep: seq<nat>, items: seq<Option<seq<nat>>>): nat
    decreases |items|
  {
    if items == [] then 0
    else
      var i := |items| - 1;
      JoinedRoom(sep, items[..i]) + (if i > 0 then |sep| else 0) + match items[i] case None => 0 case Some(t) => |t|
  }

  /**
   The room computed, in 32 bits, is enough and the exact one, for strings only, if and only if the sum does not wrap.
   */
  lemma RoomSuffices(sep: seq<nat>, items: seq<Option<seq<nat>>>)
    ensures JoinedRoom(sep, items) < TWO_32 ==> |JoinItems(sep, items)| <= U32(JoinedRoom(sep, items))
    ensures (forall i :: 0 <= i < |items| ==> items[i].Some?) ==>
              && (|JoinItems(sep, items)| <= U32(JoinedRoom(sep, items)) <==> JoinedRoom(sep, items) < TWO_32)
              && (|JoinItems(sep, items)| == U32(JoinedRoom(sep, items)) <==> JoinedRoom(sep, items) < TWO_32)
  {
    RoomSum(sep, items);
  }

  lemma {:induction false} RoomSum(sep: seq<nat>, items: seq<Option<seq<nat>>>)
    ensures |JoinItems(sep, items)| <= JoinedRoom(sep, items)
    ensures (forall i :: 0 <= i < |items| ==> items[i].Some?) ==> |JoinItems(sep, items)| == JoinedRoom(sep, items)
    decreases |items|
  {
    if items != [] {
      RoomSum(sep, items[..|items| - 1]);
    }
  }

  /** _pw_array_join: a single item is returned as it is, two passes over the items otherwise. */
  method ArrayJoin(sep: seq<nat>, items: seq<Option<seq<nat>>>) returns (r: seq<nat>)
    ensures r == JoinItems(sep, items)
  {
    hide JoinItems;
    NoItems(sep);
    if |items| == 0 {
      return [];
    }
    if |items| == 1 {
      SingleItem(sep, items);
      return if items[0].Some? then items[0].value else [];
    }
    var room := JoinRoom(sep, items);
    RoomSuffices(sep, items);
    hide JoinedRoom;
    r := [];
    var i := 0;
    while i < |items|
      invariant i <= |items| && r == JoinItems(sep, items[..i])
    {
      JoinItemsStep(sep, items, i);
      if items[i].Some? {
        if i > 0 {
          r := r + sep;
        }
        r := r + items[i].value;
      }
      i := i + 1;
    }
    assert items[..i] == items;
    assert JoinedRoom(sep, items) < TWO_32 ==> |r| <= room;
  }

  /** The first pass over the items. */
  method JoinRoom(sep: seq<nat>, items: seq<Option<seq<nat>>>) returns (room: nat)
    ensures room == U32(JoinedRoom(sep, items))
  {
    room := 0;
    var i := 0;
    while i < |items|
      invariant i <= |items| && room == U32(JoinedRoom(sep, items[..i]))
    {
      ghost var sum := JoinedRoom(sep, items[..i]);
      JoinedRoomStep(sep, items, i);
      hide *;
      if i > 0 {
        AddCut(sum, |sep|);
        room, sum := U32(room + |sep|), sum + |sep|;
      }
      if items[i].Some? {
        AddCut(sum, |items[i].value|);
        room := U32(room + |items[i].value|);
      }
      i := i + 1;
    }
    assert items[..i] == items;
  }

  /** One more item counted. */
  lemma JoinedRoomStep(sep: seq<nat>, items: seq<Option<seq<nat>>>, i: nat)
    requires i < |items|
    ensures JoinedRoom(sep, items[..i + 1])
            == JoinedRoom(sep, items[..i]) + (if i > 0 then |sep| else 0)
               + (if items[i].Some? then |items[i].value| else 0)
  {
    assert items[..i + 1][..i] == items[..i];
  }

  /** Cutting a sum to 32 bits early or late is the same. */
  lemma AddCut(a: nat, b: nat)
    ensures U32(U32(a) + b) == U32(a + b)
  {
  }

  /** One more item joined. */
  lemma JoinItemsStep(sep: seq<nat>, items: seq<Option<seq<nat>>>, i: nat)
    requires i < |items|
    ensures var before, after := JoinItems(sep, items[..i]), JoinItems(sep, items[..i + 1]);
            match items[i]
            case None => after == before
            case Some(t) => after == (if i > 0 then before + sep + t else before + t)
  {
    assert items[..i + 1][..i] == items[..i];
    var before := JoinItems(sep, items[..i]);
    if items[i].Some? {
      JoinNext(before, sep, items[i].value);
    } else {
      assert before + [] == before;
    }
  }

  lemma NoItems(sep: seq<nat>)
    ensures JoinItems(sep, []) == []
  {
  }

  lemma SingleItem(sep: seq<nat>, items: seq<Option<seq<nat>>>)
    requires |items| == 1
    ensures JoinItems(sep, items) == if items[0].Some? then items[0].value else []
  {
    JoinItemsStep(sep, items, 0);
    assert items[..1] == items && items[..0] == [];
    assert items[0].Some? ==> [] + items[0].value == items[0].value;
  }

  lemma JoinNext(a: seq<nat>, sep: seq<nat>, t: seq<nat>)
    ensures a + (sep + t) == a + sep + t && a + ([] + t) == a + t
  {
  }

  /** Splitting and joining with the same character: the text again, less the splitter dropped at the end. */
  method SplitThenJoin(sw: nat, src: seq<byte>, n: nat, c: nat, maxsplit: nat, reverse: bool) returns (r: seq<nat>)
    requires Width(sw) && |src| == Bytes(sw, n)
    ensures var s, limit := CharsIn(sw, n, src), if maxsplit == 0 then UINT_MAX else maxsplit;
            s == if reverse then RDropped(s, c, limit) + r else r + Dropped(s, c, limit)
  {
    hide SplitText, RSplitText, CharsIn, Dropped, RDropped, Join, JoinItems, WidthsSuffice, RWidthsSuffice;
    ghost var s, limit := CharsIn(sw, n, src), if maxsplit == 0 then UINT_MAX else maxsplit;
    var pieces, widths;
    if reverse {
      pieces, widths := RSplitChr(sw, src, n, c, maxsplit);
      RSplitJoins(s, c, limit);
    } else {
      pieces, widths := SplitChr(sw, src, n, c, maxsplit);
      SplitJoins(s, c, limit);
    }
    JoinOfStrings([c], pieces);
    r := ArrayJoin([c], AllStrings(pieces));
  }
}

/** Widths of code points (src/string/pw_string_internal.h:157-170). */
module CharSizes {
  import opened Radix

  /** 32 less the leading zeros of x. */
  function BitLength(x: nat): nat {
    if x == 0 then 0 else 1 + BitLength(x / 2)
  }

  /** calc_char_size: the bytes that the significant bits of c | 1 fill. */
  function CharSize(c: nat): nat {
    (BitLength(BitOr(c, 1)) + 7) / 8
  }

  lemma {:induction false} BitLengthFits(x: nat, k: nat)
    ensures BitLength(x) <= k <==> x < Pow2(k)
  {
    if x != 0 && k != 0 {
      BitLengthFits(x / 2, k - 1);
    }
  }

  lemma {:induction false} Pow2Is256(w: nat)
    ensures Pow2(8 * w) == Pow256(w)
  {
    if w > 0 {
      Pow2Is256(w - 1);
      var k := 8 * w;
      assert Pow2(k) == 4 * Pow2(k - 2) && Pow2(k - 2) == 4 * Pow2(k - 4);
      assert Pow2(k - 4) == 4 * Pow2(k - 6) && Pow2(k - 6) == 4 * Pow2(k - 8);
    }
  }

  /** A width of w bytes is enough exactly for the code points below 256^w. */
  lemma CharSizeFits(c: nat, w: nat)
    requires w >= 1
    ensures CharSize(c) <= w <==> c < Pow256(w)
    ensures CharSize(c) >= 1
  {
    BitLengthFits(BitOr(c, 1), 8 * w);
    OrFits(c, 1, 8 * w);
    Pow2Is256(w);
    Pow2Monotone(1, 8 * w);
    BitLengthFits(BitOr(c, 1), 0);
    OrFits(c, 1, 0);
  }

  /** The widths spelled out. */
  lemma CharSizeValues(c: nat)
    requires c < TWO_32
    ensures CharSize(c) == if c < 0x100 then 1 else if c < 0x1_0000 then 2 else if c < 0x100_0000 then 3 else 4
  {
    Pow256Values();
    CharSizeFits(c, 1);
    CharSizeFits(c, 2);
    CharSizeFits(c, 3);
    CharSizeFits(c, 4);
  }

  function Max(a: nat, b: nat): nat {
    if a >= b then a else b
  }

  /** Or-ing code points together and taking the width gives the widest one's width. */
  lemma CharSizeOfOr(a: nat, b: nat)
    ensures CharSize(BitOr(a, b)) == Max(CharSize(a), CharSize(b))
  {
    var m := CharSize(BitOr(a, b));
    var n := Max(CharSize(a), CharSize(b));
    CharSizeFits(a, 1);
    CharSizeFits(BitOr(a, b), 1);
    OrWidth(a, b, m);
    OrWidth(a, b, n);
  }

  lemma OrWidth(a: nat, b: nat, w: nat)
    requires w >= 1
    ensures CharSize(BitOr(a, b)) <= w <==> CharSize(a) <= w && CharSize(b) <= w
  {
    CharSizeFits(a, w);
    CharSizeFits(b, w);
    CharSizeFits(BitOr(a, b), w);
    OrFits(a, b, 8 * w);
    Pow2Is256(w);
  }

  /** The least width that holds every character of a text; 1 for the empty text. */
  function TextWidth(s: seq<nat>): (w: nat)
    ensures w >= 1
    decreases |s|
  {
    if s == [] then 1 else Max(TextWidth(s[..|s| - 1]), CharSize(s[|s| - 1]))
  }

  predicate FitsWidth(s: seq<nat>, w: nat) {
    forall i :: 0 <= i < |s| ==> s[i] < Pow256(w)
  }

  /** The text width is the least width in which the text fits. */
  lemma {:induction false} TextWidthIsLeast(s: seq<nat>, w: nat)
    requires w >= 1
    ensures TextWidth(s) <= w <==> FitsWidth(s, w)
    decreases |s|
  {
    if s != [] {
      var n := |s| - 1;
      TextWidthIsLeast(s[..n], w);
      CharSizeFits(s[n], w);
      assert forall i :: 0 <= i < |s| ==> (if i < n then s[i] == s[..n][i] else i == n);
    }
  }

  /** Once the first k characters fit a width, only the rest decide whether a greater one is needed. */
  lemma TextWidthOfRest(s: seq<nat>, k: nat, w: nat)
    requires k <= |s| && w >= 1 && FitsWidth(s[..k], w)
    ensures Max(w, TextWidth(s)) == Max(w, TextWidth(s[k..]))
  {
    RestDecides(s, k, w, Max(w, TextWidth(s)));
    RestDecides(s, k, w, Max(w, TextWidth(s[k..])));
  }

  lemma RestDecides(s: seq<nat>, k: nat, w: nat, m: nat)
    requires k <= |s| && 1 <= w <= m && FitsWidth(s[..k], w)
    ensures TextWidth(s) <= m <==> TextWidth(s[k..]) <= m
  {
    hide TextWidth;
    TextWidthIsLeast(s, m);
    TextWidthIsLeast(s[k..], m);
    TextWidthIsLeast(s[..k], w);
    TextWidthIsLeast(s[..k], m);
    hide Pow256;
    assert s == s[..k] + s[k..];
    assert forall i :: 0 <= i < |s| - k ==> s[k..][i] == s[k + i];
  }
}

/** Bytes, bit arithmetic on natural numbers, and runs of fixed-width integers packed into bytes. */
module Radix {

  type byte = x: int | 0 <= x < 256

  const TWO_32: nat := 0x1_0000_0000
  const TWO_64: nat := 0x1_0000_0000_0000_0000

  /** The unsigned 32-bit value C arithmetic leaves behind. */
  function U32(x: int): (r: nat)
    ensures r < TWO_32
    ensures 0 <= x < TWO_32 ==> r == x
  {
    x % TWO_32
  }

  /** The unsigned 64-bit value C arithmetic leaves behind. */
  function U64(x: nat): (r: nat)
    ensures r < TWO_64
    ensures x < TWO_64 ==> r == x
  {
    x % TWO_64
  }

  function Pow2(k: nat): (p: nat)
    ensures p >= 1
  {
    if k == 0 then 1 else 2 * Pow2(k - 1)
  }

  function Pow256(k: nat): (p: nat)
    ensures p >= 1
  {
    if k == 0 then 1 else 256 * Pow256(k - 1)
  }

  /** 256^k for the item and character widths that occur. */
  lemma Pow256Values()
    ensures Pow256(1) == 0x100 && Pow256(2) == 0x1_0000
    ensures Pow256(3) == 0x100_0000 && Pow256(4) == TWO_32
  {
    assert Pow256(1) == 256 * Pow256(0);
    assert Pow256(2) == 256 * Pow256(1);
    assert Pow256(3) == 256 * Pow256(2);
    assert Pow256(4) == 256 * Pow256(3);
  }

  lemma {:induction false} Pow2Monotone(a: nat, b: nat)
    requires a <= b
    ensures Pow2(a) <= Pow2(b)
    ensures a < b ==> 2 * Pow2(a) <= Pow2(b)
    decreases b - a
  {
    if a < b {
      Pow2Monotone(a + 1, b);
    }
  }

  // ----- bitwise operators -----

  /** C's `a & b`. */
  function BitAnd(a: nat, b: nat): nat
    decreases a
  {
    if a == 0 || b == 0 then 0
    else 2 * BitAnd(a / 2, b / 2) + (if a % 2 == 1 && b % 2 == 1 then 1 else 0)
  }

  /** C's `a | b`. */
  function BitOr(a: nat, b: nat): nat
    decreases a + b
  {
    if a == 0 && b == 0 then 0
    else 2 * BitOr(a / 2, b / 2) + (if a % 2 == 1 || b % 2 == 1 then 1 else 0)
  }

  /** x modulo m, by repeated subtraction. */
  function Remainder(x: nat, m: nat): (r: nat)
    requires m > 0
    ensures r < m
  {
    if x < m then x else Remainder(x - m, m)
  }

  lemma {:induction false} RemainderHalves(x: nat, m: nat)
    requires m > 0
    ensures Remainder(x, 2 * m) == 2 * Remainder(x / 2, m) + x % 2
  {
    if x >= 2 * m {
      RemainderHalves(x - 2 * m, m);
      assert (x - 2 * m) / 2 == x / 2 - m;
    }
  }

  /** Masking with one less than a power of two is the remainder. */
  lemma {:induction false} AndMask(x: nat, k: nat)
    ensures BitAnd(x, Pow2(k) - 1) == Remainder(x, Pow2(k))
    decreases k
  {
    if k == 0 {
      RemainderByOne(x);
    } else {
      var m := Pow2(k - 1);
      AndMask(x / 2, k - 1);
      assert (2 * m - 1) / 2 == m - 1 && (2 * m - 1) % 2 == 1;
      RemainderHalves(x, m);
    }
  }

  lemma {:induction false} RemainderByOne(x: nat)
    ensures Remainder(x, 1) == 0
  {
    if x > 0 {
      RemainderByOne(x - 1);
    }
  }

  /** A higher power of two does not matter. */
  lemma {:induction false} RemainderDrops(x: nat, low: nat, high: nat)
    requires low <= high
    ensures Remainder(x + Pow2(high), Pow2(low)) == Remainder(x, Pow2(low))
    decreases high - low
  {
    if low < high {
      RemainderDrops(x + Pow2(high - 1), low, high - 1);
      RemainderDrops(x, low, high - 1);
    }
  }

  /** A disjunction fits in k bits exactly when both sides do. */
  lemma {:induction false} OrFits(a: nat, b: nat, k: nat)
    ensures BitOr(a, b) < Pow2(k) <==> a < Pow2(k) && b < Pow2(k)
    decreases k
  {
    if k == 0 {
      if BitOr(a, b) == 0 {
        OrZero(a, b);
      }
    } else {
      OrFits(a / 2, b / 2, k - 1);
    }
  }

  lemma {:induction false} OrZero(a: nat, b: nat)
    requires BitOr(a, b) == 0
    ensures a == 0 && b == 0
    decreases a + b
  {
    if a + b != 0 {
      OrZero(a / 2, b / 2);
    }
  }

  // ----- integers in bytes -----

  function FromLE(b: seq<byte>): nat {
    if b == [] then 0 else b[0] + 256 * FromLE(b[1..])
  }

  function ToLE(v: nat, n: nat): (b: seq<byte>)
    ensures |b| == n
  {
    if n == 0 then [] else [v % 256] + ToLE(v / 256, n - 1)
  }

  /** Big-endian: the first byte weighs most. */
  function FromBE(b: seq<byte>): nat {
    if b == [] then 0 else 256 * FromBE(b[..|b| - 1]) + b[|b| - 1]
  }

  function ToBE(v: nat, n: nat): (b: seq<byte>)
    ensures |b| == n
  {
    if n == 0 then [] else ToBE(v / 256, n - 1) + [v % 256]
  }

  /** Bytes of width w in the byte order `big`. */
  function Load(big: bool, b: seq<byte>): nat {
    if big then FromBE(b) else FromLE(b)
  }

  function Store(big: bool, v: nat, n: nat): (b: seq<byte>)
    ensures |b| == n
  {
    if big then ToBE(v, n) else ToLE(v, n)
  }

  /** A value that fits survives being stored and loaded, in either byte order. */
  lemma {:induction false} LoadStore(big: bool, v: nat, n: nat)
    requires v < Pow256(n)
    ensures Load(big, Store(big, v, n)) == v
    decreases n
  {
    if n > 0 {
      LoadStore(big, v / 256, n - 1);
      if big {
        assert ToBE(v, n)[..n - 1] == ToBE(v / 256, n - 1);
      } else {
        assert ToLE(v, n)[1..] == ToLE(v / 256, n - 1);
      }
    }
  }

  lemma {:induction false} LoadBound(big: bool, b: seq<byte>)
    ensures Load(big, b) < Pow256(|b|)
    decreases |b|
  {
    if b != [] {
      LoadBound(big, if big then b[..|b| - 1] else b[1..]);
    }
  }

  /** Storing what was loaded gives the bytes back. */
  lemma {:induction false} StoreLoad(b: seq<byte>)
    ensures ToLE(FromLE(b), |b|) == b
    decreases |b|
  {
    if b != [] {
      StoreLoad(b[1..]);
      assert FromLE(b) / 256 == FromLE(b[1..]);
      assert b == [b[0]] + b[1..];
    }
  }

  /** Little-endian bytes of one to four byte characters, spelled out. */
  lemma LEValues(b: seq<byte>)
    ensures |b| == 1 ==> FromLE(b) == b[0]
    ensures |b| == 2 ==> FromLE(b) == b[0] as int + 0x100 * (b[1] as int)
    ensures |b| == 3 ==> FromLE(b) == b[0] as int + 0x100 * (b[1] as int) + 0x1_0000 * (b[2] as int)
    ensures |b| == 4 ==>
            FromLE(b) == b[0] as int + 0x100 * (b[1] as int) + 0x1_0000 * (b[2] as int) + 0x100_0000 * (b[3] as int)
  {
    if 0 < |b| <= 4 {
      assert FromLE(b) == b[0] + 256 * FromLE(b[1..]);
      if |b| >= 2 {
        assert b[1..][1..] == b[2..];
        assert FromLE(b[1..]) == b[1] + 256 * FromLE(b[2..]);
      }
      if |b| >= 3 {
        assert b[2..][1..] == b[3..];
        assert FromLE(b[2..]) == b[2] + 256 * FromLE(b[3..]);
      }
      if |b| >= 4 {
        assert b[3..][1..] == [];
        assert FromLE(b[3..]) == b[3] + 256 * FromLE(b[4..]);
      }
    }
  }

  // ----- runs of packed integers -----

  /** Byte offset of cell i among cells of w bytes: i * w. */
  function Offset(i: nat, w: nat): nat {
    if i == 0 then 0 else Offset(i - 1, w) + w
  }

  lemma {:induction false} OffsetIsProduct(i: nat, w: nat)
    ensures Offset(i, w) == i * w
  {
    if i > 0 {
      OffsetIsProduct(i - 1, w);
      assert i * w == (i - 1) * w + w;
    }
  }

  lemma {:induction false} OffsetMonotone(i: nat, j: nat, w: nat)
    requires i <= j
    ensures Offset(i, w) <= Offset(j, w)
    ensures i < j ==> Offset(i, w) + w <= Offset(j, w)
    decreases j - i
  {
    if i < j {
      OffsetMonotone(i, j - 1, w);
    }
  }

  lemma CellsFit(n: nat, w: nat)
    ensures forall i :: 0 <= i < n ==> Offset(i, w) + w <= Offset(n, w)
  {
    forall i | 0 <= i < n
      ensures Offset(i, w) + w <= Offset(n, w)
    {
      OffsetMonotone(i, n, w);
    }
  }

  /** The integer in cell i. */
  ghost function CellValue(big: bool, w: nat, bytes: seq<byte>, i: nat): nat
    requires Offset(i, w) + w <= |bytes|
  {
    Load(big, bytes[Offset(i, w)..Offset(i, w) + w])
  }

  /** The n integers of w bytes each at the front of `bytes`. */
  ghost function Unpack(big: bool, w: nat, n: nat, bytes: seq<byte>): (s: seq<nat>)
    requires Offset(n, w) <= |bytes|
    ensures |s| == n
    ensures forall i :: 0 <= i < n ==> Offset(i, w) + w <= |bytes| && s[i] == CellValue(big, w, bytes, i)
  {
    CellsFit(n, w);
    seq(n, i requires 0 <= i < n => CellValue(big, w, bytes, i))
  }

  ghost function Splice(bytes: seq<byte>, at: nat, part: seq<byte>): (s: seq<byte>)
    requires at + |part| <= |bytes|
    ensures |s| == |bytes|
  {
    bytes[..at] + part + bytes[at + |part|..]
  }

  /** A stretch of bytes before, at, or after the replaced part. */
  lemma SpliceStretch(bytes: seq<byte>, at: nat, part: seq<byte>, lo: nat, hi: nat)
    requires at + |part| <= |bytes| && lo <= hi <= |bytes|
    ensures hi <= at || at + |part| <= lo ==> Splice(bytes, at, part)[lo..hi] == bytes[lo..hi]
    ensures lo == at && hi == at + |part| ==> Splice(bytes, at, part)[lo..hi] == part
  {
    var s := Splice(bytes, at, part);
    assert forall i :: 0 <= i < at ==> s[i] == bytes[i];
    assert forall i :: at + |part| <= i < |s| ==> s[i] == bytes[i];
    assert forall i :: at <= i < at + |part| ==> s[i] == part[i - at];
  }

  lemma CellStore(big: bool, w: nat, bytes: seq<byte>, k: nat, v: nat, i: nat)
    requires v < Pow256(w) && Offset(k, w) + w <= |bytes| && Offset(i, w) + w <= |bytes|
    ensures CellValue(big, w, Splice(bytes, Offset(k, w), Store(big, v, w)), i)
         == if i == k then v else CellValue(big, w, bytes, i)
  {
    hide Splice, Offset, Load, Store, Pow256;
    SpliceStretch(bytes, Offset(k, w), Store(big, v, w), Offset(i, w), Offset(i, w) + w);
    LoadStore(big, v, w);
    if i < k {
      OffsetMonotone(i, k, w);
    } else if i > k {
      OffsetMonotone(k, i, w);
    }
  }

  /** Overwriting cell k changes that cell to the value and no other cell. */
  lemma UnpackStore(big: bool, w: nat, n: nat, bytes: seq<byte>, k: nat, v: nat)
    requires Offset(n, w) <= |bytes| && k < n && v < Pow256(w)
    ensures Offset(k, w) + w <= |bytes|
    ensures Unpack(big, w, n, Splice(bytes, Offset(k, w), Store(big, v, w))) == Unpack(big, w, n, bytes)[k := v]
  {
    hide Splice, Offset, CellValue, Store, Pow256, Unpack;
    CellsFit(n, w);
    var after := Splice(bytes, Offset(k, w), Store(big, v, w));
    forall i | 0 <= i < n
      ensures Unpack(big, w, n, after)[i] == Unpack(big, w, n, bytes)[k := v][i]
    {
      CellStore(big, w, bytes, k, v, i);
    }
  }
}

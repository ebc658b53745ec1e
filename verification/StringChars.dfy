/** Characters in memory: reading and writing one at a time (src/string/copy.c, include/pw_string.h:91-176). */
module StringChars {
  import opened Radix
  import opened StringSizes
  import opened StringValues

  /** One character of w bytes at a byte position, low byte first. */
  function GetChar(w: nat, data: seq<byte>, at: nat): nat
    requires at + w <= |data|
  {
    FromLE(data[at..at + w])
  }

  /** Memory with character p overwritten. */
  ghost function PutChar(w: nat, data: seq<byte>, p: nat, c: nat): (r: seq<byte>)
    requires Width(w) && Bytes(w, p) + w <= |data|
    ensures |r| == |data|
  {
    Splice(data, Bytes(w, p), ToLE(c, w))
  }

  lemma BytesStep(w: nat, p: nat)
    requires Width(w)
    ensures Bytes(w, p + 1) == Bytes(w, p) + w && Bytes(w, 0) == 0
  {
  }

  lemma BytesGrow(w: nat, p: nat, n: nat)
    requires Width(w) && p <= n
    ensures Bytes(w, p) <= Bytes(w, n) && (p < n ==> Bytes(w, p) + w <= Bytes(w, n))
  {
  }

  lemma CharsAt(w: nat, n: nat, data: seq<byte>, p: nat)
    requires Width(w) && Bytes(w, n) <= |data| && p < n
    ensures Bytes(w, p) + w <= |data| && CharsIn(w, n, data)[p] == GetChar(w, data, Bytes(w, p)) < Pow256(w)
  {
    BytesGrow(w, p, n);
    BytesIsOffset(w, n);
    BytesIsOffset(w, p);
    hide Bytes, Offset, Pow256, FromLE, FromBE, Unpack;
  }

  /** Fewer characters of the same memory. */
  lemma CharsPrefix(w: nat, p: nat, n: nat, data: seq<byte>)
    requires Width(w) && p <= n && Bytes(w, n) <= |data|
    ensures Bytes(w, p) <= |data| && CharsIn(w, p, data) == CharsIn(w, n, data)[..p]
  {
    hide CharsIn, GetChar, Bytes;
    BytesGrow(w, p, n);
    forall i | 0 <= i < p
      ensures CharsIn(w, p, data)[i] == CharsIn(w, n, data)[i]
    {
      CharsAt(w, p, data, i);
      CharsAt(w, n, data, i);
    }
  }

  /** Writing character p changes that character only. */
  lemma CharsPut(w: nat, n: nat, data: seq<byte>, p: nat, c: nat)
    requires Width(w) && Bytes(w, n) <= |data| && Bytes(w, p) + w <= |data| && c < Pow256(w)
    ensures CharsIn(w, n, PutChar(w, data, p, c)) == if p < n then CharsIn(w, n, data)[p := c] else CharsIn(w, n, data)
  {
    var after := PutChar(w, data, p, c);
    forall i | 0 <= i < n
      ensures CharsIn(w, n, after)[i] == if i == p then c else CharsIn(w, n, data)[i]
    {
      CharsAt(w, n, data, i);
      CharsAt(w, n, after, i);
      BytesIsOffset(w, i);
      BytesIsOffset(w, p);
      hide CharsIn, Offset, Splice, ToLE, FromLE, Bytes;
      CellStore(false, w, data, p, c, i);
    }
  }

  /** Writing the next character makes the text one longer. */
  lemma CharsSnoc(w: nat, p: nat, data: seq<byte>, c: nat)
    requires Width(w) && Bytes(w, p) + w <= |data| && c < Pow256(w)
    ensures Bytes(w, p + 1) <= |data|
    ensures CharsIn(w, p + 1, PutChar(w, data, p, c)) == CharsIn(w, p, data) + [c]
  {
    hide CharsIn, PutChar;
    BytesStep(w, p);
    var after := PutChar(w, data, p, c);
    CharsPut(w, p, data, p, c);
    CharsPut(w, p + 1, data, p, c);
    CharsPrefix(w, p, p + 1, after);
    assert CharsIn(w, p + 1, after) == CharsIn(w, p + 1, after)[..p] + [c];
  }

  /** The characters of a stretch of memory are a stretch of the characters. */
  lemma CharsSlice(w: nat, n: nat, data: seq<byte>, a: nat, b: nat)
    requires Width(w) && Bytes(w, n) <= |data| && a <= b <= n
    ensures Bytes(w, a) <= Bytes(w, b) <= |data|
    ensures Bytes(w, b - a) == |data[Bytes(w, a)..Bytes(w, b)]|
    ensures CharsIn(w, b - a, data[Bytes(w, a)..Bytes(w, b)]) == CharsIn(w, n, data)[a..b]
  {
    hide CharsIn, GetChar, Bytes;
    BytesGrow(w, a, b);
    BytesGrow(w, b, n);
    BytesDiff(w, a, b);
    var part, whole := CharsIn(w, b - a, data[Bytes(w, a)..Bytes(w, b)]), CharsIn(w, n, data);
    forall i, j | 0 <= i < b - a && j == a + i
      ensures part[i] == whole[j]
    {
      CharInSlice(w, data, a, b, i);
      CharsAt(w, b - a, data[Bytes(w, a)..Bytes(w, b)], i);
      CharsAt(w, n, data, j);
    }
    assert part == whole[a..b];
  }

  lemma SliceOfSlice(s: seq<byte>, x: nat, y: nat, a: nat, b: nat)
    requires x <= y <= |s| && a <= b <= y - x
    ensures s[x..y][a..b] == s[x + a..x + b]
  {
    assert forall i :: 0 <= i < b - a ==> s[x..y][a..b][i] == s[x + a + i];
  }

  lemma CharInSlice(w: nat, data: seq<byte>, a: nat, b: nat, i: nat)
    requires Width(w) && a + i < b && Bytes(w, b) <= |data|
    ensures Bytes(w, a) <= Bytes(w, b) && Bytes(w, i) + w <= Bytes(w, b) - Bytes(w, a) && Bytes(w, a + i) + w <= |data|
    ensures GetChar(w, data[Bytes(w, a)..Bytes(w, b)], Bytes(w, i)) == GetChar(w, data, Bytes(w, a + i))
  {
    BytesGrow(w, a + i, b);
    BytesSum(w, a, i);
    hide Bytes, FromLE;
    var x, y, at := Bytes(w, a), Bytes(w, b), Bytes(w, i);
    SliceOfSlice(data, x, y, at, at + w);
  }

  lemma BytesDiff(w: nat, a: nat, b: nat)
    requires Width(w) && a <= b
    ensures Bytes(w, b - a) == Bytes(w, b) - Bytes(w, a)
  {
  }

  lemma BytesSum(w: nat, a: nat, b: nat)
    requires Width(w)
    ensures Bytes(w, a + b) == Bytes(w, a) + Bytes(w, b)
  {
  }

  /** Copying the bytes of n characters to character position p. */
  lemma CharsMoved(w: nat, p: nat, n: nat, data: seq<byte>, src: seq<byte>)
    requires Width(w) && |src| == Bytes(w, n) && Bytes(w, p + n) <= |data|
    ensures Bytes(w, p) + |src| <= |data| && Bytes(w, p) <= |data|
    ensures CharsIn(w, p + n, Splice(data, Bytes(w, p), src)) == CharsIn(w, p, data) + CharsIn(w, n, src)
  {
    hide CharsIn, Bytes, Splice;
    BytesSum(w, p, n);
    BytesStep(w, p);
    BytesDiff(w, p, p + n);
    var at := Bytes(w, p);
    var after := Splice(data, at, src);
    SpliceStretch(data, at, src, 0, at);
    SpliceStretch(data, at, src, at, at + |src|);
    CharsSlice(w, p + n, after, 0, p);
    CharsSlice(w, p, data, 0, p);
    CharsSlice(w, p + n, after, p, p + n);
    TwoParts(CharsIn(w, p + n, after), p);
    WholeSlice(CharsIn(w, p, data));
  }

  lemma TwoParts(s: seq<nat>, p: nat)
    requires p <= |s|
    ensures s == s[0..p] + s[p..|s|]
  {
  }

  lemma WholeSlice(s: seq<nat>)
    ensures s[0..|s|] == s
  {
  }
}

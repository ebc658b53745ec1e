/** UTF-8, section 3 of RFC 3629, as the decoders and encoders of src/string/utf.c and cstring.c treat it. */
module Utf8 {
  import opened Radix

  /** What the decoders return for a malformed sequence. */
  const BAD: nat := 0xFFFF_FFFF
  /** Code points below this one have four-byte encodings or shorter. */
  const LIMIT: nat := 0x20_0000

  predicate Encodable(s: seq<nat>) {
    forall i :: 0 <= i < |s| ==> s[i] < LIMIT
  }

  /** pw_char32_to_utf8; above LIMIT the high bits are lost. */
  function EncodeChar(c: nat): (b: seq<byte>)
    ensures 1 <= |b| <= 4 && |b| == EncodedLength(c)
  {
    if c < 0x80 then [c]
    else if c < 0x800 then [0xC0 + c / 0x40, 0x80 + c % 0x40]
    else if c < 0x1_0000 then [0xE0 + c / 0x1000, 0x80 + c / 0x40 % 0x40, 0x80 + c % 0x40]
    else [0xF0 + c / 0x4_0000 % 8, 0x80 + c / 0x1000 % 0x40, 0x80 + c / 0x40 % 0x40, 0x80 + c % 0x40]
  }

  function EncodedLength(c: nat): nat {
    if c < 0x80 then 1 else if c < 0x800 then 2 else if c < 0x1_0000 then 3 else 4
  }

  function EncodeAll(s: seq<nat>): seq<byte> {
    if s == [] then [] else EncodeChar(s[0]) + EncodeAll(s[1..])
  }

  predicate Continuation(b: nat) {
    b / 0x40 == 2
  }

  /** Trailing bytes announced by a lead byte of 0x80 or more, if it is a lead byte. */
  function Trailing(lead: nat): nat {
    if lead / 0x20 == 6 then 1 else if lead / 0x10 == 14 then 2 else if lead / 8 == 30 then 3 else 0
  }

  /** The bits a lead byte contributes. */
  function LeadBits(lead: nat): nat {
    if lead / 0x20 == 6 then lead % 0x40 else if lead / 0x10 == 14 then lead % 0x20 else lead % 0x10
  }

  /** An overlong zero counts as malformed. */
  function NoOverlongZero(c: nat): nat {
    if c == 0 then BAD else c
  }

  // ----- the forward decoder of zero-terminated text -----

  datatype Step = Step(code: nat, next: nat)

  /** Memory, with the terminating zero after the end. */
  function At(mem: seq<byte>, i: nat): byte {
    if i < |mem| then mem[i] else 0
  }

  /** n more continuation bytes at p; stops at a zero or goes back to a byte that does not continue. */
  function Continue(mem: seq<byte>, p: nat, n: nat, bits: nat): Step
    decreases n
  {
    if n == 0 then Step(NoOverlongZero(bits), p)
    else if At(mem, p) == 0 then Step(0, p + 1)
    else if !Continuation(At(mem, p)) then Step(BAD, p)
    else Continue(mem, p + 1, n - 1, bits * 0x40 + At(mem, p) % 0x40)
  }

  /** _pw_decode_utf8_char */
  function DecodeChar(mem: seq<byte>, p: nat): Step {
    var c := At(mem, p);
    if c < 0x80 then Step(c, p + 1)
    else if Trailing(c) == 0 then Step(BAD, p)
    else Continue(mem, p + 1, Trailing(c), LeadBits(c))
  }

  // ----- the decoder of a bounded buffer -----

  datatype BufferStep = Incomplete | Char(code: nat, next: nat)

  function ContinueBuffer(buf: seq<byte>, p: nat, n: nat, bits: nat): BufferStep
    requires p + n <= |buf|
    decreases n
  {
    if n == 0 then Char(NoOverlongZero(bits), p)
    else if !Continuation(buf[p]) then Char(BAD, p)
    else ContinueBuffer(buf, p + 1, n - 1, bits * 0x40 + buf[p] % 0x40)
  }

  /** _pw_decode_utf8_buffer: nothing is consumed when the sequence is cut off by the end of the buffer. */
  function DecodeBuffer(buf: seq<byte>, p: nat): (r: BufferStep)
    requires p <= |buf|
  {
    if p == |buf| then Incomplete
    else if buf[p] < 0x80 then Char(buf[p], p + 1)
    else if Trailing(buf[p]) == 0 then Char(BAD, p)
    else if |buf| - (p + 1) < Trailing(buf[p]) then Incomplete
    else ContinueBuffer(buf, p + 1, Trailing(buf[p]), LeadBits(buf[p]))
  }

  // ----- the backward decoder -----

  /** Start of the sequence ending before `end`: back over at most four continuation bytes. */
  function SeekBack(mem: seq<byte>, p: nat, end: nat): (start: nat)
    requires p <= end <= |mem|
    ensures start <= p
    decreases p
  {
    if p == 0 || p + 4 < end then p
    else if Continuation(mem[p - 1]) then SeekBack(mem, p - 1, end)
    else p - 1
  }

  function ContinueBack(mem: seq<byte>, p: nat, end: nat, n: nat, bits: nat): nat
    requires p <= end <= |mem|
    decreases n
  {
    if n == 0 then NoOverlongZero(bits)
    else if p >= end || !Continuation(mem[p]) then BAD
    else ContinueBack(mem, p + 1, end, n - 1, bits * 0x40 + mem[p] % 0x40)
  }

  /** _pw_decode_utf8_char_reverse, with `next` the start of the character before `end`. */
  function DecodeCharBack(mem: seq<byte>, end: nat): Step
    requires 0 < end <= |mem|
  {
    var p := SeekBack(mem, end, end);
    if p == end || p + 4 < end then Step(BAD, p)
    else if mem[p] < 0x80 then Step(mem[p], p)
    else if Trailing(mem[p]) == 0 then Step(BAD, p)
    else Step(ContinueBack(mem, p + 1, end, Trailing(mem[p]), LeadBits(mem[p])), p)
  }

  // ----- one character round trips -----

  /** The shape of an encoded character. */
  lemma EncodedShape(c: nat)
    ensures var b := EncodeChar(c);
            && (|b| == 1 ==> b[0] < 0x80)
            && (|b| > 1 ==> 0xC0 <= b[0] && Trailing(b[0]) == |b| - 1)
            && (forall i :: 1 <= i < |b| ==> Continuation(b[i]) && b[i] != 0)
            && (c != 0 ==> b[0] != 0)
  {
  }

  /** The payload of an encoded character: all of it up to 21 bits. */
  lemma EncodedBits(c: nat)
    ensures var b := EncodeChar(c);
            && (|b| == 1 ==> b[0] as int == c)
            && (|b| == 2 ==> LeadBits(b[0]) * 0x40 + b[1] % 0x40 == c)
            && (|b| == 3 ==> (LeadBits(b[0]) * 0x40 + b[1] % 0x40) * 0x40 + b[2] % 0x40 == c)
            && (|b| == 4 ==>
                ((LeadBits(b[0]) * 0x40 + b[1] % 0x40) * 0x40 + b[2] % 0x40) * 0x40 + b[3] % 0x40 == c % LIMIT)
  {
    hide LeadBits;
    LeadBitsOf(c / 0x40);
    LeadBitsOf(c / 0x1000);
    LeadBitsOf(c / 0x4_0000 % 8);
    LowBits(c);
    LowBits(c / 0x40);
    LowBits(c / 0x1000);
    SplitBits(c);
    if c >= 0x1_0000 {
      HighBits(c);
    }
  }

  lemma HighBits(c: nat)
    ensures ((c / 0x4_0000 % 8 * 0x40 + c / 0x1000 % 0x40) * 0x40 + c / 0x40 % 0x40) * 0x40 + c % 0x40 == c % LIMIT
  {
    var x, y, z := c / 0x40, c / 0x1000, c / 0x4_0000;
    ShiftTwice(c);
    ModLimit(c, z / 8, ((z % 8 * 0x40 + y % 0x40) * 0x40 + x % 0x40) * 0x40 + c % 0x40);
  }

  lemma ModLimit(c: nat, q: nat, r: nat)
    requires c == LIMIT * q + r && r < LIMIT
    ensures c % LIMIT == r
  {
  }

  lemma LowBits(v: nat)
    ensures (0x80 + v % 0x40) % 0x40 == v % 0x40
  {
  }

  lemma SplitBits(c: nat)
    ensures c == (c / 0x1000 * 0x40 + c / 0x40 % 0x40) * 0x40 + c % 0x40
    ensures c / 0x40 / 0x1000 == c / 0x4_0000 && c / 0x40 / 0x40 == c / 0x1000
  {
    ShiftTwice(c);
  }

  lemma ShiftTwice(c: nat)
    ensures c / 0x40 / 0x40 == c / 0x1000
    ensures c / 0x1000 / 0x40 == c / 0x4_0000
  {
  }

  lemma LeadBitsOf(x: nat)
    ensures x < 0x20 ==> LeadBits(0xC0 + x) == x
    ensures x < 0x10 ==> LeadBits(0xE0 + x) == x
    ensures x < 8 ==> LeadBits(0xF0 + x) == x
  {
  }

  /** What decoding makes of an encoded character: itself below LIMIT. */
  function Survivor(c: nat): (r: nat)
    ensures c < LIMIT ==> r == c
    ensures LIMIT <= c <= BAD ==> r != c
  {
    if c < 0x1_0000 then c else NoOverlongZero(c % LIMIT)
  }

  predicate StandsAt(mem: seq<byte>, p: nat, c: nat) {
    p + |EncodeChar(c)| <= |mem| && mem[p..p + |EncodeChar(c)|] == EncodeChar(c)
  }

  lemma StandsBytes(mem: seq<byte>, p: nat, c: nat)
    requires StandsAt(mem, p, c)
    ensures forall i :: 0 <= i < |EncodeChar(c)| ==> mem[p + i] == EncodeChar(c)[i]
  {
    forall i | 0 <= i < |EncodeChar(c)|
      ensures mem[p + i] == EncodeChar(c)[i]
    {
      assert mem[p..p + |EncodeChar(c)|][i] == mem[p + i];
    }
  }

  // ----- which byte sequences stand for which code point -----

  /** A byte of the form 10xxxxxx. */
  predicate Follows(b: byte) {
    0x80 <= b <= 0xBF
  }

  /** The six bits of such a byte. */
  function Six(b: byte): int {
    b as int - 0x80
  }

  /**
   The patterns of section 3 of RFC 3629 with the bits they hold, the four-byte one up to 21 bits. Of several sequences
   for one code point the standard allows the shortest only.
   */
  predicate IsSequence(b: seq<byte>, c: nat) {
    || (|b| == 1 && b[0] <= 0x7F && c == b[0])
    || (|b| == 2 && 0xC0 <= b[0] <= 0xDF && Follows(b[1])
        && c == 0x40 * (b[0] as int - 0xC0) + Six(b[1]))
    || (|b| == 3 && 0xE0 <= b[0] <= 0xEF && Follows(b[1]) && Follows(b[2])
        && c == 0x1000 * (b[0] as int - 0xE0) + 0x40 * Six(b[1]) + Six(b[2]))
    || (|b| == 4 && 0xF0 <= b[0] <= 0xF7 && Follows(b[1]) && Follows(b[2]) && Follows(b[3])
        && c == 0x4_0000 * (b[0] as int - 0xF0) + 0x1000 * Six(b[1]) + 0x40 * Six(b[2])
                + Six(b[3]))
  }

  /** The encoding of a code point is a sequence for it. */
  lemma EncodingIsSequence(c: nat)
    requires c < LIMIT
    ensures IsSequence(EncodeChar(c), c)
  {
    ShiftTwice(c);
    if c >= 0x1_0000 {
      TopBits(c);
    }
  }

  lemma TopBits(c: nat)
    requires c < LIMIT
    ensures c / 0x4_0000 % 8 == c / 0x4_0000
  {
  }

  /** It is the only one of its length, and no other is shorter. */
  lemma EncodingIsShortest(c: nat, b: seq<byte>)
    requires c < LIMIT && IsSequence(b, c)
    ensures |EncodeChar(c)| <= |b|
    ensures |EncodeChar(c)| == |b| <==> EncodeChar(c) == b
  {
    EncodingIsSequence(c);
    hide EncodeChar;
    SequenceBelow(b, c);
    if |EncodeChar(c)| == |b| {
      SequenceTells(EncodeChar(c), b, c);
    }
  }

  lemma SequenceBelow(b: seq<byte>, c: nat)
    requires IsSequence(b, c)
    ensures 1 <= |b| <= 4 && c < LIMIT
    ensures c >= 0x80 ==> |b| >= 2
    ensures c >= 0x800 ==> |b| >= 3
    ensures c >= 0x1_0000 ==> |b| == 4
  {
  }

  lemma SequenceTells(a: seq<byte>, b: seq<byte>, c: nat)
    requires |a| == |b| && IsSequence(a, c) && IsSequence(b, c)
    ensures a == b
  {
    if |a| == 2 {
      SixTell(a[0], Six(a[1]), b[0], Six(b[1]));
    } else if |a| == 3 {
      SixTell(0x40 * (a[0] as int - 0xE0) + Six(a[1]), Six(a[2]), 0x40 * (b[0] as int - 0xE0) + Six(b[1]), Six(b[2]));
      SixTell(a[0], Six(a[1]), b[0], Six(b[1]));
    } else if |a| == 4 {
      SixTell(0x1000 * (a[0] as int - 0xF0) + 0x40 * Six(a[1]) + Six(a[2]), Six(a[3]),
              0x1000 * (b[0] as int - 0xF0) + 0x40 * Six(b[1]) + Six(b[2]), Six(b[3]));
      SixTell(0x40 * (a[0] as int - 0xF0) + Six(a[1]), Six(a[2]), 0x40 * (b[0] as int - 0xF0) + Six(b[1]), Six(b[2]));
      SixTell(a[0], Six(a[1]), b[0], Six(b[1]));
    }
  }

  lemma SixTell(x: int, y: int, v: int, w: int)
    requires 0 <= y < 0x40 && 0 <= w < 0x40
    ensures 0x40 * x + y == 0x40 * v + w <==> x == v && y == w
  {
  }

  /** The continuation bytes taken one by one. */
  lemma {:induction false} ContinuesExactly(mem: seq<byte>, p: nat, n: nat, bits: nat, c: nat, next: nat)
    requires 0 < c < BAD && p <= |mem|
    ensures Continue(mem, p, n, bits) == Step(c, next) <==>
            next == p + n <= |mem| && (forall i :: p <= i < next ==> Follows(mem[i])) && c == Collected(mem, p, n, bits)
    decreases n
  {
    if n > 0 && p < |mem| {
      FollowsIs(mem[p]);
      hide Continuation, Follows;
      ContinuesExactly(mem, p + 1, n - 1, bits * 0x40 + mem[p] % 0x40, c, next);
    }
  }

  /** Bits of n bytes put behind others, six of each byte. */
  function Collected(mem: seq<byte>, p: nat, n: nat, bits: nat): nat
    decreases n
  {
    if n == 0 then bits else Collected(mem, p + 1, n - 1, bits * 0x40 + At(mem, p) % 0x40)
  }

  lemma FollowsIs(b: byte)
    ensures Continuation(b) <==> Follows(b)
    ensures Follows(b) ==> b % 0x40 == Six(b) && b != 0
  {
  }

  /** Lead bytes, what they announce and what they hold. */
  lemma LeadByte(b: byte)
    ensures Trailing(b) == if 0xC0 <= b <= 0xDF then 1 else if 0xE0 <= b <= 0xEF then 2 else if 0xF0 <= b <= 0xF7 then 3
                           else 0
    ensures 0xC0 <= b <= 0xDF ==> LeadBits(b) == b as int - 0xC0
    ensures 0xE0 <= b <= 0xEF ==> LeadBits(b) == b as int - 0xE0
    ensures 0xF0 <= b <= 0xF7 ==> LeadBits(b) == b as int - 0xF0
  {
  }

  lemma CollectedIs(mem: seq<byte>, p: nat, n: nat, bits: nat)
    requires 1 <= n <= 3 && p + n <= |mem| && forall i :: p <= i < p + n ==> Follows(mem[i])
    ensures n == 1 ==> Collected(mem, p, n, bits) == 0x40 * bits + Six(mem[p])
    ensures n == 2 ==> Collected(mem, p, n, bits) == 0x1000 * bits + 0x40 * Six(mem[p]) + Six(mem[p + 1])
    ensures n == 3 ==> Collected(mem, p, n, bits)
                       == 0x4_0000 * bits + 0x1000 * Six(mem[p]) + 0x40 * Six(mem[p + 1]) + Six(mem[p + 2])
  {
    FollowsIs(mem[p]);
    if n > 1 {
      FollowsIs(mem[p + 1]);
    }
    if n > 2 {
      FollowsIs(mem[p + 2]);
    }
    hide Follows, Six;
  }

  /** A longer sequence is its lead byte and what follows. */
  lemma LongSequence(b: seq<byte>, c: nat)
    requires b != [] && b[0] >= 0x80
    ensures IsSequence(b, c) <==>
            && 1 <= Trailing(b[0]) == |b| - 1 && (forall i :: 1 <= i < |b| ==> Follows(b[i]))
            && c == Collected(b, 1, |b| - 1, LeadBits(b[0]))
  {
    var n := |b| - 1;
    LeadByte(b[0]);
    hide Trailing, LeadBits, Follows, Six;
    if 1 <= n <= 3 && forall i :: 1 <= i < |b| ==> Follows(b[i]) {
      CollectedIs(b, 1, n, LeadBits(b[0]));
    }
    hide Collected;
  }

  lemma {:induction false} CollectedInside(mem: seq<byte>, p: nat, next: nat, k: nat, n: nat, bits: nat)
    requires p <= next <= |mem| && k + n <= next - p
    ensures Collected(mem[p..next], k, n, bits) == Collected(mem, p + k, n, bits)
    decreases n
  {
    if n > 0 {
      CollectedInside(mem, p, next, k + 1, n - 1, bits * 0x40 + At(mem, p + k) % 0x40);
    }
  }

  /** The same inside memory. */
  lemma SequenceInside(mem: seq<byte>, p: nat, next: nat, c: nat)
    requires p < next <= |mem| && mem[p] >= 0x80
    ensures IsSequence(mem[p..next], c) <==>
            && 1 <= Trailing(mem[p]) == next - p - 1 && (forall i :: p + 1 <= i < next ==> Follows(mem[i]))
            && c == Collected(mem, p + 1, next - p - 1, LeadBits(mem[p]))
  {
    hide *;
    var s := mem[p..next];
    assert forall i :: 0 <= i < |s| ==> s[i] == mem[p + i];
    assert forall i :: p + 1 <= i < next ==> mem[i] == s[i - p];
    LongSequence(s, c);
    CollectedInside(mem, p, next, 1, |s| - 1, LeadBits(mem[p]));
  }

  /** The forward decoder takes exactly those sequences, overlong ones too, for code points other than 0. */
  lemma DecodesExactly(mem: seq<byte>, p: nat, c: nat, next: nat)
    requires p < |mem| && 0 < c < BAD
    ensures DecodeChar(mem, p) == Step(c, next) <==> p < next <= |mem| && IsSequence(mem[p..next], c)
  {
    var b := mem[p];
    if b < 0x80 {
      if p < next <= |mem| {
        assert mem[p..next][0] == b;
      }
    } else {
      ContinuesExactly(mem, p + 1, Trailing(b), LeadBits(b), c, next);
      if p < next <= |mem| {
        SequenceInside(mem, p, next, c);
      }
      hide IsSequence, Trailing, LeadBits, Follows, Collected, Continue;
    }
  }

  /** A longer sequence for 0 is malformed. */
  lemma OverlongZero(mem: seq<byte>, p: nat, next: nat)
    requires p + 1 < next <= |mem| && IsSequence(mem[p..next], 0)
    ensures DecodeChar(mem, p) == Step(BAD, next)
  {
    var s := mem[p..next];
    assert s[0] == mem[p] && s[0] >= 0x80;
    SequenceInside(mem, p, next, 0);
    hide IsSequence, Trailing, LeadBits, Collected, Follows;
    ContinuesTo(mem, p + 1, next - p - 1, LeadBits(mem[p]));
  }

  lemma {:induction false} ContinuesTo(mem: seq<byte>, p: nat, n: nat, bits: nat)
    requires p + n <= |mem| && forall i :: p <= i < p + n ==> Follows(mem[i])
    ensures Continue(mem, p, n, bits) == Step(NoOverlongZero(Collected(mem, p, n, bits)), p + n)
    decreases n
  {
    if n > 0 {
      FollowsIs(mem[p]);
      hide Continuation, Follows;
      ContinuesTo(mem, p + 1, n - 1, bits * 0x40 + mem[p] % 0x40);
    }
  }

  /** Going back over bytes that follow others. */
  lemma {:induction false} SeeksBack(mem: seq<byte>, p: nat, end: nat)
    requires p <= end <= |mem| && forall i :: p <= i < end ==> Follows(mem[i])
    ensures var start := SeekBack(mem, p, end);
            && (forall i :: start < i < end ==> Follows(mem[i]))
            && (start < end <= start + 4 ==> !Follows(mem[start]) || start == 0)
    decreases p
  {
    if p > 0 {
      FollowsIs(mem[p - 1]);
      if p + 4 >= end && Continuation(mem[p - 1]) {
        SeeksBack(mem, p - 1, end);
      }
    }
  }

  lemma {:induction false} SeeksTo(mem: seq<byte>, p: nat, end: nat, start: nat)
    requires start < p <= end <= |mem| && end <= start + 4
    requires !Follows(mem[start]) && forall i :: start < i < end ==> Follows(mem[i])
    ensures SeekBack(mem, p, end) == start
    decreases p
  {
    FollowsIs(mem[p - 1]);
    if start < p - 1 {
      SeeksTo(mem, p - 1, end, start);
    }
  }

  lemma {:induction false} CollectsBack(mem: seq<byte>, p: nat, end: nat, n: nat, bits: nat)
    requires p <= end <= |mem| && forall i :: p <= i < end ==> Follows(mem[i])
    ensures ContinueBack(mem, p, end, n, bits)
            == if p + n <= end then NoOverlongZero(Collected(mem, p, n, bits)) else BAD
    decreases n
  {
    if n > 0 && p < end {
      FollowsIs(mem[p]);
      hide Continuation, Follows;
      CollectsBack(mem, p + 1, end, n - 1, bits * 0x40 + mem[p] % 0x40);
    }
  }

  /** A sequence among bytes all but the first of which follow. */
  lemma SequenceAmong(mem: seq<byte>, p: nat, end: nat, q: nat, c: nat)
    requires p < q <= end <= |mem| && mem[p] >= 0x80 && forall i :: p < i < end ==> Follows(mem[i])
    ensures IsSequence(mem[p..q], c) <==>
            && 1 <= Trailing(mem[p]) && q == p + 1 + Trailing(mem[p])
            && c == Collected(mem, p + 1, Trailing(mem[p]), LeadBits(mem[p]))
  {
    SequenceInside(mem, p, q, c);
    hide IsSequence, Trailing, LeadBits, Collected, Follows;
  }

  /**
   The backward decoder goes back to the first byte that does not follow another, over three at most, and takes the
   sequence that begins there; more bytes that follow than it needs are let pass.
   */
  lemma DecodesBackExactly(mem: seq<byte>, end: nat, c: nat, p: nat)
    requires 0 < end <= |mem| && 0 < c < BAD
    ensures DecodeCharBack(mem, end) == Step(c, p) <==>
            && p < end <= p + 4 && !Follows(mem[p]) && (forall i :: p < i < end ==> Follows(mem[i]))
            && exists q :: p < q <= end && IsSequence(mem[p..q], c)
  {
    SeeksBack(mem, end, end);
    if p < end <= p + 4 && !Follows(mem[p]) && forall i :: p < i < end ==> Follows(mem[i]) {
      SeeksTo(mem, end, end, p);
    }
    if p < end <= p + 4 && forall i :: p < i < end ==> Follows(mem[i]) {
      BackFrom(mem, end, c, p);
    }
    hide SeekBack, IsSequence, Follows, ContinueBack, Trailing, LeadBits;
  }

  lemma BackFrom(mem: seq<byte>, end: nat, c: nat, p: nat)
    requires p < end <= |mem| && end <= p + 4 && 0 < c < BAD && forall i :: p < i < end ==> Follows(mem[i])
    ensures var b := mem[p];
            (exists q :: p < q <= end && IsSequence(mem[p..q], c)) <==>
              if b < 0x80 then c == b
              else Trailing(b) != 0 && ContinueBack(mem, p + 1, end, Trailing(b), LeadBits(b)) == c
    ensures Follows(mem[p]) ==> mem[p] >= 0x80 && Trailing(mem[p]) == 0
  {
    var b := mem[p];
    LeadByte(b);
    if b < 0x80 {
      AsciiAmong(mem, p, end, c);
    } else {
      CollectsBack(mem, p + 1, end, Trailing(b), LeadBits(b));
      forall q | p < q <= end
        ensures IsSequence(mem[p..q], c) <==>
                && 1 <= Trailing(b) && q == p + 1 + Trailing(b)
                && c == Collected(mem, p + 1, Trailing(b), LeadBits(b))
      {
        SequenceAmong(mem, p, end, q, c);
      }
      hide IsSequence, LeadBits, Collected, ContinueBack;
      var q := p + 1 + Trailing(b);
      assert q <= end ==> (IsSequence(mem[p..q], c) <==>
               1 <= Trailing(b) && c == Collected(mem, p + 1, Trailing(b), LeadBits(b)));
    }
  }

  lemma AsciiAmong(mem: seq<byte>, p: nat, end: nat, c: nat)
    requires p < end <= |mem| && mem[p] < 0x80
    ensures (exists q :: p < q <= end && IsSequence(mem[p..q], c)) <==> c == mem[p]
  {
    assert mem[p..p + 1] == [mem[p]];
    assert IsSequence(mem[p..p + 1], mem[p]);
    forall q | p < q <= end && IsSequence(mem[p..q], c)
      ensures c == mem[p]
    {
      assert mem[p..q][0] == mem[p];
    }
  }

  /** The decoder of a bounded buffer takes the same ones. */
  lemma DecodesBufferExactly(buf: seq<byte>, p: nat, c: nat, next: nat)
    requires p < |buf| && 0 < c < BAD
    ensures DecodeBuffer(buf, p) == Char(c, next) <==> p < next <= |buf| && IsSequence(buf[p..next], c)
  {
    DecodesExactly(buf, p, c, next);
    var b := buf[p];
    LeadByte(b);
    hide Trailing, LeadBits, IsSequence;
    if b >= 0x80 && Trailing(b) > 0 {
      var n := Trailing(b);
      if p + 1 + n <= |buf| {
        SameContinuation(buf, p + 1, n, LeadBits(b), c, next);
      } else {
        ContinuesExactly(buf, p + 1, n, LeadBits(b), c, next);
      }
    }
  }

  lemma {:induction false} SameContinuation(buf: seq<byte>, p: nat, n: nat, bits: nat, c: nat, next: nat)
    requires p + n <= |buf| && 0 < c < BAD
    ensures ContinueBuffer(buf, p, n, bits) == Char(c, next) <==> Continue(buf, p, n, bits) == Step(c, next)
    decreases n
  {
    if n > 0 {
      FollowsIs(buf[p]);
      hide Follows, Continuation;
      SameContinuation(buf, p + 1, n - 1, bits * 0x40 + buf[p] % 0x40, c, next);
    }
  }

  /** The forward decoder reads an encoded character and stops right after it. */
  lemma DecodesForward(mem: seq<byte>, p: nat, c: nat)
    requires StandsAt(mem, p, c)
    ensures DecodeChar(mem, p) == Step(Survivor(c), p + |EncodeChar(c)|)
  {
    EncodedShape(c);
    EncodedBits(c);
    StandsBytes(mem, p, c);
    hide EncodeChar, LeadBits, Trailing, Continuation;
  }

  /** The bounded decoder reads an encoded character that is all there. */
  lemma DecodesInBuffer(mem: seq<byte>, p: nat, c: nat)
    requires StandsAt(mem, p, c)
    ensures DecodeBuffer(mem, p) == Char(Survivor(c), p + |EncodeChar(c)|)
  {
    EncodedShape(c);
    EncodedBits(c);
    StandsBytes(mem, p, c);
    hide EncodeChar, LeadBits, Trailing, Continuation;
  }

  /** The bounded decoder waits for the rest of a character cut off by the end of the buffer. */
  lemma WaitsForTheRest(mem: seq<byte>, p: nat, c: nat)
    requires p <= |mem| < p + |EncodeChar(c)| && mem[p..] <= EncodeChar(c)
    ensures DecodeBuffer(mem, p) == Incomplete
  {
    EncodedShape(c);
    hide EncodeChar, LeadBits, Trailing, Continuation;
    if p < |mem| {
      assert mem[p] == mem[p..][0] == EncodeChar(c)[0];
    }
  }

  /** The backward decoder finds the start of the character that ends at `end`. */
  lemma DecodesBackward(mem: seq<byte>, p: nat, c: nat)
    requires StandsAt(mem, p, c)
    ensures DecodeCharBack(mem, p + |EncodeChar(c)|) == Step(Survivor(c), p)
  {
    EncodedShape(c);
    EncodedBits(c);
    StandsBytes(mem, p, c);
    hide EncodeChar, LeadBits, Trailing;
    var end := p + |EncodeChar(c)|;
    assert !Continuation(mem[p]) by {
      assert mem[p] < 0x80 || mem[p] >= 0xC0;
    }
    hide Continuation;
    SeekFinds(mem, end, end, p);
  }

  lemma {:induction false} SeekFinds(mem: seq<byte>, p: nat, end: nat, start: nat)
    requires start < p <= end <= |mem| && end <= start + 4
    requires !Continuation(mem[start]) && forall i :: start < i < p ==> Continuation(mem[i])
    ensures SeekBack(mem, p, end) == start
    decreases p
  {
    if p - 1 > start {
      SeekFinds(mem, p - 1, end, start);
    }
  }

  // ----- whole texts -----

  lemma Assoc(a: seq<byte>, b: seq<byte>, c: seq<byte>)
    ensures a + (b + c) == a + b + c
  {
  }

  lemma Parts(mem: seq<byte>, p: nat, a: seq<byte>, b: seq<byte>)
    requires p + |a| + |b| <= |mem| && mem[p..p + |a| + |b|] == a + b
    ensures mem[p..p + |a|] == a && mem[p + |a|..p + |a| + |b|] == b
  {
    assert a == (a + b)[..|a|] && b == (a + b)[|a|..];
  }

  lemma {:induction false} EncodeConcat(s: seq<nat>, t: seq<nat>)
    ensures EncodeAll(s + t) == EncodeAll(s) + EncodeAll(t)
    decreases |s|
  {
    hide EncodeChar;
    if s == [] {
      assert s + t == t;
    } else {
      EncodeConcat(s[1..], t);
      assert (s + t)[1..] == s[1..] + t;
      Assoc(EncodeChar(s[0]), EncodeAll(s[1..]), EncodeAll(t));
    }
  }

  /** The characters the forward decoder yields between two positions; it is stuck where it does not advance. */
  function DecodeRange(mem: seq<byte>, p: nat, end: nat): seq<nat>
    decreases end - p
  {
    if p >= end then []
    else
      var st := DecodeChar(mem, p);
      if st.next <= p then [] else [st.code] + DecodeRange(mem, st.next, end)
  }

  /** The characters the backward decoder yields, last one first. */
  function DecodeRangeBack(mem: seq<byte>, end: nat): seq<nat>
    requires end <= |mem|
    decreases end
  {
    if end == 0 then []
    else
      var st := DecodeCharBack(mem, end);
      if st.next >= end then [] else [st.code] + DecodeRangeBack(mem, st.next)
  }

  function Survivors(s: seq<nat>): seq<nat> {
    seq(|s|, i requires 0 <= i < |s| => Survivor(s[i]))
  }

  function Reverse(s: seq<nat>): seq<nat> {
    if s == [] then [] else Reverse(s[1..]) + [s[0]]
  }

  lemma SurvivorsParts(s: seq<nat>, c: nat, t: seq<nat>)
    ensures Survivors(s + [c] + t) == Survivors(s) + [Survivor(c)] + Survivors(t)
  {
    hide Survivor;
  }

  lemma {:induction false} ForwardFrom(mem: seq<byte>, p: nat, s: seq<nat>)
    requires p + |EncodeAll(s)| == |mem| && mem[p..|mem|] == EncodeAll(s)
    ensures DecodeRange(mem, p, |mem|) == Survivors(s)
    decreases |s|
  {
    hide DecodeChar, EncodeChar, Survivor, Survivors;
    if s == [] {
      assert Survivors(s) == [] by {
        SurvivorsEmpty();
      }
    } else {
      Parts(mem, p, EncodeChar(s[0]), EncodeAll(s[1..]));
      DecodesForward(mem, p, s[0]);
      ForwardFrom(mem, p + |EncodeChar(s[0])|, s[1..]);
      SurvivorsParts([], s[0], s[1..]);
      assert [] + [s[0]] + s[1..] == s;
      SurvivorsEmpty();
    }
  }

  lemma SurvivorsEmpty()
    ensures Survivors([]) == []
  {
  }

  /** Encoding and decoding forward gives a text back exactly when every code point is below 2^21. */
  lemma RoundTripForward(s: seq<nat>)
    requires forall i :: 0 <= i < |s| ==> s[i] <= BAD
    ensures DecodeRange(EncodeAll(s), 0, |EncodeAll(s)|) == s <==> Encodable(s)
  {
    hide EncodeAll, Survivor;
    ForwardFrom(EncodeAll(s), 0, s);
    if Survivors(s) == s {
      assert forall i :: 0 <= i < |s| ==> Survivors(s)[i] == s[i];
    }
  }

  lemma {:induction false} BackwardFrom(mem: seq<byte>, s: seq<nat>)
    requires |EncodeAll(s)| <= |mem| && mem[0..|EncodeAll(s)|] == EncodeAll(s)
    ensures DecodeRangeBack(mem, |EncodeAll(s)|) == Reverse(Survivors(s))
    decreases |s|
  {
    hide DecodeCharBack, EncodeChar, Survivor, Survivors;
    SurvivorsEmpty();
    if s != [] {
      var n := |s| - 1;
      var head, c := s[..n], s[n];
      EncodeLast(s);
      Parts(mem, 0, EncodeAll(head), EncodeChar(c));
      DecodesBackward(mem, |EncodeAll(head)|, c);
      BackwardFrom(mem, head);
      ReverseSnoc(Survivors(head), Survivor(c));
      SurvivorsParts(head, c, []);
      assert head + [c] + [] == s && Survivors(head) + [Survivor(c)] + [] == Survivors(head) + [Survivor(c)];
    }
  }

  lemma EncodeLast(s: seq<nat>)
    requires s != []
    ensures EncodeAll(s) == EncodeAll(s[..|s| - 1]) + EncodeChar(s[|s| - 1])
  {
    hide *;
    var n := |s| - 1;
    assert s[..n] + s[n..] == s;
    assert s[n..] == [s[n]];
    EncodeConcat(s[..n], s[n..]);
    EncodeOne(s[n]);
  }

  lemma EncodeOne(c: nat)
    ensures EncodeAll([]) == [] && EncodeAll([c]) == EncodeChar(c)
  {
    hide EncodeChar;
    assert EncodeAll([c]) == EncodeChar(c) + EncodeAll([]);
  }

  lemma {:induction false} ReverseSnoc(s: seq<nat>, c: nat)
    ensures Reverse(s + [c]) == [c] + Reverse(s)
    decreases |s|
  {
    if s != [] {
      ReverseSnoc(s[1..], c);
      assert (s + [c])[1..] == s[1..] + [c];
    }
  }

  lemma {:induction false} ReverseTells(s: seq<nat>, t: seq<nat>)
    requires |s| == |t| && Reverse(s) == Reverse(t)
    ensures s == t
    decreases |s|
  {
    if s != [] {
      ReverseLength(s[1..]);
      ReverseLength(t[1..]);
      var n := |s| - 1;
      assert Reverse(s)[..n] == Reverse(s[1..]) && Reverse(t)[..n] == Reverse(t[1..]);
      assert Reverse(s)[n] == s[0] && Reverse(t)[n] == t[0];
      ReverseTells(s[1..], t[1..]);
      assert s == [s[0]] + s[1..] && t == [t[0]] + t[1..];
    }
  }

  lemma {:induction false} ReverseLength(s: seq<nat>)
    ensures |Reverse(s)| == |s|
    decreases |s|
  {
    if s != [] {
      ReverseLength(s[1..]);
    }
  }

  /** Decoding an encoded text backward gives its reverse exactly when every code point is below 2^21. */
  lemma RoundTripBackward(s: seq<nat>)
    requires forall i :: 0 <= i < |s| ==> s[i] <= BAD
    ensures DecodeRangeBack(EncodeAll(s), |EncodeAll(s)|) == Reverse(s) <==> Encodable(s)
  {
    hide EncodeAll, Survivor;
    BackwardFrom(EncodeAll(s), s);
    if Reverse(Survivors(s)) == Reverse(s) {
      ReverseTells(Survivors(s), s);
      assert forall i :: 0 <= i < |s| ==> Survivors(s)[i] == s[i];
    } else {
      assert Survivors(s) != s;
    }
  }
}

/** Loops over encoded and fixed-width text (src/string/utf.c:204-272, 416-438 and src/string/cstring.c). */
module Utf8Text {
  import opened Radix
  import opened CharSizes
  import opened Utf8

  lemma EncodeSplit(s: seq<nat>, i: nat)
    requires i < |s|
    ensures EncodeAll(s[..i + 1]) == EncodeAll(s[..i]) + EncodeChar(s[i])
    ensures |EncodeAll(s[..i + 1])| <= |EncodeAll(s)|
  {
    hide *;
    EncodeLast(s[..i + 1]);
    assert s[..i + 1][..i] == s[..i];
    EncodeConcat(s[..i + 1], s[i + 1..]);
    assert s[..i + 1] + s[i + 1..] == s;
  }

  lemma EncodeWhole(s: seq<nat>)
    ensures EncodeAll(s[..0]) == [] && EncodeAll(s[..|s|]) == EncodeAll(s)
  {
    assert s[..0] == [] && s[..|s|] == s;
  }

  /** Length of a string in UTF-8, in 32 bits. */
  method StrlenInUtf8(w: nat, n: nat, data: seq<byte>) returns (length: nat)
    requires Offset(n, w) <= |data|
    ensures length == U32(|EncodeAll(Unpack(false, w, n, data))|)
  {
    hide EncodeAll, EncodeChar, Unpack, Offset;
    ghost var text := Unpack(false, w, n, data);
    length := 0;
    var i, ptr := 0, 0;
    EncodeWhole(text);
    OffsetZero(w);
    while i < n
      invariant i <= n && ptr == Offset(i, w)
      invariant length == U32(|EncodeAll(text[..i])|)
    {
      EncodeSplit(text, i);
      OffsetStep(i, n, w);
      var c := FromLE(data[ptr..ptr + w]);
      length := U32(length + EncodedLength(c));
      i, ptr := i + 1, ptr + w;
    }
  }

  lemma OffsetZero(w: nat)
    ensures Offset(0, w) == 0
  {
  }

  lemma OffsetStep(i: nat, n: nat, w: nat)
    requires i < n
    ensures Offset(i + 1, w) == Offset(i, w) + w <= Offset(n, w)
  {
    OffsetMonotone(i, n, w);
  }

  /** Writes one encoded character, as pw_char32_to_utf8 does. */
  method Char32ToUtf8(c: nat, dest: array<byte>, at: nat) returns (written: nat)
    requires at + EncodedLength(c) <= dest.Length
    modifies dest
    ensures written == EncodedLength(c)
    ensures dest[..] == Splice(old(dest[..]), at, EncodeChar(c))
  {
    if c < 0x80 {
      dest[at] := c;
      return 1;
    }
    if c < 0x800 {
      dest[at], dest[at + 1] := 0xC0 + c / 0x40, 0x80 + c % 0x40;
      return 2;
    }
    if c < 0x1_0000 {
      dest[at], dest[at + 1], dest[at + 2] := 0xE0 + c / 0x1000, 0x80 + c / 0x40 % 0x40, 0x80 + c % 0x40;
      return 3;
    }
    dest[at], dest[at + 1] := 0xF0 + c / 0x4_0000 % 8, 0x80 + c / 0x1000 % 0x40;
    dest[at + 2], dest[at + 3] := 0x80 + c / 0x40 % 0x40, 0x80 + c % 0x40;
    return 4;
  }

  /** The copying loop for widths 2, 3 and 4: the encoded text and a terminating zero. */
  method CopyToUtf8(w: nat, n: nat, data: seq<byte>, dest: array<byte>)
    requires Offset(n, w) <= |data| && |EncodeAll(Unpack(false, w, n, data))| < dest.Length
    modifies dest
    ensures var e := EncodeAll(Unpack(false, w, n, data));
            dest[..|e| + 1] == e + [0] && dest[|e| + 1..] == old(dest[|e| + 1..])
  {
    hide EncodeAll, EncodeChar, Unpack, Offset;
    ghost var text := Unpack(false, w, n, data);
    var i, ptr, at := 0, 0, 0;
    EncodeWhole(text);
    OffsetZero(w);
    while i < n
      invariant i <= n && ptr == Offset(i, w)
      invariant at == |EncodeAll(text[..i])| <= |EncodeAll(text)|
      invariant dest[..at] == EncodeAll(text[..i]) && dest[at..] == old(dest[at..])
    {
      EncodeSplit(text, i);
      OffsetStep(i, n, w);
      ghost var before := dest[..];
      var c := FromLE(data[ptr..ptr + w]);
      var written := Char32ToUtf8(c, dest, at);
      SpliceEnds(before, at, EncodeChar(c));
      assert dest[..at + written] == before[..at] + EncodeChar(c);
      assert dest[at + written..] == before[at..][written..];
      i, ptr, at := i + 1, ptr + w, at + written;
    }
    dest[at] := 0;
  }

  lemma SpliceEnds(bytes: seq<byte>, at: nat, part: seq<byte>)
    requires at + |part| <= |bytes|
    ensures Splice(bytes, at, part)[..at + |part|] == bytes[..at] + part
    ensures Splice(bytes, at, part)[at + |part|..] == bytes[at + |part|..]
  {
  }

  /** The buffer allocated from the computed length is filled to its last byte (widths 2 to 4). */
  method StringToUtf8(w: nat, n: nat, data: seq<byte>) returns (result: array<byte>)
    requires 2 <= w <= 4 && Offset(n, w) <= |data|
    requires |EncodeAll(Unpack(false, w, n, data))| + 1 < TWO_32
    ensures fresh(result) && result[..] == EncodeAll(Unpack(false, w, n, data)) + [0]
  {
    hide EncodeAll, Unpack, Offset;
    var length := StrlenInUtf8(w, n, data);
    result := new byte[length + 1];
    CopyToUtf8(w, n, data, result);
    assert result[..length + 1] == result[..];
  }

  /** Width 1 is copied byte by byte, which is its UTF-8 exactly when every character is below 0x80. */
  lemma {:induction false} NarrowCopyIsUtf8(data: seq<byte>)
    ensures EncodeAll(data) == data <==> forall i :: 0 <= i < |data| ==> data[i] < 0x80
    decreases |data|
  {
    if data != [] {
      NarrowCopyIsUtf8(data[1..]);
      EncodedAtLeast(data[1..]);
      EncodedShape(data[0]);
      if data[0] < 0x80 {
        assert EncodeAll(data)[1..] == EncodeAll(data[1..]);
        assert data == data[..1] + data[1..];
        assert forall i :: 1 <= i < |data| ==> data[i] == data[1..][i - 1];
      } else {
        assert |EncodeAll(data)| > |data|;
      }
    }
  }

  lemma {:induction false} EncodedAtLeast(s: seq<nat>)
    ensures |EncodeAll(s)| >= |s|
    decreases |s|
  {
    if s != [] {
      EncodedAtLeast(s[1..]);
    }
  }

  /** Counts and measures zero-terminated text; `text` is what it encodes. */
  method Utf8Strlen3(mem: seq<byte>, ghost text: seq<nat>) returns (length: nat, width: nat, end: nat)
    requires Encodable(text) && (forall i :: 0 <= i < |text| ==> text[i] != 0)
    requires |EncodeAll(text)| < |mem| && mem[..|EncodeAll(text)|] == EncodeAll(text) && mem[|EncodeAll(text)|] == 0
    ensures length == |text| && width == TextWidth(text) && end == |EncodeAll(text)|
  {
    hide EncodeAll, EncodeChar, DecodeChar, CharSize;
    length, end := 0, 0;
    var bits := 0;
    EncodeWhole(text);
    WidthOfNothing(text);
    while mem[end] != 0
      invariant length <= |text| && end == |EncodeAll(text[..length])| <= |EncodeAll(text)|
      invariant CharSize(bits) == TextWidth(text[..length])
      decreases |text| - length
    {
      CharStands(mem, text, length);
      var st := DecodeChar(mem, end);
      TextWidthStep(text, length);
      CharSizeOfOr(bits, st.code);
      if st.code != BAD {
        bits := BitOr(bits, st.code);
        length := length + 1;
      }
      end := st.next;
    }
    if length < |text| {
      CharStands(mem, text, length);
    }
    assert text[..length] == text;
    width := CharSize(bits);
  }

  lemma WidthOfNothing(text: seq<nat>)
    ensures CharSize(0) == TextWidth(text[..0]) == 1
  {
    CharSizeValues(0);
  }

  lemma TextWidthStep(text: seq<nat>, i: nat)
    requires i < |text|
    ensures TextWidth(text[..i + 1]) == Max(TextWidth(text[..i]), CharSize(text[i]))
  {
    hide CharSize;
    assert text[..i + 1][..i] == text[..i];
  }

  /** The i-th character of an encoded text is where the encoding of the ones before it ends. */
  lemma CharStands(mem: seq<byte>, text: seq<nat>, i: nat)
    requires i < |text| && Encodable(text) && text[i] != 0
    requires |EncodeAll(text)| <= |mem| && mem[..|EncodeAll(text)|] == EncodeAll(text)
    ensures var p := |EncodeAll(text[..i])|;
            && p + |EncodeChar(text[i])| == |EncodeAll(text[..i + 1])| <= |EncodeAll(text)|
            && DecodeChar(mem, p) == Step(text[i], p + |EncodeChar(text[i])|)
            && mem[p] != 0
  {
    hide EncodeAll, EncodeChar, DecodeChar;
    var p := |EncodeAll(text[..i])|;
    var c := text[i];
    EncodeSplit(text, i);
    EncodeConcat(text[..i + 1], text[i + 1..]);
    assert text[..i + 1] + text[i + 1..] == text;
    var all := |EncodeAll(text[..i + 1])|;
    assert mem[0..all] == mem[..|EncodeAll(text)|][..all] == EncodeAll(text[..i + 1]);
    Parts(mem, 0, EncodeAll(text[..i]), EncodeChar(c));
    DecodesForward(mem, p, c);
    EncodedShape(c);
    StandsBytes(mem, p, c);
    assert mem[p + 0] == EncodeChar(c)[0];
  }
}

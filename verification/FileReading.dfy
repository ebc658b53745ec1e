/**
 The reading half of a buffered file (src/pw_file.c:498-530, 612-755) on a regular file: every
 read fills the buffer except the last ones, and may be interrupted or fail.
 */
module FileReading {
  import opened Radix
  import opened Utf8
  import opened TextLines
  import opened AssocList

  datatype Status = Good | Eof | Unbuffered | Busy | Failed

  /** What one read call does; it reads when nothing else is said. */
  datatype ReadAnswer = Reads | Interrupted | Fails

  // ----- characters at the border of a chunk -----

  /** A chunk from p on, and what comes after the chunk, encode a text. */
  ghost predicate Holds(chunk: seq<byte>, p: nat, after: seq<byte>, text: seq<nat>) {
    p <= |chunk| && chunk[p..] + after == EncodeAll(text)
  }

  /** Two ways of cutting the same bytes. */
  lemma SameBytes(x: seq<byte>, y: seq<byte>, e: seq<byte>, r: seq<byte>)
    requires x + y == e + r
    ensures |e| <= |x| ==> x[..|e|] == e && x[|e|..] + y == r
    ensures |x| < |e| ==> x == e[..|x|] && y == e[|x|..] + r
  {
    if |e| <= |x| {
      assert x[..|e|] == (x + y)[..|e|] && e == (e + r)[..|e|];
      assert x[|e|..] + y == (x + y)[|e|..] && r == (e + r)[|e|..];
    } else {
      assert x == (x + y)[..|x|] && e[..|x|] == (e + r)[..|x|];
      assert y == (x + y)[|x|..] && e[|x|..] + r == (e + r)[|x|..];
    }
  }

  lemma TailOfCat(chunk: seq<byte>, p: nat, after: seq<byte>)
    requires p < |chunk|
    ensures (chunk[p..] + after)[1..] == chunk[p + 1..] + after && (chunk[p..] + after)[0] == chunk[p]
  {
  }

  lemma Cut(s: seq<byte>, a: nat, b: nat)
    requires a <= b <= |s|
    ensures s[a..] == s[a..b] + s[b..]
  {
  }

  lemma Taken(buffer: array<byte>, a: nat, b: nat, c: nat, after: seq<byte>)
    requires a <= b <= c <= buffer.Length
    ensures buffer[a..c] + after == buffer[a..b] + (buffer[b..c] + after)
  {
    assert buffer[a..c] == buffer[a..b] + buffer[b..c];
  }

  lemma NothingBefore(s: seq<byte>)
    ensures [] + s == s
  {
  }

  /** At p stands a whole character of the text, or one that the end of the chunk cuts off. */
  lemma NextChar(chunk: seq<byte>, p: nat, after: seq<byte>, text: seq<nat>)
    requires Encodable(text) && Holds(chunk, p, after, text) && p < |chunk|
    ensures text != []
    ensures var e := EncodeChar(text[0]);
            if p + |e| <= |chunk| then
              DecodeBuffer(chunk, p) == Char(text[0], p + |e|) && Holds(chunk, p + |e|, after, text[1..])
            else
              DecodeBuffer(chunk, p) == Incomplete && chunk[p..] < e && p + |e| - |chunk| <= |after|
  {
    assert |EncodeAll(text)| > 0;
    var c := text[0];
    var e := EncodeChar(c);
    hide EncodeChar, DecodeBuffer;
    assert EncodeAll(text) == e + EncodeAll(text[1..]);
    hide EncodeAll;
    SameBytes(chunk[p..], after, e, EncodeAll(text[1..]));
    if p + |e| <= |chunk| {
      assert chunk[p..p + |e|] == chunk[p..][..|e|];
      assert chunk[p + |e|..] == chunk[p..][|e|..];
      DecodesInBuffer(chunk, p, c);
    } else {
      assert chunk[p..] < e;
      WaitsForTheRest(chunk, p, c);
    }
  }

  /** Bytes of a cut-off character, followed by the rest of it and of the text. */
  ghost predicate CutOff(partial: seq<byte>, rest: seq<byte>, text: seq<nat>) {
    && text != [] && 0 < |partial| < |EncodeChar(text[0])| && partial < EncodeChar(text[0])
    && rest == EncodeChar(text[0])[|partial|..] + EncodeAll(text[1..])
  }

  lemma CutOffAt(chunk: seq<byte>, p: nat, after: seq<byte>, text: seq<nat>)
    requires Encodable(text) && Holds(chunk, p, after, text) && p < |chunk| && text != []
    requires chunk[p..] < EncodeChar(text[0])
    ensures CutOff(chunk[p..], after, text)
  {
    hide EncodeChar;
    var e := EncodeChar(text[0]);
    assert EncodeAll(text) == e + EncodeAll(text[1..]);
    hide EncodeAll;
    SameBytes(chunk[p..], after, e, EncodeAll(text[1..]));
  }

  /** One more byte of a cut-off character: a continuation byte, which may complete it. */
  lemma OneMoreByte(partial: seq<byte>, rest: seq<byte>, text: seq<nat>)
    requires Encodable(text) && CutOff(partial, rest, text)
    ensures rest != [] && Continuation(rest[0]) && rest[0] >= 0x80
    ensures var more := partial + [rest[0]];
            if |more| < |EncodeChar(text[0])| then
              CutOff(more, rest[1..], text) && DecodeBuffer(more, 0) == Incomplete
            else
              DecodeBuffer(more, 0) == Char(text[0], |more|) && rest[1..] == EncodeAll(text[1..]) && text[0] != LF
  {
    var c := text[0];
    var e := EncodeChar(c);
    var n := |partial|;
    var more := partial + [rest[0]];
    EncodedShape(c);
    assert c != LF && e[n] >= 0x80;
    hide EncodeChar, EncodeAll, DecodeBuffer, Continuation, Encodable;
    NextOfCut(e, n, partial, rest, EncodeAll(text[1..]));
    if n + 1 == |e| {
      assert more == e && e[n + 1..] + EncodeAll(text[1..]) == EncodeAll(text[1..]);
      assert more[0..0 + |e|] == e;
      DecodesInBuffer(more, 0, c);
    } else {
      assert more[0..] == more && more < e by {
        assert more == e[..|more|];
      }
      WaitsForTheRest(more, 0, c);
    }
  }

  lemma NextOfCut(e: seq<byte>, n: nat, partial: seq<byte>, rest: seq<byte>, after: seq<byte>)
    requires n < |e| && partial == e[..n] && rest == e[n..] + after
    ensures rest[0] == e[n] && partial + [rest[0]] == e[..n + 1] && rest[1..] == e[n + 1..] + after
  {
    assert e[..n + 1] == e[..n] + [e[n]];
    assert e[n..][1..] == e[n + 1..];
  }

  /** The same in a chunk that goes on with the cut-off character. */
  lemma PartialStep(partial: seq<byte>, chunk: seq<byte>, p: nat, after: seq<byte>, t: seq<nat>)
    requires Encodable(t) && p <= |chunk| && CutOff(partial, chunk[p..] + after, t)
    requires |partial| + (|chunk| - p) >= 4 || after == []
    ensures p < |chunk| && t != [] && chunk[p] >= 0x80 && Continuation(chunk[p])
    ensures var more := partial + [chunk[p]];
            if |more| < |EncodeChar(t[0])| then
              CutOff(more, chunk[p + 1..] + after, t) && DecodeBuffer(more, 0) == Incomplete && |more| < 4
            else
              DecodeBuffer(more, 0) == Char(t[0], |more|) && Holds(chunk, p + 1, after, t[1..]) && t[0] != LF
                  && t[0] != BAD && t[..1] == [t[0]]
  {
    hide EncodeAll, EncodeChar, DecodeBuffer, Continuation;
    CutOffIsShort(partial, chunk[p..] + after, t);
    OneMoreByte(partial, chunk[p..] + after, t);
    TailOfCat(chunk, p, after);
    var more := partial + [chunk[p]];
    if |more| < |EncodeChar(t[0])| {
      CutOffIsShort(more, chunk[p + 1..] + after, t);
    }
  }

  lemma CutOffIsShort(partial: seq<byte>, rest: seq<byte>, text: seq<nat>)
    requires CutOff(partial, rest, text)
    ensures 0 < |partial| < 4 && rest != []
  {
  }

  lemma EncodedNotEmpty(text: seq<nat>)
    ensures text != [] ==> EncodeAll(text) != []
  {
    if text != [] {
      assert |EncodeAll(text)| >= |EncodeChar(text[0])|;
    }
  }

  /** When no bytes are left, no text is. */
  lemma NothingAhead(partial: seq<byte>, rest: seq<byte>, text: seq<nat>)
    requires rest == []
    requires if partial == [] then rest == EncodeAll(text) else CutOff(partial, rest, text)
    ensures text == [] && partial == []
  {
    EncodedNotEmpty(text);
  }

  function Least(a: nat, b: nat): nat {
    if a <= b then a else b
  }

  lemma LeastIs(n: nat, a: nat, b: nat)
    ensures n == Least(a, b) <==> n <= a && n <= b && (n == a || n == b)
  {
  }

  datatype Progress = NoMore | AtFeed | ShortChunk | GoesOn | Broken

  ghost predicate IsPrefix(chars: seq<nat>, t: seq<nat>): (b: bool)
    ensures b ==> |chars| <= |t|
  {
    |chars| <= |t| && chars == t[..|chars|]
  }

  /** One line feed, at the end. */
  ghost predicate EndsInOnlyFeed(chars: seq<nat>) {
    chars != [] && chars[|chars| - 1] == LF && NoFeed(chars[..|chars| - 1])
  }

  lemma EmptyFeed()
    ensures NoFeed([])
  {
  }

  lemma Concatenated(t: seq<nat>, a: seq<nat>, b: seq<nat>)
    requires IsPrefix(a, t) && IsPrefix(b, t[|a|..]) && NoFeed(a)
    ensures IsPrefix(a + b, t) && t[|a|..][|b|..] == t[|a + b|..]
    ensures t[|a|..][|b|..] == [] ==> a + b == t
    ensures NoFeed(b) ==> NoFeed(a + b)
    ensures EndsInOnlyFeed(b) ==> EndsInOnlyFeed(a + b)
  {
    if b != [] {
      assert (a + b)[..|a + b| - 1] == a + b[..|b| - 1];
    }
  }

  lemma AddedChars(line: seq<nat>, chars: seq<nat>, t: seq<nat>, all: seq<nat>)
    requires line + t == all && IsPrefix(chars, t)
    ensures |chars| <= |t| && line + chars + t[|chars|..] == all
    ensures NoFeed(line) && NoFeed(chars) ==> NoFeed(line + chars)
    ensures chars == [] ==> line + chars == line && t[|chars|..] == t
  {
    assert chars + t[|chars|..] == t;
  }

  /** A line that ends with its first line feed is the first piece of the text. */
  lemma FedLineRead(line: seq<nat>, chars: seq<nat>, t: seq<nat>, all: seq<nat>)
    requires line + chars + t == all && NoFeed(line) && EndsInOnlyFeed(chars)
    ensures !NoFeed(all) && all[..LineLength(all)] == line + chars && all[LineLength(all)..] == t
  {
    var before, n := line + chars[..|chars| - 1], |line| + |chars|;
    assert all == before + ([LF] + t);
    LineLengthAfter(before, [LF] + t);
    assert all[n - 1] == LF;
  }

  lemma LastLineRead(line: seq<nat>, t: seq<nat>, all: seq<nat>)
    requires line + t == all && t == [] && NoFeed(line)
    ensures NoFeed(all) && line == all && LineLength(all) == |all| && all[..LineLength(all)] == line
            && all[LineLength(all)..] == []
  {
    LineLengthAfter(line, []);
    assert line + [] == line;
  }

  class ReadFile {
    /** What the operating system has to give, and how much it has given. */
    const input: seq<byte>
    var offset: nat
    /** Answers of the read calls to come, and how many calls failed so far. */
    var script: seq<ReadAnswer>
    var failures: nat

    const bufferSize: nat
    const buffer: array<byte>
    var dataSize: nat
    var position: nat

    const partial: array<byte>
    var partialLen: nat
    var pushback: Option<seq<nat>>
    var iterating: bool
    var lineNumber: nat

    /** Full buffers read before the present one. */
    ghost var blocks: nat
    /** The text that the unread bytes encode. */
    ghost var text: seq<nat>

    ghost predicate Valid()
      reads `position, `dataSize, `offset, `blocks
    {
      && buffer.Length == bufferSize && partial.Length == 8 && partial != buffer
      && (bufferSize == 0 || bufferSize >= 4)
      && position <= dataSize <= bufferSize && offset <= |input|
      && (dataSize > 0 ==> offset == Offset(blocks, bufferSize) + dataSize)
      && (dataSize == 0 && bufferSize > 0 ==> offset == Offset(blocks, bufferSize) || offset == |input|)
      && (0 < dataSize < bufferSize ==> offset == |input|)
    }

    /** Bytes in the buffer and after it. */
    ghost function Unread(): seq<byte>
      requires Valid()
      reads `position, `dataSize, `offset, `blocks, buffer
    {
      buffer[position..dataSize] + input[offset..]
    }

    /** What is unread, with the bytes of a cut-off character, encodes t. */
    ghost predicate Ahead(t: seq<nat>)
      reads `position, `dataSize, `offset, `blocks, `partialLen, buffer, partial
    {
      && Valid() && Encodable(t)
      && (partialLen == 0 ==> Unread() == EncodeAll(t))
      && (partialLen > 0 ==> partialLen < 4 && position == dataSize && CutOff(partial[..partialLen], Unread(), t))
    }

    /** Between lines: a character is half read only after a read failed there. */
    ghost predicate BetweenLines()
      reads this, buffer, partial
    {
      Ahead(text)
    }

    ghost predicate NoFailures()
      reads `script
    {
      forall i :: 0 <= i < |script| ==> !script[i].Fails?
    }

    /** The last read will be short, so that the end of the file is noticed in time. */
    ghost predicate EndsRagged()
      requires bufferSize > 0
    {
      Remainder(|input|, bufferSize) != 0
    }

    constructor (bufferSize: nat, ghost text: seq<nat>, input: seq<byte>, script: seq<ReadAnswer>)
      requires (bufferSize == 0 || bufferSize >= 4) && Encodable(text) && input == EncodeAll(text)
      ensures Valid() && BetweenLines() && this.text == text && this.input == input && this.bufferSize == bufferSize
      ensures partialLen == 0 && this.script == script && failures == 0
      ensures pushback == None && lineNumber == 0 && !iterating && fresh(buffer) && fresh(partial)
    {
      this.bufferSize, this.input, offset := bufferSize, input, 0;
      buffer, partial := new byte[bufferSize], new byte[8];
      dataSize, position, partialLen := 0, 0, 0;
      this.script, failures := script, 0;
      pushback, iterating, lineNumber := None, false, 0;
      blocks, this.text := 0, text;
      new;
      assert buffer[0..0] + input[0..] == input;
    }

    /** The next chunk of the file replaces the used-up buffer; a read that fails leaves an empty buffer. */
    method Refill() returns (ok: bool)
      requires Valid() && bufferSize > 0 && position == dataSize
      modifies this`position, this`dataSize, this`offset, this`blocks, this`script, this`failures, buffer
      ensures Valid() && position == 0 && Unread() == old(Unread())
      ensures ok && dataSize == 0 ==> Unread() == [] && (old(dataSize) == bufferSize ==> !EndsRagged())
      ensures ok && dataSize < bufferSize ==> offset == |input|
      ensures ok ==> dataSize == Least(bufferSize, |old(Unread())|)
      ensures ok <==> failures == old(failures)
      ensures |script| <= |old(script)| && failures >= old(failures) && (old(NoFailures()) ==> ok && NoFailures())
      ensures !ok ==> dataSize == 0 && offset == old(offset) && |script| < |old(script)|
    {
      hide Offset, Remainder;
      NextBlock();
      assert Unread() == input[offset..];
      if dataSize == bufferSize {
        blocks := blocks + 1;
      }
      position := 0;
      var n;
      ok, n := FileRead(buffer, bufferSize);
      dataSize := n;
      assert buffer[0..n] == buffer[..n];
    }

    lemma NextBlock()
      requires Valid() && bufferSize > 0
      ensures Offset(blocks + 1, bufferSize) == Offset(blocks, bufferSize) + bufferSize
      ensures Remainder(Offset(blocks + 1, bufferSize), bufferSize) == 0
    {
      RemainderOfOffset(blocks + 1, bufferSize, 0);
    }

    /** The read system call on a regular file: a count, or -1 with the reason. */
    method OsRead(dest: array<byte>, size: nat) returns (n: int, interrupted: bool)
      requires offset <= |input| && size <= dest.Length
      modifies this`offset, this`script, this`failures, dest
      ensures n == -1 || 0 <= n <= size
      ensures n >= 0 ==> old(offset) + n == offset <= |input| && (n < size ==> offset == |input|)
      ensures n >= 0 ==> old(input[offset..]) == dest[..n] + input[offset..] && failures == old(failures)
      ensures n < 0 ==> offset == old(offset) && failures == old(failures) + (if interrupted then 0 else 1)
      ensures |script| <= |old(script)| && (n < 0 ==> |script| < |old(script)|)
      ensures old(NoFailures()) ==> NoFailures() && (n < 0 ==> interrupted)
    {
      if script != [] {
        var answer := script[0];
        script := script[1..];
        match answer
        case Interrupted =>
          return -1, true;
        case Fails =>
          failures := failures + 1;
          return -1, false;
        case Reads =>
      }
      n, interrupted := if size <= |input| - offset then size else |input| - offset, false;
      CopyInput(dest, n);
      Cut(input, offset, offset + n);
      offset := offset + n;
    }

    method CopyInput(dest: array<byte>, n: nat)
      requires n <= dest.Length && offset + n <= |input|
      modifies dest
      ensures dest[..n] == input[offset..offset + n]
    {
      forall i | 0 <= i < n {
        dest[i] := input[offset + i];
      }
    }

    /** file_read: tries again when interrupted (src/pw_file.c:244-261). */
    method FileRead(dest: array<byte>, size: nat) returns (ok: bool, n: nat)
      requires offset <= |input| && size <= dest.Length
      modifies this`offset, this`script, this`failures, dest
      ensures n <= size && (ok <==> failures == old(failures)) && failures >= old(failures)
      ensures ok ==> old(offset) + n == offset <= |input| && (n < size ==> offset == |input|)
      ensures ok ==> old(input[offset..]) == dest[..n] + input[offset..]
      ensures !ok ==> n == 0 && offset == old(offset) && |script| < |old(script)|
      ensures |script| <= |old(script)| && (old(NoFailures()) ==> ok && NoFailures())
    {
      var result, interrupted := OsRead(dest, size);
      while result < 0 && interrupted
        invariant result == -1 || 0 <= result <= size
        invariant result >= 0 ==> old(offset) + result == offset <= |input| && (result < size ==> offset == |input|)
        invariant result >= 0 ==> old(input[offset..]) == dest[..result] + input[offset..]
        invariant failures == old(failures) + if result < 0 && !interrupted then 1 else 0
        invariant result < 0 ==> offset == old(offset) && |script| < |old(script)|
        invariant |script| <= |old(script)|
        invariant old(NoFailures()) ==> NoFailures() && (result < 0 ==> interrupted)
        decreases |script| + if result < 0 && interrupted then 1 else 0
      {
        result, interrupted := OsRead(dest, size);
      }
      ok, n := result >= 0, if result >= 0 then result else 0;
    }

    /** Decodes from the buffer up to a line feed, or as far as whole characters go. */
    method Scan(ghost t: seq<nat>) returns (chars: seq<nat>, found: bool, ptr: nat)
      requires Valid() && Encodable(t) && Holds(buffer[..dataSize], position, input[offset..], t)
      ensures |chars| <= |t| && chars == t[..|chars|] && ptr <= dataSize
      ensures found ==> chars != [] && chars[|chars| - 1] == LF && NoFeed(chars[..|chars| - 1])
      ensures found ==> Holds(buffer[..dataSize], ptr, input[offset..], t[|chars|..])
      ensures !found ==> NoFeed(chars)
      ensures !found && ptr == dataSize ==> input[offset..] == EncodeAll(t[|chars|..])
      ensures !found && ptr < dataSize ==> CutOff(buffer[ptr..dataSize], input[offset..], t[|chars|..])
      ensures position < dataSize && ptr == dataSize ==> chars != []
    {
      hide EncodeAll, EncodeChar, DecodeBuffer, CutOff;
      chars, found, ptr := [], false, position;
      ghost var chunk, after := buffer[..dataSize], input[offset..];
      assert t[0..] == t;
      while ptr < dataSize
        invariant |chars| <= |t| && chars == t[..|chars|] && NoFeed(chars)
        invariant position <= ptr <= dataSize && Holds(chunk, ptr, after, t[|chars|..])
        invariant ptr > position ==> chars != []
        decreases dataSize - ptr
      {
        NextChar(chunk, ptr, after, t[|chars|..]);
        var st := DecodeBuffer(buffer[..dataSize], ptr);
        if st.Incomplete? {
          CutOffAt(chunk, ptr, after, t[|chars|..]);
          assert chunk[ptr..] == buffer[ptr..dataSize];
          return;
        }
        assert t[|chars|..][1..] == t[|chars| + 1..];
        ptr := st.next;
        if st.code != BAD {
          ghost var before := chars;
          chars := chars + [st.code];
          assert t[..|before| + 1] == t[..|before|] + [t[|before|]];
          if st.code == LF {
            found := true;
            assert chars[..|chars| - 1] == before;
            return;
          }
        }
      }
      assert chunk[dataSize..] + after == after;
    }

    /** Completes the character cut off at the end of the chunk before. */
    method FinishPartial(ghost t: seq<nat>) returns (chars: seq<nat>)
      requires Valid() && Encodable(t) && position == 0 && partialLen < 8
      requires CutOff(partial[..partialLen], buffer[0..dataSize] + input[offset..], t)
      requires dataSize >= 4 || offset == |input|
      modifies this`position, this`partialLen, partial
      ensures Valid() && partialLen == 0 && t != [] && chars == t[..1] && t[0] != LF
      ensures Holds(buffer[..dataSize], position, input[offset..], t[1..])
    {
      hide EncodeAll, EncodeChar, DecodeBuffer, Continuation, CutOff, Holds, Encodable;
      chars := [];
      ghost var chunk, after := buffer[..dataSize], input[offset..];
      assert buffer[0..dataSize] == chunk[0..];
      CutOffIsShort(partial[..partialLen], chunk[0..] + after, t);
      while partialLen < 8
        invariant Valid() && partialLen < 4 && position <= dataSize && chars == []
        invariant partialLen + (dataSize - position) >= 4 || after == []
        invariant CutOff(partial[..partialLen], chunk[position..] + after, t)
        decreases dataSize - position
      {
        PartialStep(partial[..partialLen], chunk, position, after, t);
        var c := buffer[position];
        if c < 0x80 || !Continuation(c) {
          break;
        }
        position := position + 1;
        ghost var before := partial[..partialLen];
        partial[partialLen] := c;
        partialLen := partialLen + 1;
        assert partial[..partialLen] == before + [c];
        var st := DecodeBuffer(partial[..partialLen], 0);
        if st.Char? {
          if st.code != BAD {
            chars := [st.code];
          }
          break;
        }
      }
      partialLen := 0;
    }

    /** Keeps the bytes of a cut-off character for the next chunk. */
    method SavePartial(ptr: nat)
      requires Valid() && partialLen == 0 && ptr <= dataSize < ptr + 8
      modifies this`partialLen, partial
      ensures Valid() && partialLen == dataSize - ptr && partial[..partialLen] == buffer[ptr..dataSize]
    {
      forall i | 0 <= i < dataSize - ptr {
        partial[i] := buffer[ptr + i];
      }
      partialLen := dataSize - ptr;
    }

    /** Fetches the next chunk when the buffer is used up; `more` tells whether there was one. */
    method NextChunk(ghost t: seq<nat>) returns (ok: bool, chars: seq<nat>, more: bool)
      requires Ahead(t) && bufferSize > 0
      modifies this`position, this`dataSize, this`offset, this`blocks, this`partialLen, this`script, this`failures,
          buffer, partial
      ensures ok ==> Valid() && partialLen == 0 && IsPrefix(chars, t) && NoFeed(chars)
      ensures ok ==> Unread() == EncodeAll(t[|chars|..])
      ensures ok && !more ==> t == [] && (old(dataSize) == bufferSize ==> !EndsRagged())
      ensures ok && more ==> dataSize > 0 && (chars != [] || position < dataSize)
      ensures |input| - offset <= old(|input| - offset)
      ensures ok && more && old(position == dataSize) ==> |input| - offset < old(|input| - offset)
      ensures old(position < dataSize) ==> position == old(position) && dataSize == old(dataSize) && chars == []
      ensures ok <==> failures == old(failures)
      ensures |script| <= |old(script)| && failures >= old(failures) && (old(NoFailures()) ==> ok && NoFailures())
      ensures !ok ==> Ahead(t) && chars == [] && |script| < |old(script)|
    {
      hide EncodeAll, CutOff, NoFailures;
      ok, chars, more := true, [], true;
      assert t[0..] == t;
      if position == dataSize {
        ghost var unread := Unread();
        ok := Refill();
        if !ok {
          return;
        }
        if dataSize == 0 {
          NothingAhead(partial[..partialLen], Unread(), t);
          return ok, [], false;
        }
        if partialLen > 0 {
          assert Unread() == buffer[0..dataSize] + input[offset..];
          chars := FinishPartial(t);
          assert buffer[position..dataSize] == buffer[..dataSize][position..];
          assert chars == [t[0]];
        }
      }
    }

    /** Decodes from the chunk, and says why decoding stopped. */
    method DecodeChunk(ghost u: seq<nat>) returns (chars: seq<nat>, progress: Progress)
      requires Ahead(u) && bufferSize > 0 && partialLen == 0 && dataSize > 0
      modifies this`position, this`dataSize, this`partialLen, partial
      ensures IsPrefix(chars, u) && Ahead(u[|chars|..])
      ensures progress != NoMore && progress != Broken && (progress != GoesOn ==> partialLen == 0)
      ensures progress == AtFeed ==> EndsInOnlyFeed(chars)
      ensures progress == ShortChunk ==> NoFeed(chars) && u[|chars|..] == [] && EndsRagged()
      ensures progress == GoesOn ==> NoFeed(chars) && position == dataSize == bufferSize
      ensures progress != AtFeed && old(position < dataSize) && partialLen == 0 ==> chars != []
      ensures progress == GoesOn ==>
              old(position < dataSize) || (old(position) == position && old(dataSize) == dataSize)
    {
      hide EncodeAll, CutOff, EndsRagged, LineLength;
      assert buffer[..dataSize][position..] == buffer[position..dataSize];
      var found, ptr;
      chars, found, ptr := Scan(u);
      if found {
        position := ptr;
        assert buffer[..dataSize][position..] == buffer[position..dataSize];
        return chars, AtFeed;
      }
      if ptr < dataSize {
        CutOffIsShort(buffer[ptr..dataSize], input[offset..], u[|chars|..]);
      }
      SavePartial(ptr);
      if dataSize < bufferSize {
        NothingAhead(partial[..partialLen], input[offset..], u[|chars|..]);
        RaggedHere();
        position, dataSize := 0, 0;
        assert Unread() == input[offset..];
        return chars, ShortChunk;
      }
      position := dataSize;
      assert Unread() == input[offset..];
      progress := GoesOn;
    }

    /** One round of the reading loop: fetches a chunk if need be and decodes from it. */
    method Round(ghost t: seq<nat>) returns (chars: seq<nat>, progress: Progress)
      requires Ahead(t) && bufferSize > 0
      modifies this`position, this`dataSize, this`offset, this`blocks, this`partialLen, this`script, this`failures,
          buffer, partial
      ensures IsPrefix(chars, t) && Ahead(t[|chars|..])
      ensures progress != GoesOn && progress != Broken ==> partialLen == 0
      ensures progress == NoMore ==> chars == [] && t == [] && (old(dataSize) == bufferSize ==> !EndsRagged())
      ensures progress == AtFeed ==> EndsInOnlyFeed(chars)
      ensures progress == ShortChunk ==> NoFeed(chars) && chars != [] && chars == t && EndsRagged()
      ensures progress == GoesOn ==> NoFeed(chars) && position == dataSize == bufferSize
      ensures |input| - offset <= old(|input| - offset)
      ensures progress == GoesOn && old(position == dataSize) ==> |input| - offset < old(|input| - offset)
      ensures progress != Broken <==> failures == old(failures)
      ensures |script| <= |old(script)| && failures >= old(failures)
      ensures old(NoFailures()) ==> progress != Broken && NoFailures()
      ensures progress == Broken ==> chars == [] && |script| < |old(script)|
    {
      hide EncodeAll, CutOff, EndsRagged, LineLength, EndsInOnlyFeed, NoFeed, Encodable, IsPrefix, NoFailures;
      Prefixes(t);
      var ok, first, more := NextChunk(t);
      if !ok {
        return [], Broken;
      }
      if !more {
        return [], NoMore;
      }
      chars, progress := DecodeChunk(t[|first|..]);
      Concatenated(t, first, chars);
      chars := first + chars;
    }

    lemma Prefixes(t: seq<nat>)
      ensures IsPrefix([], t) && t[0..] == t
      ensures Encodable(t) ==> forall k :: 0 <= k <= |t| ==> Encodable(t[k..])
    {
    }

    /** Reads the rest of a line that is not pushed back. */
    method ReadOn() returns (status: Status, line: seq<nat>)
      requires Valid() && BetweenLines() && bufferSize > 0
      modifies this`position, this`dataSize, this`offset, this`blocks, this`partialLen, this`lineNumber, this`text,
          this`script, this`failures, buffer, partial
      ensures Valid() && BetweenLines() && (status == Good || status == Eof || status == Failed)
      ensures status != Failed <==> failures == old(failures)
      ensures status != Failed ==> partialLen == 0
      ensures status != Failed ==> (status == Good <==> !NoFeed(old(text)) || (old(text) != [] && EndsRagged()))
      ensures status == Good ==>
              line == old(text)[..LineLength(old(text))] && text == old(text)[LineLength(old(text))..]
      ensures status == Eof ==> line == old(text) && text == [] && NoFeed(line)
      ensures status == Failed ==> old(text) == line + text && NoFeed(line) && |script| < |old(script)|
      ensures |script| <= |old(script)| && failures >= old(failures)
      ensures old(NoFailures()) ==> status != Failed && NoFailures()
      ensures lineNumber == if status == Good then U32(old(lineNumber) + 1) else old(lineNumber)
    {
      hide *;
      line := [];
      ghost var t := text;
      StartAhead();
      assert line + t == text;
      EmptyFeed();
      while true
        invariant Ahead(t) && line + t == old(text) && NoFeed(line) && lineNumber == old(lineNumber)
        invariant failures == old(failures) && |script| <= |old(script)| && (old(NoFailures()) ==> NoFailures())
        invariant (line == [] && t == old(text)) || position == dataSize == bufferSize
        decreases |input| - offset, dataSize - position
      {
        AheadFacts(t);
        var chars, progress := Round(t);
        ghost var before := line;
        AddedChars(line, chars, t, old(text));
        line, t := line + chars, t[|chars|..];
        if progress == Broken {
          FinishLine(t, false);
          return Failed, line;
        }
        if progress == AtFeed {
          FedLineRead(before, chars, t, old(text));
          FinishLine(t, true);
          return Good, line;
        }
        if progress != GoesOn {
          LastLineRead(line, t, old(text));
          FinishLine(t, progress == ShortChunk);
          return if progress == NoMore then Eof else Good, line;
        }
      }
    }

    /** The line has been read; what is left of the text is t. */
    method FinishLine(ghost t: seq<nat>, counted: bool)
      requires Ahead(t)
      modifies this`lineNumber, this`text
      ensures Valid() && BetweenLines() && text == t
      ensures lineNumber == if counted then U32(old(lineNumber) + 1) else old(lineNumber)
    {
      if counted {
        lineNumber := U32(lineNumber + 1);
      }
      text := t;
    }

    lemma StartAhead()
      requires BetweenLines()
      ensures Ahead(text)
    {
    }

    lemma AheadFacts(t: seq<nat>)
      requires Ahead(t)
      ensures Valid() && position <= dataSize <= bufferSize && offset <= |input|
    {
    }

    /**
     Reads the next line, which is the one pushed back if there is one (src/pw_file.c:628-732). When a read fails or the
     file ends first, the characters taken so far stay in `line` and no later call gives them again.
     */
    method ReadLine() returns (status: Status, line: seq<nat>)
      requires Valid() && BetweenLines()
      modifies this`position, this`dataSize, this`offset, this`blocks, this`partialLen, this`lineNumber, this`text,
          this`pushback, this`script, this`failures, buffer, partial
      ensures Valid() && BetweenLines() && pushback == if bufferSize == 0 then old(pushback) else None
      ensures bufferSize == 0 ==> status == Unbuffered && text == old(text)
      ensures bufferSize > 0 && old(pushback.Some?) ==>
              status == Good && Some(line) == old(pushback) && text == old(text)
      ensures bufferSize > 0 && old(pushback.None?) && status != Failed ==>
              (status == Good <==> !NoFeed(old(text)) || (old(text) != [] && EndsRagged()))
      ensures bufferSize > 0 && old(pushback.None?) && status == Good ==>
                line == old(text)[..LineLength(old(text))] && text == old(text)[LineLength(old(text))..]
      ensures bufferSize > 0 && status != Good && status != Failed ==>
              status == Eof && line == old(text) && text == [] && NoFeed(line)
      ensures status == Failed ==> old(text) == line + text && NoFeed(line) && |script| < |old(script)|
      ensures status != Failed <==> failures == old(failures)
      ensures |script| <= |old(script)| && failures >= old(failures)
      ensures old(NoFailures()) ==> status != Failed && NoFailures()
      ensures lineNumber == if status == Good then U32(old(lineNumber) + 1) else old(lineNumber)
    {
      hide EncodeAll, LineLength, NoFeed, Encodable, Offset, NoFailures, Ahead;
      if bufferSize == 0 {
        return Unbuffered, [];
      }
      if pushback.Some? {
        line := pushback.value;
        pushback := None;
        lineNumber := U32(lineNumber + 1);
        return Good, line;
      }
      status, line := ReadOn();
    }

    /** Pushes a line back; only one fits. */
    method UnreadLine(line: seq<nat>) returns (ok: bool)
      modifies this`pushback, this`lineNumber
      ensures ok <==> old(pushback) == None
      ensures ok ==> pushback == Some(line) && lineNumber == U32(old(lineNumber) - 1)
      ensures !ok ==> pushback == old(pushback) && lineNumber == old(lineNumber)
    {
      ok := pushback == None;
      if ok {
        pushback, lineNumber := Some(line), U32(lineNumber - 1);
      }
    }

    /** Begins an iteration over lines; the place in the file stays, but bytes of a character half read are dropped. */
    method StartReadLines() returns (status: Status)
      requires Valid() && BetweenLines()
      modifies this`partialLen, this`lineNumber, this`pushback, this`iterating
      ensures Valid() && Unread() == old(Unread()) && status == if bufferSize == 0 then Unbuffered else Good
      ensures old(partialLen) == 0 || status != Good ==> BetweenLines()
      ensures status == Good ==> iterating && pushback == None && lineNumber == 0 && partialLen == 0
      ensures status != Good ==>
              iterating == old(iterating) && pushback == old(pushback) && lineNumber == old(lineNumber)
    {
      if bufferSize == 0 {
        return Unbuffered;
      }
      partialLen, lineNumber, pushback, iterating := 0, 0, None, true;
      status := Good;
    }

    /** Reads bytes through the buffer (src/pw_file.c:498-530): always the next ones of the file. */
    method Read(size: nat) returns (status: Status, bytes: seq<byte>)
      requires Valid()
      modifies this`position, this`dataSize, this`offset, this`blocks, this`script, this`failures, buffer
      ensures Valid() && |bytes| <= size && old(Unread()) == bytes + Unread()
      ensures iterating <==> status == Busy
      ensures status == Eof ==> bufferSize > 0 && old(Unread()) == []
      ensures status == Good ==>
                |bytes| == Least(size, if bufferSize == 0 then |old(Unread())|
                                       else if old(position < dataSize) then old(dataSize - position)
                                       else Least(bufferSize, |old(Unread())|))
      ensures status == Good && bufferSize > 0 ==> old(Unread()) != []
      ensures status != Unbuffered && (status != Good ==> bytes == [])
      ensures status == Failed <==> failures != old(failures)
      ensures old(NoFailures()) ==> status != Failed && NoFailures()
    {
      hide *;
      NothingBefore(Unread());
      UnreadLength();
      if iterating {
        return Busy, [];
      }
      if bufferSize == 0 {
        status, bytes := DirectRead(size);
        return;
      }
      if position == dataSize {
        var ok := Refill();
        if !ok {
          NothingBefore(Unread());
          return Failed, [];
        }
        if dataSize == 0 {
          NothingBefore(Unread());
          return Eof, [];
        }
      }
      UnreadLength();
      bytes := TakeBuffered(size);
      status := Good;
    }

    /** Takes bytes from the buffer, as many as are wanted and there. */
    method TakeBuffered(size: nat) returns (bytes: seq<byte>)
      requires Valid()
      modifies this`position
      ensures Valid() && |bytes| <= size && old(Unread()) == bytes + Unread()
      ensures |bytes| == Least(size, dataSize - old(position))
    {
      hide Offset;
      var n := if dataSize - position < size then dataSize - position else size;
      bytes := buffer[position..position + n];
      Taken(buffer, position, position + n, dataSize, input[offset..]);
      position := position + n;
    }

    /** Without a buffer the file is read directly. */
    method DirectRead(size: nat) returns (status: Status, bytes: seq<byte>)
      requires Valid() && bufferSize == 0
      modifies this`offset, this`script, this`failures
      ensures Valid() && |bytes| <= size && old(Unread()) == bytes + Unread()
      ensures status == if failures == old(failures) then Good else Failed
      ensures status == Failed ==> bytes == []
      ensures status == Good ==> |bytes| == Least(size, |old(Unread())|)
      ensures old(NoFailures()) ==> status != Failed && NoFailures()
    {
      hide *;
      NothingBuffered();
      NothingBefore(input[offset..]);
      var dest := new byte[size];
      var ok, n := FileRead(dest, size);
      StaysDirect();
      LeastIs(n, size, old(|Unread()|));
      status, bytes := if ok then Good else Failed, dest[..n];
    }

    lemma UnreadLength()
      requires Valid()
      ensures position <= dataSize && offset <= |input|
      ensures |Unread()| == dataSize - position + |input| - offset
    {
    }

    lemma NothingRead()
      requires Valid()
      ensures [] + Unread() == Unread()
    {
    }

    /** A read of some bytes gives none only when none are left. */
    lemma SomethingThere(size: nat)
      requires Valid() && size > 0
      ensures var n := Least(size, if bufferSize == 0 then |Unread()|
                                   else if position < dataSize then dataSize - position
                                   else Least(bufferSize, |Unread()|));
              n == 0 ==> Unread() == []
    {
    }

    lemma NothingBuffered()
      requires Valid() && bufferSize == 0
      ensures position == dataSize == 0 && buffer.Length == 0 && partial.Length == 8 && partial != buffer
      ensures offset <= |input| && Unread() == input[offset..]
    {
      assert buffer[0..0] + input[offset..] == input[offset..];
    }

    lemma StaysDirect()
      requires bufferSize == 0 && position == dataSize == 0 && buffer.Length == 0 && partial.Length == 8
      requires partial != buffer && offset <= |input|
      ensures Valid() && Unread() == input[offset..]
    {
      assert buffer[0..0] + input[offset..] == input[offset..];
    }

    lemma RaggedHere()
      requires Valid() && 0 < dataSize < bufferSize
      ensures EndsRagged()
    {
      RemainderOfOffset(blocks, bufferSize, dataSize);
    }
  }

  /** Reading on in pieces of any sizes until no more comes gives the whole unread content, if no read fails. */
  method ReadToEnd(f: ReadFile, sizes: nat -> nat) returns (content: seq<byte>)
    requires f.Valid() && !f.iterating && forall i :: sizes(i) > 0
    modifies f, f.buffer
    ensures f.Valid() && old(f.Unread()) == content + f.Unread()
    ensures f.failures == old(f.failures) ==> content == old(f.Unread()) && f.Unread() == []
    ensures old(f.NoFailures()) ==> f.failures == old(f.failures)
  {
    hide *;
    content := [];
    var i := 0;
    f.NothingRead();
    while true
      invariant f.Valid() && !f.iterating && old(f.Unread()) == content + f.Unread()
      invariant f.failures == old(f.failures) && (old(f.NoFailures()) ==> f.NoFailures())
      decreases |f.Unread()|
    {
      ghost var unread := f.Unread();
      f.SomethingThere(sizes(i));
      var status, bytes := f.Read(sizes(i));
      Regroup3(content, bytes, f.Unread());
      content := content + bytes;
      if status != Good || bytes == [] {
        return;
      }
      i := i + 1;
    }
  }

  lemma Regroup3(a: seq<byte>, b: seq<byte>, c: seq<byte>)
    ensures a + (b + c) == a + b + c && (b + c == [] ==> b == [] && c == []) && a + [] == a
    ensures |b + c| == |b| + |c|
  {
  }

  /** All the lines that ReadLine delivers, in order. */
  method ReadAllLines(f: ReadFile) returns (lines: seq<seq<nat>>)
    requires f.Valid() && f.BetweenLines() && f.bufferSize > 0 && f.pushback == None
    modifies f, f.buffer, f.partial
    ensures f.failures == old(f.failures) ==>
              lines == if f.EndsRagged() then Lines(old(f.text)) else FedLines(old(f.text))
    ensures old(f.NoFailures()) ==> f.failures == old(f.failures)
  {
    hide *;
    lines := [];
    LinesUnfold(f.text);
    Regroup([], [], Lines(f.text));
    Regroup([], [], FedLines(f.text));
    while true
      invariant f.Valid() && f.BetweenLines() && f.pushback == None
      invariant f.failures == old(f.failures) && (old(f.NoFailures()) ==> f.NoFailures())
      invariant f.EndsRagged() ==> lines + Lines(f.text) == Lines(old(f.text))
      invariant !f.EndsRagged() ==> lines + FedLines(f.text) == FedLines(old(f.text))
      decreases |f.text|
    {
      LinesUnfold(f.text);
      ghost var rest := f.text[LineLength(f.text)..];
      ghost var piece := f.text[..LineLength(f.text)];
      var status, line := f.ReadLine();
      Regroup(lines, piece, Lines(rest));
      Regroup(lines, piece, FedLines(rest));
      if status != Good {
        return;
      }
      lines := lines + [line];
    }
  }

  // ----- reading on after failures -----

  /** A line that was delivered, or characters that a failing read or the end of the file lost. */
  datatype Piece = Line(text: seq<nat>) | Lost(text: seq<nat>)

  function Delivered(pieces: seq<Piece>): seq<seq<nat>> {
    if pieces == [] then []
    else (if pieces[0].Line? then [pieces[0].text] else []) + Delivered(pieces[1..])
  }

  function Together(pieces: seq<Piece>): seq<nat> {
    if pieces == [] then [] else pieces[0].text + Together(pieces[1..])
  }

  predicate NothingLost(pieces: seq<Piece>) {
    forall i :: 0 <= i < |pieces| && pieces[i].Lost? ==> pieces[i].text == []
  }

  /**
   A caller that goes on after every failing read: whatever fails when, the lines it gets and the characters it loses
   are the text in order. It gets the lines of the text if and only if it loses nothing.
   */
  method ReadThrough(f: ReadFile) returns (pieces: seq<Piece>)
    requires f.Valid() && f.BetweenLines() && f.bufferSize > 0 && f.pushback == None
    modifies f, f.buffer, f.partial
    ensures Together(pieces) == old(f.text)
    ensures Delivered(pieces) == Lines(old(f.text)) <==> NothingLost(pieces)
    decreases |f.text|, |f.script|
  {
    hide *;
    ghost var t := f.text;
    LinesUnfold(t);
    var status, line := f.ReadLine();
    if status == Eof {
      pieces := [Lost(line)];
      AtTheEnd(line);
      return;
    }
    var rest := ReadThrough(f);
    if status == Good {
      pieces := [Line(line)] + rest;
      LineFirst(line, t, rest);
    } else {
      pieces := [Lost(line)] + rest;
      LostFirst(line, t, rest);
    }
  }

  lemma {:induction false} FewerDelivered(pieces: seq<Piece>)
    ensures |Join(Delivered(pieces))| <= |Together(pieces)|
  {
    if pieces != [] {
      FewerDelivered(pieces[1..]);
      if pieces[0].Line? {
        assert Delivered(pieces) == [pieces[0].text] + Delivered(pieces[1..]);
        assert Delivered(pieces)[1..] == Delivered(pieces[1..]);
      } else {
        assert Delivered(pieces) == Delivered(pieces[1..]);
      }
    }
  }

  lemma AtTheEnd(line: seq<nat>)
    requires NoFeed(line)
    ensures Together([Lost(line)]) == line
    ensures Delivered([Lost(line)]) == Lines(line) <==> NothingLost([Lost(line)])
  {
    assert Delivered([Lost(line)]) == [];
    assert [Lost(line)][0] == Lost(line);
  }

  lemma LineFirst(line: seq<nat>, t: seq<nat>, rest: seq<Piece>)
    requires t != [] && line == t[..LineLength(t)] && Together(rest) == t[LineLength(t)..]
    requires Delivered(rest) == Lines(t[LineLength(t)..]) <==> NothingLost(rest)
    ensures var pieces := [Line(line)] + rest;
            && Together(pieces) == t
            && (Delivered(pieces) == Lines(t) <==> NothingLost(pieces))
  {
    var pieces := [Line(line)] + rest;
    LinesUnfold(t);
    hide LineLength;
    assert pieces[1..] == rest;
    assert Delivered(pieces) == [line] + Delivered(rest) && Delivered(pieces)[1..] == Delivered(rest);
    assert Lines(t)[1..] == Lines(t[LineLength(t)..]);
    assert forall i :: 0 <= i < |rest| ==> pieces[i + 1] == rest[i];
    assert NothingLost(pieces) <==> NothingLost(rest);
  }

  lemma LostFirst(line: seq<nat>, t: seq<nat>, rest: seq<Piece>)
    requires t == line + Together(rest) && NoFeed(line)
    requires Delivered(rest) == Lines(Together(rest)) <==> NothingLost(rest)
    ensures var pieces := [Lost(line)] + rest;
            && Together(pieces) == t
            && (Delivered(pieces) == Lines(t) <==> NothingLost(pieces))
  {
    var pieces := [Lost(line)] + rest;
    assert pieces[1..] == rest && pieces[0] == Lost(line);
    assert Delivered(pieces) == Delivered(rest);
    assert forall i :: 0 <= i < |rest| ==> pieces[i + 1] == rest[i];
    assert NothingLost(pieces) <==> line == [] && NothingLost(rest);
    if line == [] {
      assert t == Together(rest);
    } else {
      FewerDelivered(rest);
      JoinLines(t);
    }
  }

  lemma Regroup(lines: seq<seq<nat>>, line: seq<nat>, rest: seq<seq<nat>>)
    ensures lines + ([line] + rest) == lines + [line] + rest
    ensures lines + [] == lines && [] + rest == rest
  {
  }

  lemma LinesUnfold(t: seq<nat>)
    ensures Lines(t) == if t == [] then [] else [t[..LineLength(t)]] + Lines(t[LineLength(t)..])
    ensures FedLines(t) == if NoFeed(t) then [] else [t[..LineLength(t)]] + FedLines(t[LineLength(t)..])
    ensures t == [] ==> NoFeed(t)
    ensures t != [] ==> |t[LineLength(t)..]| < |t|
  {
  }

  lemma {:induction false} RemainderOfOffset(n: nat, w: nat, r: nat)
    requires r < w
    ensures Remainder(Offset(n, w) + r, w) == r
  {
    if n > 0 {
      RemainderOfOffset(n - 1, w, r);
    }
  }
}

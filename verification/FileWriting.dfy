/**
 The writing half of a buffered file (src/pw_file.c:271-295, 387-413, 543-601). The operating
 system is a sequence of bytes and a script of its answers to write calls: short writes,
 interruptions and failures in any order.
 */
module FileWriting {
  import opened Radix

  /** What one write call does: takes up to n bytes, is interrupted, or fails. */
  datatype OsAnswer = Wrote(n: nat) | Interrupted | Failed

  function Min(a: nat, b: nat): nat {
    if a <= b then a else b
  }

  class WriteFile {
    /** Everything the operating system has taken. */
    var content: seq<byte>
    /** Its answers to come; it fails when there are none left. */
    var script: seq<OsAnswer>
    /** Write calls that failed so far. */
    var failures: nat

    const bufferSize: nat
    const buffer: array<byte>
    var position: nat
    var iterating: bool

    ghost predicate Valid()
      reads this
    {
      buffer.Length == bufferSize && position <= bufferSize
    }

    /** Bytes accepted but not yet written. */
    ghost function Pending(): seq<byte>
      requires Valid()
      reads this, buffer
    {
      buffer[..position]
    }

    /** All bytes accepted, written or pending. */
    ghost function Accepted(): seq<byte>
      requires Valid()
      reads this, buffer
    {
      content + Pending()
    }

    constructor (content: seq<byte>, script: seq<OsAnswer>, bufferSize: nat)
      ensures Valid() && Accepted() == content && !iterating && fresh(buffer)
      ensures this.bufferSize == bufferSize && this.content == content && position == 0
    {
      this.content, this.script, failures := content, script, 0;
      this.bufferSize, buffer := bufferSize, new byte[bufferSize];
      position, iterating := 0, false;
    }

    /** The write system call: a count, or -1 with the reason. */
    method OsWrite(data: seq<byte>) returns (n: int, interrupted: bool)
      requires data != []
      modifies this`content, this`script, this`failures
      ensures 0 <= n <= |data| || n == -1
      ensures n >= 0 ==> content == old(content) + data[..n] && failures == old(failures)
      ensures n < 0 ==> content == old(content) && failures == old(failures) + (if interrupted then 0 else 1)
      ensures |script| <= |old(script)| && (n >= 0 || interrupted ==> |script| < |old(script)|)
    {
      if script == [] {
        failures := failures + 1;
        return -1, false;
      }
      var answer := script[0];
      script := script[1..];
      match answer
      case Wrote(k) =>
        n, interrupted := Min(k, |data|), false;
        content := content + data[..n];
      case Interrupted =>
        n, interrupted := -1, true;
      case Failed =>
        failures := failures + 1;
        n, interrupted := -1, false;
    }

    /** Writes until everything is taken or a call fails; exactly the first `written` bytes reach the file. */
    method FileWrite(data: seq<byte>) returns (ok: bool, written: nat)
      modifies this`content, this`script, this`failures
      ensures written <= |data| && content == old(content) + data[..written]
      ensures ok <==> failures == old(failures)
      ensures ok ==> written == |data|
      ensures failures >= old(failures)
    {
      written := 0;
      while written < |data|
        invariant written <= |data| && content == old(content) + data[..written]
        invariant failures == old(failures)
        decreases |script|
      {
        ghost var left := |script|;
        var n, interrupted := OsWrite(data[written..]);
        while n < 0 && interrupted
          invariant 0 <= n <= |data| - written || n == -1
          invariant n >= 0 ==>
                    content == old(content) + data[..written] + data[written..][..n] && failures == old(failures)
          invariant n < 0 ==> content == old(content) + data[..written]
          invariant n < 0 ==> failures == old(failures) + (if interrupted then 0 else 1)
          invariant n >= 0 || interrupted ==> |script| < left
          decreases |script| + if n < 0 && interrupted then 1 else 0
        {
          n, interrupted := OsWrite(data[written..]);
        }
        if n < 0 {
          return false, written;
        }
        assert data[..written] + data[written..][..n] == data[..written + n];
        written := written + n;
      }
      ok := true;
    }

    /** Writes out what is pending; what could not be written stays pending. */
    method Flush() returns (ok: bool)
      requires Valid()
      modifies this`content, this`script, this`failures, this`position, buffer
      ensures Valid() && Accepted() == old(Accepted())
      ensures ok ==> position == 0 && Pending() == [] && content == Accepted()
      ensures ok <==> old(position) == 0 || (!iterating && failures == old(failures))
      ensures failures >= old(failures)
    {
      if position == 0 {
        return true;
      }
      if iterating {
        return false;
      }
      var pending := buffer[..position];
      ghost var content0 := content;
      var done, written := FileWrite(pending);
      CutAt(content0, pending, written);
      if done {
        position := 0;
        assert content + Pending() == content;
        return true;
      }
      DropWritten(written);
      return false;
    }

    /** Moves what is still pending to the front of the buffer. */
    method DropWritten(written: nat)
      requires Valid() && written <= position
      modifies this`position, buffer
      ensures Valid() && position == old(position) - written && Pending() == old(Pending())[written..]
    {
      ghost var before := buffer[..];
      position := position - written;
      forall i | 0 <= i < position {
        buffer[i] := buffer[written + i];
      }
      assert forall i :: 0 <= i < position ==> buffer[i] == before[written + i];
    }

    /**
     Accepts bytes through the buffer. In every outcome what is written or pending afterwards
     is what was before, followed by exactly the first `bytesWritten` bytes of the data.
     */
    method Write(data: seq<byte>) returns (ok: bool, bytesWritten: nat)
      requires Valid()
      modifies this`content, this`script, this`failures, this`position, buffer
      ensures Valid() && bytesWritten <= |data|
      ensures Accepted() == old(Accepted()) + data[..bytesWritten]
      ensures ok ==> bytesWritten == |data|
      ensures ok && data != [] && bufferSize > 0 ==>
                |Pending()| == Remainder(|old(Pending())| + |data|, bufferSize)
      ensures ok <==> data == [] || (!iterating && failures == old(failures))
      ensures failures >= old(failures)
    {
      bytesWritten := 0;
      if data == [] {
        return true, 0;
      }
      if iterating {
        return false, 0;
      }
      if bufferSize == 0 {
        ok, bytesWritten := FileWrite(data);
        return;
      }
      bytesWritten := FillFront(data);
      RemainderFrom(old(position) + |data|, bufferSize);
      if position < bufferSize {
        return true, bytesWritten;
      }
      ok := Flush();
      if !ok {
        return;
      }
      var more;
      ok, more := WriteDirect(data[bytesWritten..]);
      PartTwice(old(Accepted()), data, bytesWritten, more);
      bytesWritten := bytesWritten + more;
    }

    /** Fills what room the buffer has. */
    method FillFront(data: seq<byte>) returns (n: nat)
      requires Valid()
      modifies this`position, buffer
      ensures Valid() && n <= |data| && Accepted() == old(Accepted()) + data[..n]
      ensures position == old(position) + n && (position < bufferSize ==> n == |data|)
    {
      n := 0;
      var remaining := bufferSize - position;
      if remaining != 0 {
        n := Min(|data|, remaining);
        FillBuffer(data[..n]);
      }
    }

    /** Writes whole buffers directly and keeps the rest pending; the buffer is empty to begin with. */
    method WriteDirect(data: seq<byte>) returns (ok: bool, done: nat)
      requires Valid() && position == 0 && bufferSize > 0
      modifies this`content, this`script, this`failures, this`position, buffer
      ensures Valid() && done <= |data|
      ensures Accepted() == old(content) + data[..done]
      ensures ok ==> done == |data| && position == Remainder(|data|, bufferSize)
      ensures ok <==> failures == old(failures)
      ensures failures >= old(failures)
    {
      done := 0;
      while |data| - done >= bufferSize
        invariant Valid() && position == 0 && done <= |data| && failures == old(failures)
        invariant content == old(content) + data[..done]
        invariant Remainder(|data| - done, bufferSize) == Remainder(|data|, bufferSize)
      {
        var chunk := data[done..done + bufferSize];
        var written, n := FileWrite(chunk);
        assert data[..done] + chunk[..n] == data[..done + n];
        done := done + n;
        if !written {
          return false, done;
        }
      }
      if done < |data| {
        FillBuffer(data[done..]);
        assert old(content) + data[..done] + data[done..] == old(content) + data;
        done := |data|;
      }
      ok := true;
    }

    /** Copies bytes behind the pending ones. */
    method FillBuffer(part: seq<byte>)
      requires Valid() && position + |part| <= bufferSize
      modifies this`position, buffer
      ensures Valid() && position == old(position) + |part|
      ensures Pending() == old(Pending()) + part
    {
      forall i | 0 <= i < |part| {
        buffer[position + i] := part[i];
      }
      position := position + |part|;
    }

    /** Any run of writes: accepted are the pieces' prefixes in order, however the pieces are cut. */
    method WriteAll(pieces: seq<seq<byte>>) returns (ok: bool, counts: seq<nat>)
      requires Valid()
      modifies this`content, this`script, this`failures, this`position, buffer
      ensures Valid() && |counts| == |pieces|
      ensures forall i :: 0 <= i < |pieces| ==> counts[i] <= |pieces[i]|
      ensures Accepted() == old(Accepted()) + Prefixes(pieces, counts)
      ensures ok ==> Accepted() == old(Accepted()) + Flatten(pieces)
      ensures !iterating && failures == old(failures) ==> ok
      ensures failures >= old(failures)
      decreases |pieces|
    {
      if pieces == [] {
        return true, [];
      }
      var done, n := Write(pieces[0]);
      ghost var between := Accepted();
      var rest, ns := WriteAll(pieces[1..]);
      ok, counts := done && rest, [n] + ns;
      assert counts[1..] == ns;
      assert old(Accepted()) + pieces[0][..n] + Prefixes(pieces[1..], ns) == old(Accepted())
             + (pieces[0][..n] + Prefixes(pieces[1..], ns));
      if ok {
        assert pieces[0][..n] == pieces[0];
        assert old(Accepted()) + pieces[0] + Flatten(pieces[1..]) == old(Accepted())
               + (pieces[0] + Flatten(pieces[1..]));
      }
    }
  }

  lemma RemainderFrom(x: nat, m: nat)
    requires m > 0
    ensures Remainder(x, m) == if x < m then x else Remainder(x - m, m)
  {
  }

  lemma CutAt(a: seq<byte>, b: seq<byte>, n: nat)
    requires n <= |b|
    ensures a + b[..n] + b[n..] == a + b && (n == |b| ==> |b[n..]| == 0 && a + b[..n] == a + b)
  {
    assert b == b[..n] + b[n..];
  }

  lemma PartTwice(a: seq<byte>, b: seq<byte>, n: nat, m: nat)
    requires n + m <= |b|
    ensures a + b[..n] + b[n..][..m] == a + b[..n + m] && |b[n..]| == |b| - n
    ensures n == 0 ==> a + b[..n] == a
  {
    assert b[..n] + b[n..][..m] == b[..n + m];
  }

  function Flatten(pieces: seq<seq<byte>>): seq<byte> {
    if pieces == [] then [] else pieces[0] + Flatten(pieces[1..])
  }

  function Prefixes(pieces: seq<seq<byte>>, counts: seq<nat>): seq<byte>
    requires |pieces| == |counts| && forall i :: 0 <= i < |pieces| ==> counts[i] <= |pieces[i]|
  {
    if pieces == [] then [] else pieces[0][..counts[0]] + Prefixes(pieces[1..], counts[1..])
  }

  /** Two ways of cutting the same bytes, both written and flushed without a failure, leave the same file. */
  method SameFileHoweverCut(a: WriteFile, b: WriteFile, cutA: seq<seq<byte>>, cutB: seq<seq<byte>>)
    returns (okA: bool, okB: bool)
    requires a != b && a.buffer != b.buffer && a.Valid() && b.Valid() && a.position == b.position == 0 && !a.iterating
             && !b.iterating
    requires a.content == b.content && Flatten(cutA) == Flatten(cutB)
    modifies a, b, a.buffer, b.buffer
    ensures okA ==> a.content == old(a.content) + Flatten(cutA)
    ensures okA && okB ==> a.content == b.content
    ensures a.failures == old(a.failures) ==> okA
    ensures b.failures == old(b.failures) ==> okB
  {
    assert a.Accepted() == a.content && b.Accepted() == b.content;
    var doneA, _ := a.WriteAll(cutA);
    var flushedA := a.Flush();
    var doneB, _ := b.WriteAll(cutB);
    var flushedB := b.Flush();
    okA, okB := doneA && flushedA, doneB && flushedB;
  }
}

/** Lines of a string held in memory (src/pw_string_io.c:107-163), and the file that reads the same. */
module StringLines {
  import opened Radix
  import opened TextLines
  import opened AssocList
  import opened Utf8
  import opened FileReading

  class StringIO {
    const text: seq<nat>
    var linePosition: nat
    var lineNumber: nat
    var pushback: Option<seq<nat>>

    constructor (text: seq<nat>)
      ensures this.text == text && linePosition == 0 && lineNumber == 0 && pushback == None
    {
      this.text, linePosition, lineNumber, pushback := text, 0, 0, None;
    }

    ghost predicate Valid()
      reads this
    {
      linePosition <= |text|
    }

    /** Goes back to the first line. */
    method StartReadLines()
      modifies this
      ensures Valid() && linePosition == 0 && lineNumber == 0 && pushback == None
    {
      linePosition, lineNumber, pushback := 0, 0, None;
    }

    /** The next line, which is the one pushed back if there is one. */
    method ReadLine() returns (status: Status, line: seq<nat>)
      requires Valid()
      modifies this
      ensures Valid() && pushback == None
      ensures old(pushback.Some?) ==> status == Good && Some(line) == old(pushback) && linePosition == old(linePosition)
      ensures old(pushback.None?) ==>
                var rest := text[old(linePosition)..];
                if rest == [] then status == Eof && linePosition == old(linePosition)
                else
                  status == Good && line == rest[..LineLength(rest)]
                  && text[linePosition..] == rest[LineLength(rest)..]
      ensures lineNumber == if status == Good then U32(old(lineNumber) + 1) else old(lineNumber)
    {
      if pushback.Some? {
        line := pushback.value;
        pushback, lineNumber := None, U32(lineNumber + 1);
        return Good, line;
      }
      if linePosition >= |text| {
        return Eof, [];
      }
      ghost var rest := text[linePosition..];
      var feed := FindChar(text, LF, linePosition);
      if feed == |text| {
        feed := |text| - 1;
      }
      EndOfLine(text, linePosition, feed);
      line := text[linePosition..feed + 1];
      linePosition := feed + 1;
      lineNumber := U32(lineNumber + 1);
      status := Good;
    }

    /** Pushes a line back; only one fits. */
    method UnreadLine(line: seq<nat>) returns (ok: bool)
      modifies this`pushback, this`lineNumber
      ensures ok <==> old(pushback) == None
      ensures ok ==> pushback == Some(line) && lineNumber == U32(old(lineNumber) - 1)
      ensures !ok ==> pushback == old(pushback) && lineNumber == old(lineNumber)
    {
      ok := pushback == None;
      if ok {
        pushback, lineNumber := Some(line), U32(lineNumber - 1);
      }
    }
  }

  /** First position of a character from `start` on, or the length (src/string/strchr.c). */
  method FindChar(text: seq<nat>, c: nat, start: nat) returns (p: nat)
    requires start <= |text|
    ensures start <= p <= |text| && (p < |text| ==> text[p] == c)
    ensures forall i :: start <= i < p ==> text[i] != c
  {
    p := start;
    while p < |text|
      invariant start <= p <= |text| && forall i :: start <= i < p ==> text[i] != c
    {
      if text[p] == c {
        return;
      }
      p := p + 1;
    }
  }

  lemma EndOfLine(text: seq<nat>, from: nat, feed: nat)
    requires from <= feed < |text| && (forall i :: from <= i < feed ==> text[i] != LF)
    requires text[feed] == LF || feed == |text| - 1
    ensures var rest := text[from..];
            text[from..feed + 1] == rest[..LineLength(rest)] && text[feed + 1..] == rest[LineLength(rest)..]
  {
    var rest := text[from..];
    var before, after := text[from..feed], text[feed..];
    assert rest == before + after;
    LineLengthAfter(before, after);
    assert LineLength(after) == 1;
  }

  method AllLinesOf(s: StringIO) returns (lines: seq<seq<nat>>)
    requires s.Valid() && s.pushback == None
    modifies s
    ensures lines == Lines(old(s.text[s.linePosition..]))
  {
    hide *;
    lines := [];
    StartsValid(s);
    ghost var rest := s.text[s.linePosition..];
    Regroup([], [], Lines(rest));
    while true
      invariant s.Valid() && s.pushback == None && s.linePosition <= |s.text| && rest == s.text[s.linePosition..]
      invariant lines + Lines(rest) == Lines(old(s.text[s.linePosition..]))
      decreases |rest|
    {
      LinesUnfold(rest);
      var status, line := s.ReadLine();
      StartsValid(s);
      ghost var next := rest[LineLength(rest)..];
      Regroup(lines, line, Lines(next));
      if status != Good {
        return;
      }
      lines := lines + [line];
      rest := next;
    }
  }

  lemma StartsValid(s: StringIO)
    requires s.Valid()
    ensures s.linePosition <= |s.text|
  {
  }

  /**
   A file and a string with the same text give the same lines, if no read fails, exactly when the text is empty, ends
   with a line feed, or does not fill the last buffer.
   */
  method SameLines(f: ReadFile, s: StringIO) returns (fromFile: seq<seq<nat>>, fromString: seq<seq<nat>>)
    requires f.Valid() && f.BetweenLines() && f.bufferSize > 0 && f.pushback == None
    requires s.Valid() && s.pushback == None && s.text[s.linePosition..] == f.text
    modifies f, f.buffer, f.partial, s
    ensures fromString == Lines(old(f.text))
    ensures old(f.NoFailures()) ==> f.failures == old(f.failures)
    ensures f.failures == old(f.failures) ==>
              (fromFile == fromString <==>
              old(f.text) == [] || old(f.text)[|old(f.text)| - 1] == LF || f.EndsRagged())
  {
    hide *;
    AllLinesFed(f.text);
    ghost var t := f.text;
    fromString := AllLinesOf(s);
    fromFile := ReadAllLines(f);
  }

  /** A text without a line feed that fills its last buffer is one line in a string, and none in a file. */
  method LastLineLost(text: seq<nat>, bufferSize: nat) returns (fromFile: seq<seq<nat>>, fromString: seq<seq<nat>>)
    requires bufferSize >= PAGE && Encodable(text) && text != [] && NoFeed(text)
    requires Remainder(|EncodeAll(text)|, bufferSize) == 0
    ensures fromString == [text] && fromFile == []
  {
    hide EncodeAll, Remainder, Lines, FedLines, Encodable, NoFeed;
    var f := new ReadFile(bufferSize, text, EncodeAll(text), []);
    var s := new StringIO(text);
    WholeText(text);
    fromString := AllLinesOf(s);
    fromFile := ReadAllLines(f);
  }

  lemma WholeText(text: seq<nat>)
    requires text != [] && NoFeed(text)
    ensures text[0..] == text && Lines(text) == [text] && FedLines(text) == []
  {
    LineLengthAfter(text, []);
    assert text + [] == text;
    assert text[..|text|] == text && text[|text|..] == [];
  }

  /** The least buffer: one page (src/pw_file.c:320). */
  const PAGE: nat := 4096

  /** A page of one letter is such a text. */
  lemma PageOfLetters()
    ensures var text: seq<nat> := seq(PAGE, _ => 97);
            Encodable(text) && text != [] && NoFeed(text) && Remainder(|EncodeAll(text)|, PAGE) == 0
  {
    Letters(PAGE);
    hide EncodeAll;
    assert Remainder(PAGE, PAGE) == Remainder(PAGE - PAGE, PAGE) == 0;
  }

  lemma {:induction false} Letters(n: nat)
    ensures |EncodeAll(seq(n, _ => 97))| == n
  {
    if n > 0 {
      Letters(n - 1);
      assert seq(n, _ => 97)[1..] == seq(n - 1, _ => 97);
    }
  }
}

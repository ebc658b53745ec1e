/** What it means to cut a text into lines. */
module TextLines {

  const LF: nat := 10

  /** Characters up to and including the first line feed, or all of them. */
  function LineLength(t: seq<nat>): (n: nat)
    ensures n <= |t| && (t != [] ==> n > 0)
  {
    if t == [] then 0 else if t[0] == LF then 1 else 1 + LineLength(t[1..])
  }

  predicate NoFeed(t: seq<nat>) {
    forall i :: 0 <= i < |t| ==> t[i] != LF
  }

  lemma {:induction false} LineLengthAfter(a: seq<nat>, b: seq<nat>)
    requires NoFeed(a)
    ensures LineLength(a + b) == |a| + LineLength(b)
    decreases |a|
  {
    if a == [] {
      assert a + b == b;
    } else {
      assert (a + b)[1..] == a[1..] + b;
      LineLengthAfter(a[1..], b);
    }
  }

  /** The pieces of a text, each ended by its line feed except perhaps the last. */
  function Lines(t: seq<nat>): seq<seq<nat>>
    decreases |t|
  {
    if t == [] then [] else [t[..LineLength(t)]] + Lines(t[LineLength(t)..])
  }

  /** The pieces that do end with a line feed. */
  function FedLines(t: seq<nat>): seq<seq<nat>>
    decreases |t|
  {
    if NoFeed(t) then [] else [t[..LineLength(t)]] + FedLines(t[LineLength(t)..])
  }

  lemma {:induction false} LineEndsInFeed(t: seq<nat>)
    requires !NoFeed(t)
    ensures LineLength(t) > 0 && t[LineLength(t) - 1] == LF && NoFeed(t[..LineLength(t) - 1])
    decreases |t|
  {
    if t[0] != LF {
      var i :| 0 <= i < |t| && t[i] == LF;
      assert t[1..][i - 1] == LF;
      LineEndsInFeed(t[1..]);
      var n := LineLength(t);
      assert t[..n - 1] == t[..1] + t[1..][..n - 2];
    }
  }

  /** No piece is lost exactly when the text is empty or ends with a line feed. */
  lemma {:induction false} AllLinesFed(t: seq<nat>)
    ensures FedLines(t) == Lines(t) <==> t == [] || t[|t| - 1] == LF
    decreases |t|
  {
    if NoFeed(t) {
    } else {
      var n := LineLength(t);
      LineEndsInFeed(t);
      AllLinesFed(t[n..]);
      assert Lines(t)[1..] == Lines(t[n..]) && FedLines(t)[1..] == FedLines(t[n..]);
      if n < |t| {
        assert t[n..][|t| - n - 1] == t[|t| - 1];
      }
    }
  }

  function Join(ls: seq<seq<nat>>): seq<nat> {
    if ls == [] then [] else ls[0] + Join(ls[1..])
  }

  /** The pieces put together are the text. */
  lemma {:induction false} JoinLines(t: seq<nat>)
    ensures Join(Lines(t)) == t
    decreases |t|
  {
    if t != [] {
      var n := LineLength(t);
      JoinLines(t[n..]);
      assert t[..n] + t[n..] == t;
      assert Lines(t)[1..] == Lines(t[n..]);
    }
  }

  /** A piece: not empty, and no line feed before its last character. */
  predicate IsPiece(p: seq<nat>) {
    p != [] && NoFeed(p[..|p| - 1])
  }

  lemma FirstPiece(t: seq<nat>)
    requires t != []
    ensures IsPiece(t[..LineLength(t)])
    ensures LineLength(t) < |t| ==> t[LineLength(t) - 1] == LF
  {
    var n := LineLength(t);
    if NoFeed(t) {
      LineLengthAfter(t, []);
      assert t + [] == t;
    } else {
      LineEndsInFeed(t);
      assert t[..n][..n - 1] == t[..n - 1];
    }
  }

  /** Every piece but the last ends at its only line feed. */
  lemma {:induction false} LinesArePieces(t: seq<nat>, i: nat)
    requires i < |Lines(t)|
    ensures IsPiece(Lines(t)[i])
    ensures i < |Lines(t)| - 1 ==> Lines(t)[i][|Lines(t)[i]| - 1] == LF
    decreases |t|
  {
    var n := LineLength(t);
    FirstPiece(t);
    if i > 0 {
      LinesArePieces(t[n..], i - 1);
    }
  }
}

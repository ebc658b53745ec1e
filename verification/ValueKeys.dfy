/**
 Equality and hashing of values, as maps use them (src/pw_types.c:20-399, src/string/hash.c, src/string/substreq.c,
 src/string/pw_string_type.c:56-67, 125-163, include/pw_types.h:854-873).
 */
module ValueKeys {
  import opened Radix
  import opened Probing
  import opened CharSizes
  import opened StringSizes
  import opened StringValues
  import opened StringChars

  const NULL_ID: nat := 0
  const BOOL_ID: nat := 1
  const INT_ID: nat := 2
  const SIGNED_ID: nat := 3
  const UNSIGNED_ID: nat := 4
  const STRING_ID: nat := 9
  const BASIC_IDS: nat := 16

  /** What a value holds; the text of a string is n characters of w bytes each. */
  datatype Payload =
    | NoValue
    | Truth(b: bool)
    | SignedInt(i: int)
    | UnsignedInt(u: nat)
    | Chars(w: nat, n: nat, data: seq<byte>)

  predicate WellFormed(p: Payload) {
    match p
    case SignedInt(i) => -0x8000_0000_0000_0000 <= i < 0x8000_0000_0000_0000
    case UnsignedInt(u) => u < TWO_64
    case Chars(w, n, data) => Width(w) && |data| == Bytes(w, n)
    case _ => true
  }

  type Key = p: Payload | WellFormed(p) witness NoValue

  ghost function TextOf(p: Key): seq<nat>
    requires p.Chars?
  {
    CharsIn(p.w, p.n, p.data)
  }

  predicate IsInt(p: Payload) {
    p.SignedInt? || p.UnsignedInt?
  }

  function IntOf(p: Payload): int
    requires IsInt(p)
  {
    match p case SignedInt(i) => i case UnsignedInt(u) => u
  }

  /** The same value: the same truth, number or text, however it is stored. */
  ghost predicate Same(p: Key, q: Key) {
    match p
    case NoValue => q.NoValue?
    case Truth(b) => q == p
    case SignedInt(_) => IsInt(q) && IntOf(q) == IntOf(p)
    case UnsignedInt(_) => IsInt(q) && IntOf(q) == IntOf(p)
    case Chars(_, _, _) => q.Chars? && TextOf(q) == TextOf(p)
  }

  // ----- comparing characters -----

  /** Characters of one width are the same exactly when their bytes are. */
  lemma {:induction false} SameBytes(w: nat, n: nat, a: seq<byte>, b: seq<byte>)
    requires Width(w) && |a| == |b| == Bytes(w, n)
    ensures CharsIn(w, n, a) == CharsIn(w, n, b) <==> a == b
    decreases n
  {
    BytesStep(w, 0);
    hide CharsIn, Bytes;
    if n == 0 {
      assert a == [] && b == [];
    } else if CharsIn(w, n, a) == CharsIn(w, n, b) {
      LastChar(w, n, a);
      LastChar(w, n, b);
      SameBytes(w, n - 1, a[..Bytes(w, n - 1)], b[..Bytes(w, n - 1)]);
    }
  }

  /** The last character, as bytes, and the ones before it. */
  lemma LastChar(w: nat, n: nat, a: seq<byte>)
    requires Width(w) && |a| == Bytes(w, n) && n > 0
    ensures var at := Bytes(w, n - 1);
            && at <= |a| && |a[..at]| == at
            && a == a[..at] + ToLE(CharsIn(w, n, a)[n - 1], w)
            && CharsIn(w, n - 1, a[..at]) == CharsIn(w, n, a)[..n - 1]
  {
    BytesStep(w, n - 1);
    hide CharsIn, Bytes, GetChar, ToLE;
    var at := Bytes(w, n - 1);
    CharsAt(w, n, a, n - 1);
    CharBytes(w, a, at);
    FirstChars(w, n, a, n - 1);
  }

  lemma CharBytes(w: nat, a: seq<byte>, at: nat)
    requires at + w == |a|
    ensures a == a[..at] + ToLE(GetChar(w, a, at), w)
  {
    hide FromLE, ToLE;
    StoreLoad(a[at..at + w]);
    assert a == a[..at] + a[at..at + w];
  }

  lemma FirstChars(w: nat, n: nat, a: seq<byte>, k: nat)
    requires Width(w) && |a| == Bytes(w, n) && k <= n
    ensures Bytes(w, k) <= |a| && CharsIn(w, k, a[..Bytes(w, k)]) == CharsIn(w, n, a)[..k]
  {
    hide CharsIn, Bytes;
    BytesStep(w, 0);
    CharsSlice(w, n, a, 0, k);
    assert a[0..Bytes(w, k)] == a[..Bytes(w, k)];
    assert CharsIn(w, n, a)[0..k] == CharsIn(w, n, a)[..k];
  }

  /** substreq_*, for every pair of widths but 3 against 4: true exactly when the code points agree. */
  method SubstrEq(w: nat, a: seq<byte>, sw: nat, b: seq<byte>, n: nat) returns (r: bool)
    requires Width(w) && Width(sw) && |a| == Bytes(w, n) && |b| == Bytes(sw, n) && !(w == 3 && sw == 4)
    ensures r <==> CharsIn(w, n, a) == CharsIn(sw, n, b)
  {
    hide CharsIn, Bytes, GetChar;
    if w == sw {
      SameBytes(w, n, a, b);
      return a == b;
    }
    BytesStep(w, 0);
    BytesStep(sw, 0);
    var k, p, q := 0, 0, 0;
    while q < |b|
      invariant k <= n && p == Bytes(w, k) && q == Bytes(sw, k) <= |b|
      invariant CharsIn(w, n, a)[..k] == CharsIn(sw, n, b)[..k]
      decreases n - k
    {
      NextChar(sw, n, b, k);
      NextChar(w, n, a, k);
      if GetChar(w, a, p) != GetChar(sw, b, q) {
        return false;
      }
      OneMoreSame(CharsIn(w, n, a), CharsIn(sw, n, b), k);
      k, p, q := k + 1, p + w, q + sw;
    }
    BytesGrow(sw, k, n);
    assert CharsIn(w, n, a)[..n] == CharsIn(w, n, a) && CharsIn(sw, n, b)[..n] == CharsIn(sw, n, b);
    r := true;
  }

  lemma NextChar(w: nat, n: nat, a: seq<byte>, k: nat)
    requires Width(w) && |a| == Bytes(w, n) && k <= n
    ensures Bytes(w, k) < |a| <==> k < n
    ensures k < n ==>
            Bytes(w, k) + w <= |a| && Bytes(w, k + 1) == Bytes(w, k) + w
            && GetChar(w, a, Bytes(w, k)) == CharsIn(w, n, a)[k]
  {
    BytesStep(w, k);
    BytesGrow(w, k, n);
    if k < n {
      CharsAt(w, n, a, k);
    }
  }

  lemma OneMoreSame(s: seq<nat>, t: seq<nat>, k: nat)
    requires k < |s| == |t| && s[..k] == t[..k] && s[k] == t[k]
    ensures s[..k + 1] == t[..k + 1]
  {
    assert s[..k + 1] == s[..k] + [s[k]] && t[..k + 1] == t[..k] + [t[k]];
  }

  /** substreq_3_4 looks 7 bytes further for each character of the first string. */
  ghost predicate Agree34(a: seq<byte>, b: seq<byte>, k: nat) {
    7 * k + 3 <= |a| && 4 * k + 4 <= |b| && GetChar(3, a, 7 * k) == GetChar(4, b, 4 * k)
  }

  /** substreq_3_4, given the memory it reads: it compares other bytes than it should from the second character on. */
  method SubstrEq34(a: seq<byte>, b: seq<byte>, n: nat) returns (r: bool)
    requires |b| == 4 * n && (n > 0 ==> 7 * (n - 1) + 3 <= |a|)
    ensures r <==> forall k :: 0 <= k < n ==> Agree34(a, b, k)
  {
    hide GetChar;
    var k := 0;
    while k < n
      invariant k <= n
      invariant forall m :: 0 <= m < k ==> Agree34(a, b, m)
    {
      if GetChar(3, a, 7 * k) != GetChar(4, b, 4 * k) {
        assert !Agree34(a, b, k);
        return false;
      }
      k := k + 1;
    }
    r := true;
  }

  /** Two characters below 256. */
  lemma TwoSmall(w: nat, data: seq<byte>)
    requires 3 <= w <= 4 && 2 * w <= |data|
    requires data[1] == 0 && data[2] == 0 && (w == 4 ==> data[3] == 0)
    requires data[w + 1] == 0 && data[w + 2] == 0 && (w == 4 ==> data[w + 3] == 0)
    ensures CharsIn(w, 2, data) == [data[0], data[w]]
  {
    CharsAt(w, 2, data, 0);
    CharsAt(w, 2, data, 1);
    hide CharsIn, FromLE;
    LEValues(data[0..w]);
    LEValues(data[w..w + w]);
  }

  /**
   Code points 1, 2 at three and at four bytes, with as much memory after the first as is read: the comparison says no.
   */
  method ThreeFourWrong(spare: seq<byte>) returns (r: bool)
    requires |spare| >= 4 && spare[1] == 0
    ensures CharsIn(3, 2, [1, 0, 0, 2, 0, 0] + spare) == CharsIn(4, 2, [1, 0, 0, 0, 2, 0, 0, 0]) && !r
  {
    hide CharsIn, FromLE;
    var a, b: seq<byte> := [1, 0, 0, 2, 0, 0] + spare, [1, 0, 0, 0, 2, 0, 0, 0];
    TwoSmall(3, a);
    TwoSmall(4, b);
    r := SubstrEq34(a, b, 2);
    LEValues(a[7..10]);
    LEValues(b[4..8]);
    assert a[7] == 0;
    assert !Agree34(a, b, 1);
  }

  // ----- equality over the type hierarchy -----

  /** The ancestors of all types; a type comes after its ancestor, and type 0 is the end of every chain. */
  ghost predicate TypesValid(ancestors: seq<nat>) {
    && |ancestors| >= BASIC_IDS && ancestors[NULL_ID] == NULL_ID
    && (forall t :: 0 < t < |ancestors| ==> ancestors[t] < t)
    && ancestors[BOOL_ID] == NULL_ID && ancestors[INT_ID] == NULL_ID && ancestors[STRING_ID] == NULL_ID
    && ancestors[SIGNED_ID] == INT_ID && ancestors[UNSIGNED_ID] == INT_ID
  }

  predicate IsBase(t: nat) {
    t == NULL_ID || t == BOOL_ID || t == SIGNED_ID || t == UNSIGNED_ID || t == STRING_ID
  }

  /** The first type with a payload of its own on the chain. */
  ghost function BaseOf(ancestors: seq<nat>, t: nat): (b: nat)
    requires TypesValid(ancestors) && t < |ancestors|
    ensures IsBase(b)
    decreases t
  {
    if IsBase(t) then t else BaseOf(ancestors, ancestors[t])
  }

  function BaseType(p: Payload): nat {
    match p
    case NoValue => NULL_ID
    case Truth(_) => BOOL_ID
    case SignedInt(_) => SIGNED_ID
    case UnsignedInt(_) => UNSIGNED_ID
    case Chars(_, _, _) => STRING_ID
  }

  /** The payload is the one the type calls for; nothing but null has type 0. */
  ghost predicate Typed(ancestors: seq<nat>, t: nat, p: Payload) {
    && TypesValid(ancestors) && t < |ancestors| && BaseOf(ancestors, t) == BaseType(p)
    && (p.NoValue? ==> t == NULL_ID)
  }

  /** The signed reading of 64 bits. */
  function AsSigned(u: nat): int {
    if u < 0x8000_0000_0000_0000 then u else u - TWO_64
  }

  /** A type is on the chain of ancestors. */
  ghost predicate Reaches(ancestors: seq<nat>, t: nat, wanted: nat)
    requires TypesValid(ancestors) && t < |ancestors|
    decreases t
  {
    t == wanted || (t > 0 && Reaches(ancestors, ancestors[t], wanted))
  }

  /** The loops look for a type on the chain; they find it exactly when it is the base type. */
  lemma {:induction false} ReachesBase(ancestors: seq<nat>, t: nat, wanted: nat)
    requires TypesValid(ancestors) && t < |ancestors| && IsBase(wanted) && wanted != NULL_ID
    ensures Reaches(ancestors, t, wanted) <==> BaseOf(ancestors, t) == wanted
    decreases t
  {
    if IsBase(t) {
      assert t > 0 && ancestors[t] == INT_ID ==> !Reaches(ancestors, INT_ID, wanted);
    } else {
      ReachesBase(ancestors, ancestors[t], wanted);
    }
  }

  method NullEqual(ancestors: seq<nat>, t0: nat, q: Key) returns (r: bool)
    requires Typed(ancestors, t0, q)
    ensures r <==> q.NoValue?
  {
    var t: nat := t0;
    while true
      invariant t < |ancestors| && (t == NULL_ID <==> q.NoValue?)
      invariant !q.NoValue? ==> 0 < t
      decreases t
    {
      if t == NULL_ID {
        return true;
      }
      t := ancestors[t];
      if t == NULL_ID {
        return false;
      }
    }
  }

  method BoolEqual(ancestors: seq<nat>, b: bool, t0: nat, q: Key) returns (r: bool)
    requires Typed(ancestors, t0, q)
    ensures r <==> Same(Truth(b), q)
  {
    ReachesBase(ancestors, t0, BOOL_ID);
    var t: nat := t0;
    while true
      invariant t < |ancestors| && (Reaches(ancestors, t, BOOL_ID) <==> q.Truth?)
      decreases t
    {
      if t == BOOL_ID {
        return q.b == b;
      }
      t := ancestors[t];
      if t == NULL_ID {
        return false;
      }
    }
  }

  method SignedEqual(ancestors: seq<nat>, i: int, t0: nat, q: Key) returns (r: bool)
    requires Typed(ancestors, t0, q) && WellFormed(SignedInt(i))
    ensures r <==> Same(SignedInt(i), q)
  {
    ReachesBase(ancestors, t0, SIGNED_ID);
    ReachesBase(ancestors, t0, UNSIGNED_ID);
    var t: nat := t0;
    while true
      invariant t < |ancestors|
      invariant Reaches(ancestors, t, SIGNED_ID) <==> q.SignedInt?
      invariant Reaches(ancestors, t, UNSIGNED_ID) <==> q.UnsignedInt?
      decreases t
    {
      if t == SIGNED_ID {
        return i == q.i;
      }
      if t == UNSIGNED_ID {
        if i < 0 {
          return false;
        }
        return i == AsSigned(q.u);
      }
      t := ancestors[t];
      if t == NULL_ID {
        return false;
      }
    }
  }

  method UnsignedEqual(ancestors: seq<nat>, u: nat, t0: nat, q: Key) returns (r: bool)
    requires Typed(ancestors, t0, q) && WellFormed(UnsignedInt(u))
    ensures r <==> Same(UnsignedInt(u), q)
  {
    ReachesBase(ancestors, t0, SIGNED_ID);
    ReachesBase(ancestors, t0, UNSIGNED_ID);
    var t: nat := t0;
    while true
      invariant t < |ancestors|
      invariant Reaches(ancestors, t, SIGNED_ID) <==> q.SignedInt?
      invariant Reaches(ancestors, t, UNSIGNED_ID) <==> q.UnsignedInt?
      decreases t
    {
      if t == SIGNED_ID {
        if q.i < 0 {
          return false;
        }
        return AsSigned(u) == q.i;
      }
      if t == UNSIGNED_ID {
        return u == q.u;
      }
      t := ancestors[t];
      if t == NULL_ID {
        return false;
      }
    }
  }

  predicate Comparable(p: Payload, q: Payload) {
    p.Chars? && q.Chars? ==> !(p.w == 3 && q.w == 4)
  }

  method StringEqualSameType(p: Key, q: Key) returns (r: bool)
    requires p.Chars? && q.Chars? && Comparable(p, q)
    ensures r <==> Same(p, q)
  {
    hide CharsIn;
    if p.n != q.n {
      return false;
    }
    if p.n == 0 {
      assert TextOf(p) == [] && TextOf(q) == [];
      return true;
    }
    r := SubstrEq(p.w, p.data, q.w, q.data, p.n);
  }

  method StringEqual(ancestors: seq<nat>, p: Key, t0: nat, q: Key) returns (r: bool)
    requires Typed(ancestors, t0, q) && p.Chars? && Comparable(p, q)
    ensures r <==> Same(p, q)
  {
    hide CharsIn;
    ReachesBase(ancestors, t0, STRING_ID);
    var t: nat := t0;
    while true
      invariant t < |ancestors| && (Reaches(ancestors, t, STRING_ID) <==> q.Chars?)
      decreases t
    {
      if t == STRING_ID {
        r := StringEqualSameType(p, q);
        return;
      }
      t := ancestors[t];
      if t == NULL_ID {
        return false;
      }
    }
  }

  /** _pw_equal: the quick comparisons, then the method of the first value's type. */
  method Equal(ancestors: seq<nat>, t: nat, p: Key, u: nat, q: Key, identical: bool) returns (r: bool)
    requires Typed(ancestors, t, p) && Typed(ancestors, u, q) && Comparable(p, q)
    requires identical ==> t == u && p == q
    ensures r <==> Same(p, q)
  {
    hide CharsIn;
    if identical {
      return true;
    }
    match p
    case NoValue =>
      if t == u {
        r := true;
      } else {
        r := NullEqual(ancestors, u, q);
      }
    case Truth(b) =>
      if t == u {
        r := b == q.b;
      } else {
        r := BoolEqual(ancestors, b, u, q);
      }
    case SignedInt(i) =>
      if t == u {
        r := i == q.i;
      } else {
        r := SignedEqual(ancestors, i, u, q);
      }
    case UnsignedInt(v) =>
      if t == u {
        r := v == q.u;
      } else {
        r := UnsignedEqual(ancestors, v, u, q);
      }
    case Chars(_, _, _) =>
      if t == u {
        r := StringEqualSameType(p, q);
      } else {
        r := StringEqual(ancestors, p, u, q);
      }
  }

  // ----- hashing -----

  /** Code points two by two in 64-bit words; an odd one is paired with 0. */
  function PairWords(s: seq<nat>): seq<nat> {
    if s == [] then []
    else if |s| == 1 then [s[0]]
    else [s[0] + TWO_32 * s[1]] + PairWords(s[2..])
  }

  /** The words a value feeds to the hash. */
  ghost function Words(p: Key): seq<nat> {
    match p
    case NoValue => [NULL_ID]
    case Truth(b) => [BOOL_ID, if b then 1 else 0]
    case SignedInt(i) => [if i < 0 then SIGNED_ID else UNSIGNED_ID, if i < 0 then TWO_64 + i else i]
    case UnsignedInt(u) => [UNSIGNED_ID, u]
    case Chars(_, _, _) => [STRING_ID] + PairWords(TextOf(p))
  }

  lemma PairStep(s: seq<nat>, k: nat)
    requires k < |s|
    ensures k + 1 == |s| ==> PairWords(s[k..]) == [s[k]]
    ensures k + 1 < |s| ==> PairWords(s[k..]) == [s[k] + TWO_32 * s[k + 1]] + PairWords(s[k + 2..])
  {
    if k + 1 < |s| {
      assert s[k..][2..] == s[k + 2..];
    }
  }

  /** strhash_*: feeds the words of the characters. */
  method HashChars(w: nat, n: nat, data: seq<byte>) returns (words: seq<nat>)
    requires Width(w) && |data| == Bytes(w, n)
    ensures words == PairWords(CharsIn(w, n, data))
  {
    hide CharsIn, Bytes, GetChar, PairWords;
    ghost var s := CharsIn(w, n, data);
    words := [];
    var k, at := 0, 0;
    BytesStep(w, 0);
    WordsBegin(s);
    while k < n
      invariant k <= n && at == Bytes(w, k)
      invariant words + PairWords(s[k..]) == PairWords(s)
    {
      PairStep(s, k);
      NextChar(w, n, data, k);
      var a := GetChar(w, data, at);
      if k + 1 == n {
        words := words + [a];
        return;
      }
      NextChar(w, n, data, k + 1);
      var b := GetChar(w, data, at + w);
      WordsGo(words, a + TWO_32 * b, PairWords(s[k + 2..]));
      words := words + [a + TWO_32 * b];
      k, at := k + 2, at + w + w;
    }
    WordsEnd(s, words);
  }

  lemma WordsBegin(s: seq<nat>)
    ensures [] + PairWords(s[0..]) == PairWords(s)
  {
    assert s[0..] == s;
  }

  lemma WordsGo(words: seq<nat>, x: nat, rest: seq<nat>)
    ensures words + ([x] + rest) == words + [x] + rest
  {
  }

  lemma WordsEnd(s: seq<nat>, words: seq<nat>)
    ensures s[|s|..] == [] && PairWords([]) == [] && words + [] == words
  {
  }

  method Hash(p: Key) returns (words: seq<nat>)
    ensures words == Words(p)
  {
    hide CharsIn, PairWords;
    match p
    case NoValue => words := [NULL_ID];
    case Truth(b) => words := [BOOL_ID] + [if b then 1 else 0];
    case SignedInt(i) => words := [if i < 0 then SIGNED_ID else UNSIGNED_ID] + [if i < 0 then TWO_64 + i else i];
    case UnsignedInt(u) => words := [UNSIGNED_ID] + [u];
    case Chars(w, n, data) =>
      var more := HashChars(w, n, data);
      words := [STRING_ID] + more;
  }

  /** A text of even length, by a 0 character at the end if need be. */
  function Padded(s: seq<nat>): seq<nat> {
    if |s| % 2 == 0 then s else s + [0]
  }

  lemma {:induction false} PairWordsTell(s: seq<nat>, t: seq<nat>)
    requires FitsWidth(s, 4) && FitsWidth(t, 4)
    ensures PairWords(s) == PairWords(t) <==> Padded(s) == Padded(t)
    decreases |s|
  {
    if |s| >= 2 && |t| >= 2 {
      PairWordsTell(s[2..], t[2..]);
      PaddedStep(s);
      PaddedStep(t);
      TwoTell(s, t);
      hide Padded, PairWords;
      assert Padded(s)[..2] == [s[0], s[1]] && Padded(s)[2..] == Padded(s[2..]);
      assert Padded(t)[..2] == [t[0], t[1]] && Padded(t)[2..] == Padded(t[2..]);
    } else if |t| >= 2 {
      ShortWords(s, t);
    } else if |s| >= 2 {
      ShortWords(t, s);
    }
  }

  /** The first words and the others. */
  lemma TwoTell(s: seq<nat>, t: seq<nat>)
    requires |s| >= 2 && |t| >= 2 && FitsWidth(s, 4) && FitsWidth(t, 4)
    ensures PairWords(s) == PairWords(t) <==> s[0] == t[0] && s[1] == t[1] && PairWords(s[2..]) == PairWords(t[2..])
  {
    Pow256Values();
    WordTells(s[0], s[1], t[0], t[1]);
    hide Pow256;
    assert PairWords(s)[1..] == PairWords(s[2..]) && PairWords(t)[1..] == PairWords(t[2..]);
    assert PairWords(s)[0] == s[0] + TWO_32 * s[1] && PairWords(t)[0] == t[0] + TWO_32 * t[1];
  }

  lemma WordTells(a: nat, b: nat, c: nat, d: nat)
    requires a < TWO_32 && c < TWO_32
    ensures a + TWO_32 * b == c + TWO_32 * d <==> a == c && b == d
  {
  }

  lemma PaddedStep(s: seq<nat>)
    requires |s| >= 2
    ensures Padded(s) == [s[0], s[1]] + Padded(s[2..])
  {
    if |s| % 2 == 1 {
      assert s[2..] + [0] == (s + [0])[2..];
    }
  }

  /** At most one character against two or more. */
  lemma ShortWords(s: seq<nat>, t: seq<nat>)
    requires |s| < 2 <= |t| && FitsWidth(s, 4) && FitsWidth(t, 4)
    ensures PairWords(s) == PairWords(t) <==> Padded(s) == Padded(t)
  {
    Pow256Values();
    if |t| > 2 {
      assert PairWords(t[2..]) != [];
      assert |PairWords(t)| >= 2 > |PairWords(s)|;
      assert |Padded(t)| > 2 >= |Padded(s)|;
    } else {
      assert t[2..] == [];
      assert PairWords(t) == [t[0] + TWO_32 * t[1]];
      if |s| == 1 {
        assert Padded(s) == [s[0], 0] && Padded(t) == t;
        assert PairWords(s)[0] == s[0];
      }
    }
  }

  /** Equal values feed the same words, so a map finds them in one place. */
  lemma SameWords(p: Key, q: Key)
    requires Same(p, q)
    ensures Words(p) == Words(q)
  {
    hide CharsIn, PairWords;
  }

  /** Different values feed different words, except for texts that differ in a final 0 character only. */
  lemma WordsTell(p: Key, q: Key)
    ensures Words(p) == Words(q) <==> Same(p, q) || (p.Chars? && q.Chars? && Padded(TextOf(p)) == Padded(TextOf(q)))
  {
    hide CharsIn, PairWords, Padded;
    if p.Chars? && q.Chars? {
      PairWordsTell(TextOf(p), TextOf(q));
      assert Words(p)[1..] == PairWords(TextOf(p)) && Words(q)[1..] == PairWords(TextOf(q));
    } else if !Same(p, q) {
      assert Words(p)[0] == Words(q)[0] ==> |Words(p)| == 2 && Words(p)[1] != Words(q)[1];
    } else {
      SameWords(p, q);
    }
  }

  /**
   Keys among which no string of 3 bytes per character meets one of 4: those without the latter, or without the former.
   */
  type UpToThree = p: Key | !(p.Chars? && p.w == 4) witness NoValue
  type NotThree = p: Key | !(p.Chars? && p.w == 3) witness NoValue

  lemma AllComparable()
    ensures forall p: UpToThree, q: UpToThree :: Comparable(p, q)
    ensures forall p: NotThree, q: NotThree :: Comparable(p, q)
  {
  }

  /** Hash and equality as a map of such keys sees them. */
  ghost function UpToThreeOps(mix: seq<nat> -> nat): KeyOps<UpToThree> {
    KeyOps((p: UpToThree) => mix(Words(p)), (p: UpToThree, q: UpToThree) => Same(p, q))
  }

  ghost function NotThreeOps(mix: seq<nat> -> nat): KeyOps<NotThree> {
    KeyOps((p: NotThree) => mix(Words(p)), (p: NotThree, q: NotThree) => Same(p, q))
  }

  /** Such values are lawful map keys, whatever the mixing of the words. */
  lemma ValuesAreLawful(mix: seq<nat> -> nat)
    ensures Lawful(UpToThreeOps(mix)) && Lawful(NotThreeOps(mix))
  {
    hide CharsIn, PairWords, Words;
    forall p: Key, q: Key | Same(p, q)
      ensures Words(p) == Words(q)
    {
      SameWords(p, q);
    }
  }

  /** And the code's comparison of them is that equality, in both directions of the widths. */
  method KeysEqual(ancestors: seq<nat>, t: nat, p: UpToThree, u: nat, q: UpToThree, identical: bool,
                   ghost mix: seq<nat> -> nat)
    returns (r: bool)
    requires Typed(ancestors, t, p) && Typed(ancestors, u, q)
    requires identical ==> t == u && p == q
    ensures r <==> UpToThreeOps(mix).eq(p, q)
  {
    hide CharsIn, PairWords, Words;
    AllComparable();
    r := Equal(ancestors, t, p, u, q, identical);
  }

  method NotThreeKeysEqual(ancestors: seq<nat>, t: nat, p: NotThree, u: nat, q: NotThree, identical: bool,
                           ghost mix: seq<nat> -> nat)
    returns (r: bool)
    requires Typed(ancestors, t, p) && Typed(ancestors, u, q)
    requires identical ==> t == u && p == q
    ensures r <==> NotThreeOps(mix).eq(p, q)
  {
    hide CharsIn, PairWords, Words;
    AllComparable();
    r := Equal(ancestors, t, p, u, q, identical);
  }
}

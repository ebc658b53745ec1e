/** What changing the characters of one value does to the others, and copying characters between widths. */
module StringWrites {
  import opened Radix
  import opened CharSizes
  import opened StringSizes
  import opened StringValues
  import opened StringChars

  /** Value i is an empty string of a width with room for so many characters, and shares nothing. */
  ghost predicate Fresh(blocks: Blocks, vals: seq<Value>, i: nat, w: nat, capacity: nat) {
    && i < |vals| && (vals[i].Embedded? || vals[i].Allocated?)
    && Sane(blocks, vals[i]) && vals[i].width == w && vals[i].length == 0
    && capacity <= Capacity(blocks, vals[i]) && Alone(vals, i)
  }

  /** No other value shares i's block. */
  ghost predicate Alone(vals: seq<Value>, i: nat)
    requires i < |vals|
  {
    forall j :: 0 <= j < |vals| && j != i ==> !Shares(vals, i, j)
  }

  /** No other value that shares i's block is longer than p. */
  ghost predicate Clear(vals: seq<Value>, i: nat, p: nat)
    requires i < |vals|
  {
    forall j :: 0 <= j < |vals| && j != i && Shares(vals, i, j) ==> vals[j].length <= p
  }

  lemma OthersTwice(b0: Blocks, v0: seq<Value>, b1: Blocks, v1: seq<Value>, b2: Blocks, v2: seq<Value>, i: nat)
    requires OthersSame(b0, v0, b1, v1, i) && OthersSame(b1, v1, b2, v2, i)
    ensures OthersSame(b0, v0, b2, v2, i)
  {
    hide Text, Sane;
    forall j | 0 <= j < |v0| && j != i
      ensures SameValue(b0, v0, b2, v2, j)
    {
      assert SameValue(b0, v0, b1, v1, j) && SameValue(b1, v1, b2, v2, j);
    }
  }

  lemma SameAfter(b0: Blocks, v0: seq<Value>, b1: Blocks, v1: seq<Value>, i: nat, j: nat)
    requires OthersSame(b0, v0, b1, v1, i) && j < |v0| && j != i
    ensures j < |v1| && v1[j] == v0[j] && Sane(b0, v0[j]) && Sane(b1, v1[j]) && Text(b1, v1[j]) == Text(b0, v0[j])
  {
    assert SameValue(b0, v0, b1, v1, j);
  }

  lemma NewBlockAlone(blocks: Blocks, vals: seq<Value>, next: nat, i: nat, v: Value)
    requires Consistent(blocks, vals, next) && i < |vals| && v.Allocated? && v.addr == next
    ensures Alone(vals[i := v], i)
  {
    forall j | 0 <= j < |vals| && j != i
      ensures !Holds(vals[j], next)
    {
      assert Sane(blocks, vals[j]);
    }
  }

  /** Values other than i are the same; i has the same width and holds the same block, if any. */
  ghost predicate SameLayout(vals: seq<Value>, vals': seq<Value>, i: nat) {
    && |vals'| == |vals| && i < |vals|
    && (forall j :: 0 <= j < |vals| && j != i ==> vals'[j] == vals[j])
    && (vals[i].Embedded? || vals[i].Allocated?) && (vals[i].Embedded? <==> vals'[i].Embedded?)
    && (vals[i].Allocated? ==> Holds(vals'[i], vals[i].addr)) && !vals'[i].Null? && vals'[i].width == vals[i].width
  }

  lemma ClearKept(vals: seq<Value>, vals': seq<Value>, i: nat)
    requires SameLayout(vals, vals', i)
    ensures forall p {:trigger Clear(vals', i, p)} {:trigger Clear(vals, i, p)} :: Clear(vals, i, p) <==>
            Clear(vals', i, p)
    ensures Alone(vals, i) <==> Alone(vals', i)
  {
    forall j | 0 <= j < |vals| && j != i
      ensures Shares(vals, i, j) <==> Shares(vals', i, j)
    {
    }
  }

  lemma AloneIsClear(vals: seq<Value>, i: nat, p: nat)
    requires i < |vals| && Alone(vals, i)
    ensures Clear(vals, i, p)
  {
  }

  /** The heap with the memory of value i replaced. */
  function Rewritten(blocks: Blocks, vals: seq<Value>, i: nat, data: seq<byte>): (r: (Blocks, seq<Value>))
    requires i < |vals| && (vals[i].Embedded? || vals[i].Allocated?) && Sane(blocks, vals[i])
  {
    match vals[i]
    case Embedded(w, n, _) => (blocks, vals[i := Embedded(w, n, data)])
    case Allocated(_, _, a) => (blocks[a := blocks[a].(data := data)], vals)
  }

  lemma RewrittenParts(blocks: Blocks, vals: seq<Value>, i: nat, data: seq<byte>)
    requires i < |vals| && (vals[i].Embedded? || vals[i].Allocated?) && Sane(blocks, vals[i])
    requires |data| == |Memory(blocks, vals[i])|
    ensures var (blocks', vals') := Rewritten(blocks, vals, i, data);
            && SameLayout(vals, vals', i) && vals'[i].length == vals[i].length
            && Sane(blocks', vals'[i]) && Memory(blocks', vals'[i]) == data
            && Capacity(blocks', vals'[i]) == Capacity(blocks, vals[i])
  {
  }

  /** Replacing memory from character p on keeps the heap, and every value that does not look there. */
  lemma RewriteKeepsHeap(blocks: Blocks, vals: seq<Value>, next: nat, i: nat, data: seq<byte>, p: nat)
    requires Consistent(blocks, vals, next) && i < |vals| && (vals[i].Embedded? || vals[i].Allocated?)
    requires Sane(blocks, vals[i]) && |data| == |Memory(blocks, vals[i])| && Bytes(vals[i].width, p) <= |data|
    requires data[..Bytes(vals[i].width, p)] == Memory(blocks, vals[i])[..Bytes(vals[i].width, p)]
    ensures var (blocks', vals') := Rewritten(blocks, vals, i, data);
            && Consistent(blocks', vals', next)
            && (Clear(vals, i, p) ==> OthersSame(blocks, vals, blocks', vals', i))
  {
    var (blocks', vals') := Rewritten(blocks, vals, i, data);
    RewrittenParts(blocks, vals, i, data);
    WriteKeepsHeap(blocks, vals, next, i, vals'[i], blocks');
    assert vals[i := vals'[i]] == vals';
    if Clear(vals, i, p) {
      forall j | 0 <= j < |vals| && j != i
        ensures SameValue(blocks, vals, blocks', vals', j)
      {
        if Shares(vals, i, j) {
          SharerSame(blocks, vals, next, i, data, p, j);
        }
      }
    }
  }

  lemma SharerSame(blocks: Blocks, vals: seq<Value>, next: nat, i: nat, data: seq<byte>, p: nat, j: nat)
    requires Consistent(blocks, vals, next) && i < |vals| && j < |vals| && j != i && Shares(vals, i, j)
             && vals[j].length <= p
    requires Sane(blocks, vals[i]) && |data| == |Memory(blocks, vals[i])| && Bytes(vals[i].width, p) <= |data|
    requires data[..Bytes(vals[i].width, p)] == Memory(blocks, vals[i])[..Bytes(vals[i].width, p)]
    ensures var (blocks', vals') := Rewritten(blocks, vals, i, data);
            SameValue(blocks, vals, blocks', vals', j)
  {
    var (blocks', vals') := Rewritten(blocks, vals, i, data);
    var v := vals[j];
    assert Sane(blocks, v);
    assert v.width == vals[i].width;
    CharsOfPrefix(v.width, v.length, blocks[v.addr].data, data, p);
  }

  /** Memory that agrees up to character p holds the same first characters. */
  lemma CharsOfPrefix(w: nat, n: nat, data: seq<byte>, data': seq<byte>, p: nat)
    requires Width(w) && n <= p && Bytes(w, p) <= |data| && |data'| == |data|
    requires data'[..Bytes(w, p)] == data[..Bytes(w, p)]
    ensures Bytes(w, n) <= |data|
    ensures CharsIn(w, n, data') == CharsIn(w, n, data)
  {
    hide CharsIn, Bytes, FromLE;
    BytesGrow(w, n, p);
    forall k | 0 <= k < n
      ensures CharsIn(w, n, data')[k] == CharsIn(w, n, data)[k]
    {
      CharsAt(w, n, data, k);
      CharsAt(w, n, data', k);
      BytesGrow(w, k, p);
      SameStretch(data, data', Bytes(w, p), Bytes(w, k), Bytes(w, k) + w);
    }
  }

  lemma SameEnd(s: seq<byte>, t: seq<byte>, p: nat, q: nat)
    requires p <= q <= |s| && |t| == |s| && t[p..] == s[p..]
    ensures t[q..] == s[q..]
  {
    assert t[p..][q - p..] == t[q..] && s[p..][q - p..] == s[q..];
  }

  lemma SameStretch(s: seq<byte>, t: seq<byte>, p: nat, a: nat, b: nat)
    requires a <= b <= p <= |s| && |t| == |s| && t[..p] == s[..p]
    ensures t[a..b] == s[a..b]
  {
    assert t[..p][a..b] == t[a..b] && s[..p][a..b] == s[a..b];
  }

  // ----- copying characters (src/string/copy.c) -----

  /** _pw_strcopy_*: n characters to position p, one by one, or as bytes when the widths are the same. */
  method StrCopy(w: nat, dest: seq<byte>, p: nat, sw: nat, src: seq<byte>, n: nat) returns (data: seq<byte>)
    requires Width(w) && Width(sw) && |src| == Bytes(sw, n) && Bytes(w, p + n) <= |dest|
    requires FitsWidth(CharsIn(sw, n, src), w)
    ensures |data| == |dest| && Bytes(w, p) <= |data| && data[..Bytes(w, p)] == dest[..Bytes(w, p)]
    ensures data[Bytes(w, p + n)..] == dest[Bytes(w, p + n)..]
    ensures CharsIn(w, p + n, data) == CharsIn(w, p, dest) + CharsIn(sw, n, src)
  {
    BytesGrow(w, p, p + n);
    if w == sw {
      CharsMoved(w, p, n, dest, src);
      BytesSum(w, p, n);
      data := dest[..Bytes(w, p)] + src + dest[Bytes(w, p) + |src|..];
    } else {
      data := CopyLoop(w, dest, p, sw, src, n);
    }
  }

  method CopyLoop(w: nat, dest: seq<byte>, p: nat, sw: nat, src: seq<byte>, n: nat) returns (data: seq<byte>)
    requires Width(w) && Width(sw) && |src| == Bytes(sw, n) && Bytes(w, p + n) <= |dest|
    requires FitsWidth(CharsIn(sw, n, src), w)
    ensures |data| == |dest| && Bytes(w, p) <= |data| && data[..Bytes(w, p)] == dest[..Bytes(w, p)]
    ensures data[Bytes(w, p + n)..] == dest[Bytes(w, p + n)..]
    ensures CharsIn(w, p + n, data) == CharsIn(w, p, dest) + CharsIn(sw, n, src)
  {
    hide *;
    data := dest;
    var k, from, to := 0, 0, Bytes(w, p);
    ghost var chars := CharsIn(sw, n, src);
    CopyStart(w, dest, p, sw, src, n);
    while from < |src|
      invariant 0 <= k <= n && from == Bytes(sw, k) <= |src| && to == Bytes(w, p + k) <= |data| == |dest|
      invariant Bytes(w, p) <= to && data[..Bytes(w, p)] == dest[..Bytes(w, p)]
      invariant data[Bytes(w, p + n)..] == dest[Bytes(w, p + n)..]
      invariant CharsIn(w, p + k, data) == CharsIn(w, p, dest) + chars[..k]
      decreases n - k
    {
      CopyStep(w, data, dest, p, sw, src, n, k);
      var c := GetChar(sw, src, from);
      data := PutBytes(w, data, to, c);
      k, from, to := k + 1, from + sw, to + w;
    }
    CopyEnd(sw, src, n, k);
  }

  /** Storing one character of w bytes at a byte position. */
  function PutBytes(w: nat, data: seq<byte>, at: nat, c: nat): (r: seq<byte>)
    requires at + w <= |data|
    ensures |r| == |data| && r[..at] == data[..at] && r[at + w..] == data[at + w..]
  {
    data[..at] + ToLE(c, w) + data[at + w..]
  }

  lemma PutBytesIsPutChar(w: nat, data: seq<byte>, p: nat, c: nat)
    requires Width(w) && Bytes(w, p) + w <= |data|
    ensures PutBytes(w, data, Bytes(w, p), c) == PutChar(w, data, p, c)
  {
  }

  lemma CopyStart(w: nat, dest: seq<byte>, p: nat, sw: nat, src: seq<byte>, n: nat)
    requires Width(w) && Width(sw) && |src| == Bytes(sw, n) && Bytes(w, p + n) <= |dest|
    ensures Bytes(sw, 0) == 0 && Bytes(w, p) <= |dest|
    ensures CharsIn(w, p, dest) + CharsIn(sw, n, src)[..0] == CharsIn(w, p, dest)
  {
    BytesGrow(w, p, p + n);
  }

  lemma CopyEnd(sw: nat, src: seq<byte>, n: nat, k: nat)
    requires Width(sw) && |src| == Bytes(sw, n) == Bytes(sw, k) && k <= n
    ensures k == n && CharsIn(sw, n, src)[..k] == CharsIn(sw, n, src)
  {
    BytesGrow(sw, k, n);
  }

  lemma CopyStep(w: nat, data: seq<byte>, dest: seq<byte>, p: nat, sw: nat, src: seq<byte>, n: nat, k: nat)
    requires Width(w) && Width(sw) && |src| == Bytes(sw, n) && Bytes(w, p + n) <= |dest| == |data|
    requires k <= n && Bytes(sw, k) < |src| && Bytes(w, p + k) <= |data|
    requires FitsWidth(CharsIn(sw, n, src), w)
    requires Bytes(w, p) <= Bytes(w, p + k) && data[..Bytes(w, p)] == dest[..Bytes(w, p)]
    requires data[Bytes(w, p + n)..] == dest[Bytes(w, p + n)..]
    requires CharsIn(w, p + k, data) == CharsIn(w, p, dest) + CharsIn(sw, n, src)[..k]
    ensures k < n && Bytes(sw, k) + sw <= |src| && Bytes(w, p + k) + w <= |data|
    ensures Bytes(sw, k + 1) == Bytes(sw, k) + sw && Bytes(w, p + k + 1) == Bytes(w, p + k) + w
    ensures var after := PutBytes(w, data, Bytes(w, p + k), GetChar(sw, src, Bytes(sw, k)));
            && after[..Bytes(w, p)] == dest[..Bytes(w, p)]
            && after[Bytes(w, p + n)..] == dest[Bytes(w, p + n)..]
            && CharsIn(w, p + k + 1, after) == CharsIn(w, p, dest) + CharsIn(sw, n, src)[..k + 1]
  {
    hide CharsIn, Bytes, GetChar, PutBytes, PutChar;
    BytesBelow(sw, k, n);
    var c := GetChar(sw, src, Bytes(sw, k));
    CharsAt(sw, n, src, k);
    BytesStep(sw, k);
    BytesStep(w, p + k);
    BytesGrow(w, p + k, p + n);
    PutBytesIsPutChar(w, data, p + k, c);
    CharsSnoc(w, p + k, data, c);
    SameStretch(data, PutBytes(w, data, Bytes(w, p + k), c), Bytes(w, p + k), 0, Bytes(w, p));
    SameEnd(data, PutBytes(w, data, Bytes(w, p + k), c), Bytes(w, p + k) + w, Bytes(w, p + n));
    AppendOne(CharsIn(w, p, dest), CharsIn(sw, n, src), k);
  }

  lemma BytesBelow(w: nat, k: nat, n: nat)
    requires Width(w) && k <= n && Bytes(w, k) < Bytes(w, n)
    ensures k < n && Bytes(w, k) + w <= Bytes(w, n)
  {
  }

  lemma AppendOne(a: seq<nat>, s: seq<nat>, k: nat)
    requires k < |s|
    ensures a + s[..k] + [s[k]] == a + s[..k + 1]
  {
  }

  // ----- facts the heap's methods use -----

  lemma SaneAt(blocks: Blocks, vals: seq<Value>, next: nat, i: nat)
    requires Consistent(blocks, vals, next) && i < |vals|
    ensures Sane(blocks, vals[i])
    ensures !vals[i].Null? ==> Width(vals[i].width)
  {
  }

  /** Writable values hold their characters in memory of their own kind, with room up to their capacity. */
  lemma Room(blocks: Blocks, v: Value, n: nat)
    requires Sane(blocks, v) && (v.Embedded? || v.Allocated?) && n <= Capacity(blocks, v)
    ensures Width(v.width) && Bytes(v.width, n) <= |Memory(blocks, v)|
  {
    BytesGrow(v.width, n, Capacity(blocks, v));
  }

  lemma TextIsChars(blocks: Blocks, v: Value)
    requires Sane(blocks, v) && !v.Null?
    ensures Width(v.width) && Bytes(v.width, v.length) <= |Memory(blocks, v)|
    ensures Text(blocks, v) == CharsIn(v.width, v.length, Memory(blocks, v))
  {
    LengthFits(blocks, v);
  }

  function WithLength(v: Value, n: nat): Value {
    match v
    case Null => Null
    case Embedded(w, _, data) => Embedded(w, n, data)
    case Allocated(w, _, a) => Allocated(w, n, a)
    case Static(w, _, data) => Static(w, n, data)
  }

  /** A value's length changes within its capacity. */
  lemma LengthKeepsHeap(blocks: Blocks, vals: seq<Value>, next: nat, i: nat, n: nat)
    requires Consistent(blocks, vals, next) && i < |vals| && (vals[i].Embedded? || vals[i].Allocated?)
    requires Sane(blocks, vals[i]) && n <= Capacity(blocks, vals[i])
    ensures var vals' := vals[i := WithLength(vals[i], n)];
            && Consistent(blocks, vals', next) && OthersSame(blocks, vals, blocks, vals', i)
                && SameLayout(vals, vals', i)
            && Sane(blocks, vals'[i]) && Memory(blocks, vals'[i]) == Memory(blocks, vals[i])
            && Capacity(blocks, vals'[i]) == Capacity(blocks, vals[i])
  {
    var vals' := vals[i := WithLength(vals[i], n)];
    forall a | a in blocks
      ensures Holders(vals', a) == Holders(vals, a)
    {
      HoldersUpdate(vals, i, vals'[i], a);
    }
  }

  /** The characters both lengths cover are the same. */
  lemma LengthKeepsChars(blocks: Blocks, v: Value, n: nat)
    requires Sane(blocks, v) && (v.Embedded? || v.Allocated?) && n <= Capacity(blocks, v)
             && Sane(blocks, WithLength(v, n))
    ensures n <= v.length ==> Text(blocks, WithLength(v, n)) == Text(blocks, v)[..n]
    ensures v.length <= n ==> Text(blocks, WithLength(v, n))[..v.length] == Text(blocks, v)
  {
    Room(blocks, v, n);
    TextIsChars(blocks, v);
    TextIsChars(blocks, WithLength(v, n));
    hide CharsIn, Text, Sane, Capacity;
    if n <= v.length {
      CharsPrefix(v.width, n, v.length, Memory(blocks, v));
    } else {
      CharsPrefix(v.width, v.length, n, Memory(blocks, v));
    }
  }

  /** A block with one holder is replaced by a larger one with the same characters. */
  lemma GrowKeepsHeap(blocks: Blocks, vals: seq<Value>, next: nat, i: nat, b: Block)
    requires Consistent(blocks, vals, next) && i < |vals| && vals[i].Allocated? && Sane(blocks, vals[i])
    requires var b0 := blocks[vals[i].addr];
             && b0.refcount == 1 && b.refcount == 1 && b0.capacity <= b.capacity && BlockFits(vals[i].width, b)
             && |b0.data| <= |b.data| && b.data[..|b0.data|] == b0.data
    ensures var blocks' := blocks[vals[i].addr := b];
            && Consistent(blocks', vals, next) && OthersSame(blocks, vals, blocks', vals, i)
            && Sane(blocks', vals[i]) && Text(blocks', vals[i]) == Text(blocks, vals[i])
    ensures Alone(vals, i)
  {
    var v := vals[i];
    var blocks' := blocks[v.addr := b];
    HoldersOne(vals, i, v.addr);
    forall j | 0 <= j < |vals| && j != i
      ensures SameValue(blocks, vals, blocks', vals, j)
    {
      assert Sane(blocks, vals[j]);
      SameBlockSameText(blocks, blocks', vals[j]);
    }
    forall j | 0 <= j < |vals|
      ensures Sane(blocks', vals[j])
    {
      assert j != i ==> SameValue(blocks, vals, blocks', vals, j);
    }
    SameStart(v.width, v.length, blocks[v.addr].data, b.data);
  }

  lemma SameStart(w: nat, n: nat, data: seq<byte>, more: seq<byte>)
    requires Width(w) && Bytes(w, n) <= |data| <= |more| && more[..|data|] == data
    ensures CharsIn(w, n, more) == CharsIn(w, n, data)
  {
    hide CharsIn, Bytes, FromLE;
    forall k | 0 <= k < n
      ensures CharsIn(w, n, more)[k] == CharsIn(w, n, data)[k]
    {
      CharsAt(w, n, data, k);
      CharsAt(w, n, more, k);
      var at := Bytes(w, k);
      assert more[..|data|][at..at + w] == more[at..at + w];
    }
  }

  /** Widening a value that holds its characters itself. */
  lemma WidenKeepsHeap(blocks: Blocks, vals: seq<Value>, next: nat, i: nat, w: nat, data: seq<byte>)
    requires Consistent(blocks, vals, next) && i < |vals| && vals[i].Embedded? && Sane(blocks, vals[i])
    requires Width(w) && |data| == 12 && vals[i].length <= EmbeddedCapacity(w)
    ensures var vals' := vals[i := Embedded(w, vals[i].length, data)];
            && Consistent(blocks, vals', next) && OthersSame(blocks, vals, blocks, vals', i) && Alone(vals', i)
            && Sane(blocks, vals'[i]) && Capacity(blocks, vals'[i]) == EmbeddedCapacity(w)
            && Bytes(w, vals[i].length) <= 12 && Text(blocks, vals'[i]) == CharsIn(w, vals[i].length, data)
  {
    var v := Embedded(w, vals[i].length, data);
    PutKeepsHeap(blocks, vals, next, i, v);
    TextIsChars(blocks, v);
  }

  /** A text that fits some width fits every greater one. */
  lemma FitsWider(s: seq<nat>, w: nat, w': nat)
    requires FitsWidth(s, w) && w <= w' <= 4 && Width(w)
    ensures FitsWidth(s, w')
  {
    Pow256Values();
  }

  lemma FreshFacts(blocks: Blocks, vals: seq<Value>, i: nat, w: nat, capacity: nat)
    requires Fresh(blocks, vals, i, w, capacity)
    ensures i < |vals| && (vals[i].Embedded? || vals[i].Allocated?) && Alone(vals, i)
    ensures Sane(blocks, vals[i]) && vals[i].width == w && vals[i].length == 0 && capacity <= Capacity(blocks, vals[i])
    ensures Text(blocks, vals[i]) == []
  {
  }

  lemma LayoutFacts(vals: seq<Value>, vals': seq<Value>, i: nat)
    requires SameLayout(vals, vals', i)
    ensures |vals'| == |vals| && i < |vals| && (vals'[i].Embedded? || vals'[i].Allocated?)
            && vals'[i].width == vals[i].width
    ensures vals'[i].Embedded? <==> vals[i].Embedded?
  {
  }

  lemma EmbeddedRoom(w: nat, n: nat)
    requires Width(w) && n <= EmbeddedCapacity(w)
    ensures Bytes(w, n) <= 12 && Bytes(w, 0) == 0
  {
  }

  lemma EmptyFits(w: nat)
    requires Width(w)
    ensures NoWrap(w, 0)
  {
  }

  lemma OthersRefl(blocks: Blocks, vals: seq<Value>, next: nat, i: nat)
    requires Consistent(blocks, vals, next)
    ensures OthersSame(blocks, vals, blocks, vals, i)
  {
  }

  // ----- appending with widening on the way (src/string/append.c:37-166) -----

  /** The character at a position of the source, and what it needs. */
  lemma SourceChar(sw: nat, src: seq<byte>, n: nat, k: nat)
    requires Width(sw) && |src| == Bytes(sw, n) && k < n
    ensures Bytes(sw, k) + sw <= |src| && Bytes(sw, k + 1) == Bytes(sw, k) + sw
    ensures var c := GetChar(sw, src, Bytes(sw, k));
            c == CharsIn(sw, n, src)[k] && 1 <= CharSize(c) <= sw
            && forall w {:trigger Pow256(w)} :: w >= 1 ==> (CharSize(c) <= w <==> c < Pow256(w))
  {
    BytesStep(sw, k);
    CharsAt(sw, n, src, k);
    var c := GetChar(sw, src, Bytes(sw, k));
    hide CharSize;
    forall w | w >= 1
      ensures CharSize(c) <= w <==> c < Pow256(w)
    {
      CharSizeFits(c, w);
    }
    CharSizeFits(c, 1);
  }

  /** What is left of the source after k characters. */
  lemma SourceRest(sw: nat, src: seq<byte>, n: nat, k: nat)
    requires Width(sw) && |src| == Bytes(sw, n) && k <= n
    ensures Bytes(sw, k) <= |src| && |src[Bytes(sw, k)..]| == Bytes(sw, n - k)
    ensures CharsIn(sw, n - k, src[Bytes(sw, k)..]) == CharsIn(sw, n, src)[k..]
  {
    hide CharsIn, Bytes;
    CharsSlice(sw, n, src, k, n);
    assert src[Bytes(sw, k)..Bytes(sw, n)] == src[Bytes(sw, k)..];
  }

  /** One more character written. */
  lemma OneWritten(t0: seq<nat>, at: nat, chars: seq<nat>, k: nat, t: seq<nat>)
    requires k < |chars| && at + |chars| == |t| == |t0| && t[..at + k] == t0[..at] + chars[..k]
    ensures t[at + k := chars[k]][..at + k + 1] == t0[..at] + chars[..k + 1]
  {
    var u := t[at + k := chars[k]];
    assert u[..at + k + 1] == u[..at + k] + [chars[k]] && u[..at + k] == t[..at + k];
  }

  /** The rest written after the first k. */
  lemma RestWritten(t0: seq<nat>, at: nat, chars: seq<nat>, k: nat, t: seq<nat>, u: seq<nat>)
    requires k <= |chars| && at + |chars| == |t| == |t0| && t[..at + k] == t0[..at] + chars[..k]
             && u == t[..at + k] + chars[k..]
    ensures u == t0[..at] + chars
  {
    assert chars == chars[..k] + chars[k..];
  }

  lemma FitsRest(s: seq<nat>, k: nat, w: nat)
    requires FitsWidth(s, w) && k <= |s|
    ensures FitsWidth(s[k..], w)
  {
  }

  lemma FitsMore(s: seq<nat>, k: nat, w: nat)
    requires k < |s| && FitsWidth(s[..k], w) && s[k] < Pow256(w)
    ensures FitsWidth(s[..k + 1], w)
  {
    assert s[..k + 1] == s[..k] + [s[k]];
  }

  /** The width after widening on the way is the one the whole text needs. */
  lemma WidthOnTheWay(s: seq<nat>, k: nat, w: nat, cs: nat)
    requires k < |s| && 1 <= w < cs && FitsWidth(s[..k], w) && cs == CharSize(s[k])
    ensures Max(Max(w, cs), TextWidth(s[k..])) == Max(w, TextWidth(s))
  {
    TextWidthOfRest(s, k, w);
    var m := TextWidth(s[k..]);
    TextWidthIsLeast(s[k..], m);
    assert s[k..][0] == s[k];
    CharSizeFits(s[k], m);
  }

  lemma WidthOfFitting(s: seq<nat>, w: nat)
    requires FitsWidth(s, w) && w >= 1
    ensures Max(w, TextWidth(s)) == w
  {
    TextWidthIsLeast(s, w);
  }

  lemma NoWrapNarrower(w: nat, w': nat, n: nat)
    requires Width(w) && Width(w') && w <= w' && NoWrap(w', n)
    ensures NoWrap(w, n)
  {
  }

  /** Where the next character is too wide: what widening and going on with the rest need. */
  lemma WideFacts(sw: nat, src: seq<byte>, n: nat, k: nat, w: nat, cs: nat, length: nat)
    requires Width(w) && Width(sw) && w < cs && |src| == Bytes(sw, n) && k < n
    requires FitsWidth(CharsIn(sw, n, src), 3) && cs == CharSize(CharsIn(sw, n, src)[k]) <= sw
    requires NoWrap(Max(w, sw), length)
    ensures Width(cs) && cs <= 3 && NoWrap(Max(w, cs), length) && NoWrap(Max(cs, sw), length)
    ensures Bytes(sw, k) <= |src| && |src[Bytes(sw, k)..]| == Bytes(sw, n - k)
    ensures CharsIn(sw, n - k, src[Bytes(sw, k)..]) == CharsIn(sw, n, src)[k..]
    ensures FitsWidth(CharsIn(sw, n, src)[k..], 3)
  {
    hide CharsIn, Bytes, CharSize, NoWrap;
    SourceRest(sw, src, n, k);
    CharSizeFits(CharsIn(sw, n, src)[k], 3);
    FitsRest(CharsIn(sw, n, src), k, 3);
    NoWrapNarrower(cs, sw, length);
  }

  lemma LayoutTwice(vals0: seq<Value>, vals1: seq<Value>, vals2: seq<Value>, i: nat)
    requires SameLayout(vals0, vals1, i) && SameLayout(vals1, vals2, i)
    ensures SameLayout(vals0, vals2, i)
  {
  }

  lemma LayoutRefl(vals: seq<Value>, i: nat)
    requires i < |vals| && (vals[i].Embedded? || vals[i].Allocated?)
    ensures SameLayout(vals, vals, i)
  {
  }

  lemma NothingWritten(t: seq<nat>, at: nat, chars: seq<nat>, w: nat)
    requires at <= |t|
    ensures t[..at + 0] == t[..at] + chars[..0] && FitsWidth(chars[..0], w)
  {
  }

  lemma AllWritten(t0: seq<nat>, at: nat, chars: seq<nat>, t: seq<nat>, w: nat)
    requires at + |chars| == |t| && at <= |t0| && t[..at + |chars|] == t0[..at] + chars[..|chars|]
             && FitsWidth(chars[..|chars|], w)
    ensures t == t0[..at] + chars && FitsWidth(chars, w)
  {
    assert t[..at + |chars|] == t && chars[..|chars|] == chars;
  }

  /** Every string's own length can be stored at its width. */
  lemma LengthNoWrap(blocks: Blocks, v: Value)
    requires Sane(blocks, v) && !v.Null?
    ensures NoWrap(v.width, v.length)
  {
    if v.Allocated? {
      BytesGrow(v.width, v.length, blocks[v.addr].capacity);
    }
  }

  lemma NoWrapFewer(w: nat, n: nat, m: nat)
    requires Width(w) && NoWrap(w, n) && m <= n
    ensures NoWrap(w, m)
  {
    BytesGrow(w, m, n);
  }

  lemma SubFacts(w: nat, n: nat, data: seq<byte>, a: nat, b: nat)
    requires Width(w) && Bytes(w, n) <= |data| && a <= b <= n
    ensures Bytes(w, a) <= Bytes(w, b) <= |data| && |data[Bytes(w, a)..Bytes(w, b)]| == Bytes(w, b - a)
    ensures CharsIn(w, b - a, data[Bytes(w, a)..Bytes(w, b)]) == CharsIn(w, n, data)[a..b]
  {
    hide CharsIn, Bytes;
    CharsSlice(w, n, data, a, b);
  }

  /** All bytes of an embedded value after its characters are zero. */
  predicate TailZero(v: Value)
    requires v.Embedded? && Width(v.width)
  {
    forall k :: Bytes(v.width, v.length) <= k < |v.data| ==> v.data[k] == 0
  }

  /** Text with the characters from a to b removed, as far as there are any. */
  function Erased(t: seq<nat>, a: nat, b: nat): seq<nat> {
    if a >= |t| || a >= b then t else t[..a] + t[if b > |t| then |t| else b..]
  }

  /** The part of a text from a to b, as far as there is any. */
  function Part(t: seq<nat>, a: nat, b: nat): (r: seq<nat>)
    ensures |r| <= |t|
  {
    var e := if b > |t| then |t| else b;
    if a >= e then [] else t[a..e]
  }

  /** As many characters as lie between a and b and in the text, the k-th being the one at a + k. */
  lemma PartIs(t: seq<nat>, a: nat, b: nat)
    ensures var end := if b < |t| then b else |t|;
            |Part(t, a, b)| == if a < end then end - a else 0
    ensures forall k :: 0 <= k < |Part(t, a, b)| ==> a + k < |t| && Part(t, a, b)[k] == t[a + k]
  {
  }

  /** Adjacent parts make one, and all the parts make the text. */
  lemma PartsJoin(t: seq<nat>, a: nat, b: nat, c: nat)
    requires a <= b <= c
    ensures Part(t, a, b) + Part(t, b, c) == Part(t, a, c)
    ensures Part(t, 0, |t|) == t
  {
  }

  /** What is left when a part is taken out: the part before it and the part after it. */
  lemma ErasedIsRest(t: seq<nat>, a: nat, b: nat)
    ensures a <= b ==> Erased(t, a, b) == Part(t, 0, a) + Part(t, b, |t|)
    ensures a > b ==> Erased(t, a, b) == t
    ensures |Erased(t, a, b)| + |Part(t, a, b)| == |t|
  {
  }

  lemma WidthOfNothing(w: nat)
    requires w >= 1
    ensures Max(w, TextWidth([])) == w
  {
  }

  /** A source whose width is known in advance. */
  lemma NarrowSource(t: seq<nat>, w: nat, sw: nat)
    requires Width(w) && Width(sw) && FitsWidth(t, sw)
    ensures t[0..|t|] == t && Max(Max(w, sw), TextWidth(t)) == Max(w, sw)
    ensures Max(w, sw) <= 3 ==> FitsWidth(t, 3)
  {
    WidthOfFitting(t, sw);
    Pow256Values();
    assert t[0..|t|] == t;
  }

  lemma CharNeeds(c: nat, w: nat)
    requires Width(CharSize(c))
    ensures c < Pow256(Max(w, CharSize(c)))
  {
    CharSizeFits(c, Max(w, CharSize(c)));
  }

  lemma LastWritten(t0: seq<nat>, t: seq<nat>, c: nat)
    requires |t| == |t0| + 1 && t[..|t0|] == t0
    ensures t[|t0| := c] == t0 + [c]
  {
  }

  /** A value that does not have to be copied before it is changed is not shared. */
  lemma NotShared(blocks: Blocks, vals: seq<Value>, next: nat, i: nat)
    requires Consistent(blocks, vals, next) && i < |vals|
    requires vals[i].Embedded? || (vals[i].Allocated? && vals[i].addr in blocks && blocks[vals[i].addr].refcount <= 1)
    ensures Alone(vals, i)
  {
    if vals[i].Allocated? {
      HoldersOne(vals, i, vals[i].addr);
    }
  }

  /** Moving the characters after b down to a. */
  lemma MovedDown(w: nat, n: nat, data: seq<byte>, a: nat, b: nat)
    requires Width(w) && Bytes(w, n) <= |data| && a <= b <= n
    ensures Bytes(w, a) <= Bytes(w, b) <= Bytes(w, n)
    ensures Bytes(w, a) + (Bytes(w, n) - Bytes(w, b)) <= |data| && Bytes(w, n - (b - a)) <= |data|
    ensures CharsIn(w, n - (b - a), Splice(data, Bytes(w, a), data[Bytes(w, b)..Bytes(w, n)]))
         == CharsIn(w, n, data)[..a] + CharsIn(w, n, data)[b..]
  {
    hide CharsIn, Bytes, Splice;
    BytesGrow(w, a, b);
    BytesGrow(w, b, n);
    BytesGrow(w, n - (b - a), n);
    SubFacts(w, n, data, b, n);
    BytesSum(w, a, n - b);
    var t := CharsIn(w, n, data);
    CharsMoved(w, a, n - b, data, data[Bytes(w, b)..Bytes(w, n)]);
    CharsPrefix(w, a, n, data);
    assert t[b..n] == t[b..];
    assert a + (n - b) == n - (b - a);
  }

  lemma NoPrefix(data: seq<byte>, data': seq<byte>, w: nat)
    requires Width(w)
    ensures Bytes(w, 0) == 0 && data'[..0] == data[..0]
  {
  }

  lemma ErasedParts(t: seq<nat>, a: nat, b: nat)
    requires a < |t| && a < b
    ensures Erased(t, a, b) == if b >= |t| then t[..a] else t[..a] + t[b..]
  {
  }

  // ----- what the other holders of a block see -----

  /** A text with characters written over it from position `at`, as far as it reaches. */
  function Overlaid(t: seq<nat>, at: nat, chars: seq<nat>): (r: seq<nat>)
    ensures |r| == |t|
    ensures forall k :: 0 <= k < |t| ==> r[k] == if at <= k < at + |chars| then chars[k - at] else t[k]
  {
    seq(|t|, k requires 0 <= k < |t| => if at <= k < at + |chars| then chars[k - at] else t[k])
  }

  lemma OverlaidTwice(t: seq<nat>, at: nat, x: seq<nat>, y: seq<nat>)
    ensures Overlaid(Overlaid(t, at, x), at + |x|, y) == Overlaid(t, at, x + y)
  {
  }

  lemma OverlaidPast(t: seq<nat>, at: nat, chars: seq<nat>)
    requires |t| <= at || chars == []
    ensures Overlaid(t, at, chars) == t
  {
  }

  /** All values but i are the same, except that the holders of i's block see the characters written there. */
  ghost predicate WrittenThrough(b: Blocks, v: seq<Value>, b': Blocks, v': seq<Value>, i: nat, at: nat,
                                 chars: seq<nat>) {
    && |v'| == |v| && i < |v|
    && forall j :: 0 <= j < |v| && j != i ==> SeenThrough(b, v, b', v', i, at, chars, j)
  }

  ghost predicate SeenThrough(b: Blocks, v: seq<Value>, b': Blocks, v': seq<Value>, i: nat, at: nat, chars: seq<nat>,
                              j: nat) {
    && i < |v| && j < |v| && j < |v'| && v'[j] == v[j] && Sane(b, v[j]) && Sane(b', v'[j])
    && Text(b', v'[j]) == if Shares(v, i, j) then Overlaid(Text(b, v[j]), at, chars) else Text(b, v[j])
  }

  /** No holder of i's block would see a difference. */
  ghost predicate Unseen(b: Blocks, v: seq<Value>, i: nat, at: nat, chars: seq<nat>)
    requires i < |v| && forall j :: 0 <= j < |v| ==> Sane(b, v[j])
  {
    forall j :: 0 <= j < |v| && j != i && Shares(v, i, j) ==> Overlaid(Text(b, v[j]), at, chars) == Text(b, v[j])
  }

  /** Nothing else changes exactly when no holder of the block would see a difference. */
  lemma ThroughExactly(b: Blocks, v: seq<Value>, b': Blocks, v': seq<Value>, next: nat, i: nat, at: nat,
                       chars: seq<nat>)
    requires WrittenThrough(b, v, b', v', i, at, chars) && Consistent(b, v, next)
    ensures OthersSame(b, v, b', v', i) <==> Unseen(b, v, i, at, chars)
  {
    hide Text, Sane, Overlaid;
    forall j | 0 <= j < |v| && j != i
      ensures SameValue(b, v, b', v', j) <==> (Shares(v, i, j) ==> Overlaid(Text(b, v[j]), at, chars) == Text(b, v[j]))
    {
      assert SeenThrough(b, v, b', v', i, at, chars, j);
    }
  }

  /** In particular when the others that hold the block are not longer. */
  lemma ThroughClear(b: Blocks, v: seq<Value>, b': Blocks, v': seq<Value>, i: nat, at: nat, chars: seq<nat>)
    requires WrittenThrough(b, v, b', v', i, at, chars) && Clear(v, i, at)
    ensures OthersSame(b, v, b', v', i)
  {
    hide Text, Sane;
    forall j | 0 <= j < |v| && j != i
      ensures SameValue(b, v, b', v', j)
    {
      assert SeenThrough(b, v, b', v', i, at, chars, j);
      if Shares(v, i, j) {
        OverlaidPast(Text(b, v[j]), at, chars);
      }
    }
  }

  lemma ClearUnseen(b: Blocks, v: seq<Value>, next: nat, i: nat, at: nat, chars: seq<nat>)
    requires Consistent(b, v, next) && i < |v| && Clear(v, i, at)
    ensures Unseen(b, v, i, at, chars)
  {
    forall j | 0 <= j < |v| && j != i && Shares(v, i, j)
      ensures Overlaid(Text(b, v[j]), at, chars) == Text(b, v[j])
    {
      OverlaidPast(Text(b, v[j]), at, chars);
    }
  }

  /** Writing nothing. */
  lemma ThroughNothing(b: Blocks, v: seq<Value>, b': Blocks, v': seq<Value>, i: nat, at: nat)
    requires OthersSame(b, v, b', v', i) && i < |v|
    ensures WrittenThrough(b, v, b', v', i, at, [])
  {
    hide Text, Sane;
    forall j | 0 <= j < |v| && j != i
      ensures SeenThrough(b, v, b', v', i, at, [], j)
    {
      assert SameValue(b, v, b', v', j);
      OverlaidPast(Text(b, v[j]), at, []);
    }
  }

  /** Writing some characters, then the ones that follow. */
  lemma ThroughTwice(b0: Blocks, v0: seq<Value>, b1: Blocks, v1: seq<Value>, b2: Blocks, v2: seq<Value>,
                     i: nat, at: nat, x: seq<nat>, y: seq<nat>)
    requires WrittenThrough(b0, v0, b1, v1, i, at, x) && WrittenThrough(b1, v1, b2, v2, i, at + |x|, y)
             && SameLayout(v0, v1, i)
    ensures WrittenThrough(b0, v0, b2, v2, i, at, x + y)
  {
    hide Text, Sane, Overlaid;
    forall j | 0 <= j < |v0| && j != i
      ensures SeenThrough(b0, v0, b2, v2, i, at, x + y, j)
    {
      assert SeenThrough(b0, v0, b1, v1, i, at, x, j) && SeenThrough(b1, v1, b2, v2, i, at + |x|, y, j);
      OverlaidTwice(Text(b0, v0[j]), at, x, y);
    }
  }

  /** Writing some characters, then doing something others do not notice. */
  lemma ThroughThenSame(b0: Blocks, v0: seq<Value>, b1: Blocks, v1: seq<Value>, b2: Blocks, v2: seq<Value>, i: nat,
                        at: nat, x: seq<nat>)
    requires WrittenThrough(b0, v0, b1, v1, i, at, x) && OthersSame(b1, v1, b2, v2, i)
    ensures WrittenThrough(b0, v0, b2, v2, i, at, x)
  {
    hide Text, Sane, Overlaid;
    forall j | 0 <= j < |v0| && j != i
      ensures SeenThrough(b0, v0, b2, v2, i, at, x, j)
    {
      assert SeenThrough(b0, v0, b1, v1, i, at, x, j) && SameValue(b1, v1, b2, v2, j);
    }
  }

  /** The heap after writing characters over the memory of value i. */
  lemma RewriteThrough(blocks: Blocks, vals: seq<Value>, next: nat, i: nat, data: seq<byte>, at: nat, chars: seq<nat>)
    requires Consistent(blocks, vals, next) && i < |vals| && (vals[i].Embedded? || vals[i].Allocated?)
             && Sane(blocks, vals[i])
    requires OverMemory(vals[i].width, Memory(blocks, vals[i]), data, at, chars)
    ensures var (blocks', vals') := Rewritten(blocks, vals, i, data);
            WrittenThrough(blocks, vals, blocks', vals', i, at, chars)
  {
    var (blocks', vals') := Rewritten(blocks, vals, i, data);
    var w := vals[i].width;
    RewriteKeepsHeap(blocks, vals, next, i, data, at);
    RewrittenParts(blocks, vals, i, data);
    WriteKeepsHeap(blocks, vals, next, i, vals'[i], blocks');
    assert vals[i := vals'[i]] == vals';
    forall j | 0 <= j < |vals| && j != i
      ensures SeenThrough(blocks, vals, blocks', vals', i, at, chars, j)
    {
      if Shares(vals, i, j) {
        SharerSees(blocks, vals, next, i, data, at, chars, j);
      } else {
        assert SameValue(blocks, vals, blocks', vals', j);
      }
    }
  }

  /** Memory that differs from another only in the characters written at a position. */
  ghost predicate OverMemory(w: nat, data: seq<byte>, data': seq<byte>, at: nat, chars: seq<nat>) {
    && Width(w) && |data'| == |data| && Bytes(w, at) <= Bytes(w, at + |chars|) <= |data|
    && data'[..Bytes(w, at)] == data[..Bytes(w, at)]
    && data'[Bytes(w, at + |chars|)..] == data[Bytes(w, at + |chars|)..]
    && CharsIn(w, at + |chars|, data') == CharsIn(w, at, data) + chars
  }

  lemma SharerSees(blocks: Blocks, vals: seq<Value>, next: nat, i: nat, data: seq<byte>, at: nat, chars: seq<nat>,
                   j: nat)
    requires Consistent(blocks, vals, next) && i < |vals| && j < |vals| && j != i && Shares(vals, i, j)
             && Sane(blocks, vals[i])
    requires OverMemory(vals[i].width, Memory(blocks, vals[i]), data, at, chars)
    ensures var (blocks', vals') := Rewritten(blocks, vals, i, data);
            SeenThrough(blocks, vals, blocks', vals', i, at, chars, j)
  {
    var v := vals[j];
    assert Sane(blocks, v);
    assert v.width == vals[i].width;
    OverMemoryChars(v.width, v.length, blocks[v.addr].data, data, at, chars);
  }

  lemma OverMemoryChars(w: nat, n: nat, data: seq<byte>, data': seq<byte>, at: nat, chars: seq<nat>)
    requires OverMemory(w, data, data', at, chars) && Bytes(w, n) <= |data|
    ensures CharsIn(w, n, data') == Overlaid(CharsIn(w, n, data), at, chars)
  {
    hide CharsIn, Overlaid, Bytes, GetChar;
    var e := at + |chars|;
    forall k | 0 <= k < n
      ensures CharsIn(w, n, data')[k] == Overlaid(CharsIn(w, n, data), at, chars)[k]
    {
      CharsAt(w, n, data', k);
      CharsAt(w, n, data, k);
      if k < e {
        CharsAt(w, e, data', k);
        if k < at {
          CharsAt(w, at, data, k);
        }
      } else {
        CharBeyond(w, data, data', e, k);
      }
    }
  }

  lemma CharBeyond(w: nat, data: seq<byte>, data': seq<byte>, e: nat, k: nat)
    requires Width(w) && e <= k && Bytes(w, k) + w <= |data| && |data'| == |data|
    requires Bytes(w, e) <= |data| && data'[Bytes(w, e)..] == data[Bytes(w, e)..]
    ensures GetChar(w, data', Bytes(w, k)) == GetChar(w, data, Bytes(w, k))
  {
    BytesGrow(w, e, k);
    hide Bytes, FromLE;
    var p, a := Bytes(w, e), Bytes(w, k);
    assert data'[p..][a - p..a - p + w] == data'[a..a + w] && data[p..][a - p..a - p + w] == data[a..a + w];
  }

  /** How many characters at the front fit a width. */
  function NarrowRun(s: seq<nat>, w: nat): (k: nat)
    ensures k <= |s| && FitsWidth(s[..k], w) && (k < |s| ==> s[k] >= Pow256(w))
    decreases |s|
  {
    if s == [] || s[0] >= Pow256(w) then 0
    else
      var k := NarrowRun(s[1..], w);
      assert s[..k + 1] == [s[0]] + s[1..][..k];
      1 + k
  }

  lemma NarrowRunIs(s: seq<nat>, k: nat, w: nat)
    requires k <= |s| && FitsWidth(s[..k], w) && (k < |s| ==> s[k] >= Pow256(w))
    ensures NarrowRun(s, w) == k
  {
    hide NarrowRun;
    var m := NarrowRun(s, w);
    assert forall x :: 0 <= x < k ==> s[..k][x] == s[x];
    assert forall x :: 0 <= x < m ==> s[..m][x] == s[x];
  }

  lemma AllNarrow(s: seq<nat>, w: nat)
    requires FitsWidth(s, w)
    ensures s[..NarrowRun(s, w)] == s
  {
    NarrowRunIs(s, |s|, w);
  }

  /** One character written is a case of characters written. */
  lemma OverMemoryPut(w: nat, data: seq<byte>, at: nat, c: nat)
    requires Width(w) && Bytes(w, at) + w <= |data| && c < Pow256(w)
    ensures OverMemory(w, data, PutBytes(w, data, Bytes(w, at), c), at, [c])
  {
    hide CharsIn, Bytes, PutChar, PutBytes, Pow256;
    PutBytesIsPutChar(w, data, at, c);
    CharsSnoc(w, at, data, c);
    BytesStep(w, at);
  }

  lemma OneMore(s: seq<nat>, k: nat)
    requires k < |s|
    ensures s[..k] + [s[k]] == s[..k + 1]
  {
  }

  lemma NoneYet(s: seq<nat>)
    ensures s[..0] == []
  {
  }

  /** Room made without anyone noticing, then characters written. */
  lemma ThroughAfterSame(b0: Blocks, v0: seq<Value>, b1: Blocks, v1: seq<Value>, b2: Blocks, v2: seq<Value>, i: nat,
                         at: nat, x: seq<nat>)
    requires OthersSame(b0, v0, b1, v1, i) && WrittenThrough(b1, v1, b2, v2, i, at, x) && SameLayout(v0, v1, i)
    ensures WrittenThrough(b0, v0, b2, v2, i, at, x)
  {
    hide WrittenThrough, OthersSame, SameLayout;
    LayoutFacts(v0, v1, i);
    ThroughNothing(b0, v0, b1, v1, i, at);
    ThroughTwice(b0, v0, b1, v1, b2, v2, i, at, [], x);
    assert [] + x == x;
  }

  lemma OneNarrow(c: nat, w: nat)
    requires c < Pow256(w)
    ensures [c][..NarrowRun([c], w)] == [c]
  {
    AllNarrow([c], w);
  }

  lemma NothingUnseen(b: Blocks, v: seq<Value>, next: nat, i: nat, at: nat, chars: seq<nat>)
    requires Consistent(b, v, next) && i < |v| && chars == []
    ensures Unseen(b, v, i, at, chars)
  {
    forall j | 0 <= j < |v| && j != i && Shares(v, i, j)
      ensures Overlaid(Text(b, v[j]), at, chars) == Text(b, v[j])
    {
      OverlaidPast(Text(b, v[j]), at, chars);
    }
  }

  lemma FullPart(t: seq<nat>, w: nat)
    requires FitsWidth(t, w) && Width(w)
    ensures t[0..|t|] == t && Max(w, TextWidth(t)) == w && (w <= 3 ==> FitsWidth(t, 3))
  {
    WholeSlice(t);
    WidthOfFitting(t, w);
    Pow256Values();
  }

  lemma NotAllocatedAlone(vals: seq<Value>, j: nat, v: Value)
    requires j < |vals| && !v.Allocated?
    ensures Alone(vals[j := v], j)
  {
  }
}

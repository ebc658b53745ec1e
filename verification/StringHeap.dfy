/**
 The heap of string values: construction, sharing, growth and change in place
 (src/string/create.c, pw_string_type.c, erase.c, truncate.c, append.c, substr.c). A value is
 named by its place in `vals`.
 */
module StringHeaps {
  import opened Radix
  import opened CharSizes
  import opened StringSizes
  import opened StringValues
  import opened StringChars
  import opened StringWrites

  class StringHeap {
    var blocks: Blocks
    var vals: seq<Value>
    /** An address not yet used. */
    var next: nat

    ghost predicate Valid()
      reads this
    {
      Consistent(blocks, vals, next)
    }

    /** Value i is a string. */
    predicate IsString(i: nat)
      reads this
    {
      i < |vals| && !vals[i].Null?
    }

    ghost function TextAt(i: nat): (s: seq<nat>)
      requires Valid() && i < |vals|
      reads this
    {
      Text(blocks, vals[i])
    }

    /** How many characters fit where value i keeps them. */
    ghost function CapacityAt(i: nat): (c: nat)
      requires Valid() && i < |vals|
      reads this
    {
      SaneAt(blocks, vals, next, i);
      Capacity(blocks, vals[i])
    }

    /** What has been written since is what the other holders of i's block see, and all else is the same. */
    ghost predicate Through(blocks0: Blocks, vals0: seq<Value>, i: nat, at: nat, chars: seq<nat>)
      reads this
    {
      WrittenThrough(blocks0, vals0, blocks, vals, i, at, chars)
    }

    ghost predicate Others(blocks0: Blocks, vals0: seq<Value>, i: nat)
      reads this
    {
      OthersSame(blocks0, vals0, blocks, vals, i)
    }

    /** So many empty places and nothing allocated. */
    constructor (places: nat)
      ensures Valid() && |vals| == places && blocks == map[] && forall i :: 0 <= i < places ==> vals[i] == Null
    {
      blocks, vals, next := map[], seq(places, _ => Null), 0;
    }

    /** pw_destroy: drops the reference to a block, and frees the block with its last one. */
    method Destroy(i: nat)
      requires Valid() && i < |vals|
      modifies this
      ensures Valid() && vals == old(vals)[i := Null] && blocks == ReleaseBlock(old(blocks), old(vals)[i])
      ensures Others(old(blocks), old(vals), i)
    {
      ReleaseKeepsHeap(blocks, vals, next, i);
      match vals[i] {
        case Allocated(w, _, a) =>
          SizeToFree(i);
          var b := blocks[a].(refcount := blocks[a].refcount - 1);
          if b.refcount == 0 {
            assert DataSize(w, b.capacity) == b.size;
            blocks := blocks - {a};
          } else {
            blocks := blocks[a := b];
          }
        case _ =>
      }
      vals := vals[i := Null];
    }

    lemma SizeToFree(i: nat)
      requires Valid() && i < |vals| && vals[i].Allocated?
      ensures vals[i].addr in blocks && blocks[vals[i].addr].refcount > 0 && Width(vals[i].width)
      ensures DataSize(vals[i].width, blocks[vals[i].addr].capacity) == blocks[vals[i].addr].size
    {
      assert Sane(blocks, vals[i]);
    }

    /** pw_clone2: another reference to the same characters. */
    method Clone(i: nat, j: nat)
      requires Valid() && i < |vals| && j < |vals| && i != j
      modifies this
      ensures Valid() && Others(old(blocks), old(vals), j)
      ensures vals[j] == vals[i] == old(vals)[i] && TextAt(j) == old(TextAt(i)) && CapacityAt(j) == old(CapacityAt(i))
    {
      hide Consistent, OthersSame, Text;
      ghost var blocks0, vals0 := blocks, vals;
      Destroy(j);
      SameAfter(blocks0, vals0, blocks, vals, j, i);
      ghost var blocks1, vals1 := blocks, vals;
      if vals[i].Allocated? {
        ShareKeepsHeap(blocks, vals, next, i, j);
        var a := vals[i].addr;
        blocks := blocks[a := blocks[a].(refcount := blocks[a].refcount + 1)];
      } else {
        SaneAt(blocks, vals, next, i);
        PutKeepsHeap(blocks, vals, next, j, vals[i]);
      }
      vals := vals[j := vals[i]];
      OthersTwice(blocks0, vals0, blocks1, vals1, blocks, vals, j);
    }

    /** _pw_make_empty_string: room for so many characters, in the value itself or in a new block. */
    method MakeEmpty(i: nat, capacity: nat, w: nat)
      requires Valid() && i < |vals| && Width(w) && NoWrap(w, capacity)
      modifies this
      ensures Valid() && Others(old(blocks), old(vals), i)
      ensures Fresh(blocks, vals, i, w, capacity)
      ensures i < |vals| && (vals[i].Embedded? <==> capacity <= EmbeddedCapacity(w))
    {
      hide Consistent, OthersSame, DataSize, RealCapacity, NoWrap;
      ghost var blocks0, vals0 := blocks, vals;
      Destroy(i);
      ghost var blocks1, vals1 := blocks, vals;
      if capacity <= EmbeddedCapacity(w) {
        var v := Embedded(w, 0, [0, 0, 0, 0, 0, 0, 0, 0, 0, 0, 0, 0]);
        PutKeepsHeap(blocks, vals, next, i, v);
        vals := vals[i := v];
      } else {
        var size := DataSize(w, capacity);
        var stored := RealCapacity(w, size);
        SizeRecomputed(w, capacity);
        var data := Uninitialized(size - HEADER);
        var v, b := Allocated(w, 0, next), Block(1, stored, size, data);
        AllocateKeepsHeap(blocks, vals, next, i, v, b);
        NewBlockAlone(blocks, vals, next, i, v);
        blocks, vals, next := blocks[v.addr := b], vals[i := v], next + 1;
      }
      OthersTwice(blocks0, vals0, blocks1, vals1, blocks, vals, i);
    }

    // ----- changing one value's characters -----

    /** Value i can be written: it is not static. */
    predicate Writable(i: nat)
      reads this
    {
      i < |vals| && (vals[i].Embedded? || vals[i].Allocated?)
    }

    /** The memory of value i. */
    ghost function MemoryAt(i: nat): (m: seq<byte>)
      requires Valid() && i < |vals|
      reads this
    {
      SaneAt(blocks, vals, next, i);
      Memory(blocks, vals[i])
    }

    /** Replaces the characters of value i from position p on. */
    method SetMemory(i: nat, data: seq<byte>, ghost p: nat)
      requires Valid() && Writable(i) && Width(vals[i].width) && |data| == |MemoryAt(i)|
               && Bytes(vals[i].width, p) <= |data|
      requires data[..Bytes(vals[i].width, p)] == MemoryAt(i)[..Bytes(vals[i].width, p)]
      modifies this
      ensures Valid() && next == old(next) && SameLayout(old(vals), vals, i) && vals[i].length == old(vals)[i].length
      ensures MemoryAt(i) == data && CapacityAt(i) == old(CapacityAt(i))
      ensures Clear(old(vals), i, p) ==> Others(old(blocks), old(vals), i)
      ensures forall at, chars {:trigger OverMemory(vals[i].width, old(MemoryAt(i)), data, at, chars)} ::
        OverMemory(vals[i].width, old(MemoryAt(i)), data, at, chars) ==> Through(old(blocks), old(vals), i, at, chars)
    {
      ghost var blocks0, vals0, data0 := blocks, vals, MemoryAt(i);
      hide Consistent, OthersSame, Sane, Clear, SameLayout;
      SaneAt(blocks, vals, next, i);
      RewriteKeepsHeap(blocks, vals, next, i, data, p);
      RewrittenParts(blocks, vals, i, data);
      match vals[i] {
        case Embedded(w, n, _) => vals := vals[i := Embedded(w, n, data)];
        case Allocated(_, _, a) =>
          BlockOf(i);
          blocks := blocks[a := blocks[a].(data := data)];
      }
      forall at, chars | OverMemory(vals0[i].width, data0, data, at, chars)
        ensures Through(blocks0, vals0, i, at, chars)
      {
        RewriteThrough(blocks0, vals0, next, i, data, at, chars);
      }
    }

    lemma BlockOf(i: nat)
      requires Valid() && i < |vals| && vals[i].Allocated?
      ensures vals[i].addr in blocks && blocks[vals[i].addr].refcount == Holders(vals, vals[i].addr) > 0
    {
      SaneAt(blocks, vals, next, i);
    }

    /** _pw_string_set_length, _pw_string_inc_length. */
    method SetLength(i: nat, n: nat)
      requires Valid() && Writable(i) && n <= CapacityAt(i)
      modifies this`vals
      ensures Valid() && SameLayout(old(vals), vals, i) && vals[i].length == n
      ensures MemoryAt(i) == old(MemoryAt(i)) && CapacityAt(i) == old(CapacityAt(i)) && Others(blocks, old(vals), i)
      ensures n <= old(vals[i].length) ==> TextAt(i) == old(TextAt(i))[..n]
      ensures old(vals[i].length) <= n ==> TextAt(i)[..old(vals[i].length)] == old(TextAt(i))
    {
      hide Consistent, OthersSame, Sane, SameLayout, Text, Capacity;
      SaneAt(blocks, vals, next, i);
      LengthKeepsHeap(blocks, vals, next, i, n);
      LengthKeepsChars(blocks, vals[i], n);
      vals := vals[i := WithLength(vals[i], n)];
    }

    lemma WriteFacts(i: nat, pos: nat)
      requires Valid() && Writable(i) && pos < vals[i].length
      ensures Width(vals[i].width) && Bytes(vals[i].width, pos) + vals[i].width <= |MemoryAt(i)|
      ensures Bytes(vals[i].width, vals[i].length) <= |MemoryAt(i)|
      ensures TextAt(i) == CharsIn(vals[i].width, vals[i].length, MemoryAt(i))
    {
      SaneAt(blocks, vals, next, i);
      TextIsChars(blocks, vals[i]);
      BytesGrow(vals[i].width, pos, vals[i].length);
    }

    /** The memory value i's characters are in. */
    method ReadMemory(i: nat) returns (data: seq<byte>)
      requires Valid() && i < |vals|
      ensures data == MemoryAt(i)
    {
      SaneAt(blocks, vals, next, i);
      data := Memory(blocks, vals[i]);
    }

    /** _pw_put_char: character pos, and nothing else, becomes c. */
    method WriteChar(i: nat, pos: nat, c: nat)
      requires Valid() && Writable(i) && pos < vals[i].length && c < Pow256(vals[i].width)
      modifies this
      ensures Valid() && next == old(next) && SameLayout(old(vals), vals, i) && vals[i].length == old(vals)[i].length
      ensures CapacityAt(i) == old(CapacityAt(i)) && TextAt(i) == old(TextAt(i))[pos := c]
      ensures Through(old(blocks), old(vals), i, pos, [c])
    {
      hide Consistent, OthersSame, Sane, Clear, WrittenThrough, OverMemory, Text, Capacity, Memory, Pow256, Bytes,
           PutBytes, PutChar;
      WriteFacts(i, pos);
      var w := vals[i].width;
      var data := ReadMemory(i);
      CharsPut(w, vals[i].length, data, pos, c);
      PutBytesIsPutChar(w, data, pos, c);
      OverMemoryPut(w, data, pos, c);
      var data' := PutBytes(w, data, Bytes(w, pos), c);
      SetMemory(i, data', pos);
      WriteFacts(i, pos);
    }

    lemma CopyFacts(i: nat, pos: nat, n: nat)
      requires Valid() && Writable(i) && pos + n == vals[i].length
      ensures Width(vals[i].width) && Bytes(vals[i].width, pos) <= Bytes(vals[i].width, pos + n) <= |MemoryAt(i)|
      ensures TextAt(i) == CharsIn(vals[i].width, pos + n, MemoryAt(i))
      ensures TextAt(i)[..pos] == CharsIn(vals[i].width, pos, MemoryAt(i))
    {
      SaneAt(blocks, vals, next, i);
      TextIsChars(blocks, vals[i]);
      BytesGrow(vals[i].width, pos, vals[i].length);
      hide CharsIn, Text, Sane, Memory, Bytes;
      CharsPrefix(vals[i].width, pos, vals[i].length, MemoryAt(i));
    }

    /** The last n characters are copied from memory that needs no greater width. */
    method WriteChars(i: nat, pos: nat, sw: nat, src: seq<byte>, n: nat)
      requires Valid() && Writable(i) && pos + n == vals[i].length && Width(sw) && |src| == Bytes(sw, n)
      requires FitsWidth(CharsIn(sw, n, src), vals[i].width)
      modifies this
      ensures Valid() && next == old(next) && SameLayout(old(vals), vals, i) && vals[i].length == old(vals)[i].length
      ensures CapacityAt(i) == old(CapacityAt(i)) && TextAt(i) == old(TextAt(i))[..pos] + CharsIn(sw, n, src)
      ensures Through(old(blocks), old(vals), i, pos, CharsIn(sw, n, src))
    {
      hide Consistent, OthersSame, Sane, Clear, WrittenThrough, Text, Capacity, Memory, Pow256, Bytes, CharsIn,
           FitsWidth;
      CopyFacts(i, pos, n);
      var data := ReadMemory(i);
      var data' := StrCopy(vals[i].width, data, pos, sw, src, n);
      BytesGrow(vals[i].width, pos, pos + n);
      assert OverMemory(vals[i].width, data, data', pos, CharsIn(sw, n, src));
      SetMemory(i, data', pos);
      CopyFacts(i, pos, n);
    }

    // ----- growing and widening -----

    /** The string at its characters: width, bytes and code points. */
    lemma SourceFacts(i: nat)
      requires Valid() && IsString(i)
      ensures var w, n := vals[i].width, vals[i].length;
              && Width(w) && Bytes(w, n) <= |MemoryAt(i)| && |MemoryAt(i)[..Bytes(w, n)]| == Bytes(w, n)
              && TextAt(i) == CharsIn(w, n, MemoryAt(i)[..Bytes(w, n)]) && FitsWidth(TextAt(i), w)
    {
      SaneAt(blocks, vals, next, i);
      TextIsChars(blocks, vals[i]);
      hide CharsIn, Text, Sane, Memory, Bytes;
      var w, n := vals[i].width, vals[i].length;
      CharsSlice(w, n, MemoryAt(i), 0, n);
      BytesStep(w, 0);
      WholeSlice(TextAt(i));
      assert MemoryAt(i)[0..Bytes(w, n)] == MemoryAt(i)[..Bytes(w, n)];
    }

    /** A copy of the characters with room of its own (create.c:72-95 and 154-185). */
    method Recopy(i: nat, capacity: nat, w: nat)
      requires Valid() && IsString(i) && Width(w) && vals[i].width <= w && vals[i].length <= capacity
               && NoWrap(w, capacity)
      modifies this
      ensures Valid() && Others(old(blocks), old(vals), i) && Writable(i) && Alone(vals, i)
      ensures vals[i].width == w && vals[i].length == old(vals)[i].length && TextAt(i) == old(TextAt(i))
      ensures capacity <= CapacityAt(i)
    {
      hide Consistent, OthersSame, Sane, Clear, Text, Capacity, Memory, Bytes, CharsIn, FitsWidth, NoWrap, SameLayout,
           Alone, WrittenThrough;
      ghost var blocks0, vals0 := blocks, vals;
      SourceFacts(i);
      var sw, n := vals[i].width, vals[i].length;
      FitsWider(TextAt(i), sw, w);
      var data := ReadMemory(i);
      MakeEmpty(i, capacity, w);
      FreshFacts(blocks, vals, i, w, capacity);
      ghost var blocks1, vals1 := blocks, vals;
      SetLength(i, n);
      OthersTwice(blocks0, vals0, blocks1, vals1, blocks, vals, i);
      ClearKept(vals1, vals, i);
      LayoutFacts(vals1, vals, i);
      ghost var blocks2, vals2 := blocks, vals;
      AloneIsClear(vals, i, 0);
      WriteChars(i, 0, sw, data[..Bytes(sw, n)], n);
      ThroughClear(blocks2, vals2, blocks, vals, i, 0, CharsIn(sw, n, data[..Bytes(sw, n)]));
      OthersTwice(blocks0, vals0, blocks2, vals2, blocks, vals, i);
      ClearKept(vals2, vals, i);
      LayoutFacts(vals2, vals, i);
    }

    /** Grows the block of a value nobody shares (create.c:137-149). */
    method Reallocate(i: nat, capacity: nat)
      requires Valid() && i < |vals| && vals[i].Allocated? && vals[i].addr in blocks
               && blocks[vals[i].addr].refcount == 1
      requires CapacityAt(i) < capacity && Width(vals[i].width) && NoWrap(vals[i].width, capacity)
      modifies this`blocks
      ensures Valid() && Others(old(blocks), old(vals), i) && Alone(vals, i)
      ensures TextAt(i) == old(TextAt(i)) && capacity <= CapacityAt(i)
    {
      hide Consistent, OthersSame, Text, DataSize, RealCapacity, NoWrap, Bytes;
      SaneAt(blocks, vals, next, i);
      var a, w := vals[i].addr, vals[i].width;
      var size := DataSize(w, capacity);
      var stored := RealCapacity(w, size);
      SizeRecomputed(w, capacity);
      SizeGrows(w, blocks[a].capacity, capacity);
      var more := Uninitialized(size - HEADER - |blocks[a].data|);
      var b := Block(1, stored, size, blocks[a].data + more);
      GrowKeepsHeap(blocks, vals, next, i, b);
      blocks := blocks[a := b];
    }

    /** Widens a value that holds its characters itself (create.c:107-122). */
    method WidenEmbedded(i: nat, w: nat)
      requires Valid() && i < |vals| && vals[i].Embedded? && Width(w) && vals[i].width < w
               && vals[i].length <= EmbeddedCapacity(w)
      modifies this`vals
      ensures Valid() && Others(blocks, old(vals), i) && Writable(i) && vals[i].Embedded? && Alone(vals, i)
      ensures vals[i].width == w && vals[i].length == old(vals)[i].length && TextAt(i) == old(TextAt(i))
      ensures CapacityAt(i) == EmbeddedCapacity(w)
    {
      hide Consistent, OthersSame, Clear, Text, Capacity, Bytes, CharsIn, FitsWidth, Alone;
      SaneAt(blocks, vals, next, i);
      SourceFacts(i);
      var sw, n := vals[i].width, vals[i].length;
      FitsWider(TextAt(i), sw, w);
      EmbeddedRoom(w, n);
      var data := ReadMemory(i);
      var data' := StrCopy(w, data, 0, sw, data[..Bytes(sw, n)], n);
      WidenKeepsHeap(blocks, vals, next, i, w, data');
      vals := vals[i := Embedded(w, n, data')];
    }

    /** Characters can be added in place: the block is wide and large enough, whoever else holds it. */
    ghost predicate InPlace(i: nat, increment: nat, w: nat)
      requires Valid() && IsString(i)
      reads this
    {
      vals[i].Allocated? && w <= vals[i].width && vals[i].length + increment <= CapacityAt(i)
    }

    /** _pw_expand_string: room for more characters and for wider ones. */
    method Expand(i: nat, increment: nat, w: nat)
      requires Valid() && IsString(i) && Width(w) && Width(vals[i].width)
      requires NoWrap(Max(vals[i].width, w), vals[i].length + increment)
      modifies this
      ensures Valid() && Others(old(blocks), old(vals), i) && Writable(i)
      ensures vals[i].width == Max(old(vals)[i].width, w) && vals[i].length == old(vals)[i].length
      ensures TextAt(i) == old(TextAt(i)) && vals[i].length + increment <= CapacityAt(i)
      ensures if old(InPlace(i, increment, w)) then vals == old(vals) && blocks == old(blocks) else Alone(vals, i)
    {
      hide Consistent, OthersSame, Text, DataSize, RealCapacity, NoWrap, Bytes, Clear, CopyCapacity;
      OthersRefl(blocks, vals, next, i);
      SaneAt(blocks, vals, next, i);
      var w0, w1 := vals[i].width, if w < vals[i].width then vals[i].width else w;
      var length, capacity0 := vals[i].length, 0;
      EmptyFits(w0);
      match vals[i] {
        case Embedded(_, _, _) =>
          if length + increment <= EmbeddedCapacity(w1) {
            if w1 > w0 {
              WidenEmbedded(i, w1);
            }
            return;
          }
        case Allocated(_, _, a) =>
          capacity0 := blocks[a].capacity;
          if w1 == w0 {
            if length + increment <= capacity0 {
              return;
            }
            if blocks[a].refcount == 1 {
              Reallocate(i, length + increment);
              return;
            }
          }
        case _ =>
      }
      CopyCapacitySafe(w0, w1, capacity0, length + increment);
      var capacity := CopyCapacity(w0, w1, capacity0, length + increment);
      assert capacity >= length + increment;
      Recopy(i, capacity, w1);
    }

    // ----- appending -----

    /** fn_append of the widths: fills the last n characters of value i, which may turn out to be wider than it is. */
    method AppendChars(i: nat, at: nat, sw: nat, src: seq<byte>, n: nat)
      requires Valid() && Writable(i) && Width(vals[i].width) && Width(sw)
      requires |src| == Bytes(sw, n) && at + n == vals[i].length
      requires NoWrap(Max(vals[i].width, sw), vals[i].length)
      requires vals[i].width <= 3 ==> FitsWidth(CharsIn(sw, n, src), 3)
      modifies this
      ensures Valid() && Writable(i) && vals[i].length == old(vals)[i].length
      ensures TextAt(i) == old(TextAt(i))[..at] + CharsIn(sw, n, src)
      ensures vals[i].width == Max(old(vals)[i].width, TextWidth(CharsIn(sw, n, src)))
      ensures Through(old(blocks), old(vals), i, at,
              CharsIn(sw, n, src)[..NarrowRun(CharsIn(sw, n, src), old(vals)[i].width)])
      ensures Alone(old(vals), i) ==> Alone(vals, i)
      decreases 4 - vals[i].width
    {
      hide Consistent, OthersSame, WrittenThrough, NarrowRun, Text, NoWrap, Bytes, Clear, CharsIn, TextWidth,
           SameLayout, GetChar, CharSize, Pow256, FitsWidth;
      ghost var chars := CharsIn(sw, n, src);
      var w := vals[i].width;
      if w >= sw {
        FitsWider(chars, sw, w);
        WidthOfFitting(chars, w);
        AllNarrow(chars, w);
        ghost var vals0 := vals;
        WriteChars(i, at, sw, src, n);
        LayoutFacts(vals0, vals, i);
        ClearKept(vals0, vals, i);
        return;
      }
      AppendNarrow(i, at, sw, src, n);
    }

    /** The loop for a source wider than the destination. */
    method AppendNarrow(i: nat, at: nat, sw: nat, src: seq<byte>, n: nat)
      requires Valid() && Writable(i) && Width(vals[i].width) && vals[i].width < sw && Width(sw)
      requires |src| == Bytes(sw, n) && at + n == vals[i].length
      requires NoWrap(Max(vals[i].width, sw), vals[i].length)
      requires FitsWidth(CharsIn(sw, n, src), 3)
      modifies this
      ensures Valid() && Writable(i) && vals[i].length == old(vals)[i].length
      ensures TextAt(i) == old(TextAt(i))[..at] + CharsIn(sw, n, src)
      ensures vals[i].width == Max(old(vals)[i].width, TextWidth(CharsIn(sw, n, src)))
      ensures Through(old(blocks), old(vals), i, at,
              CharsIn(sw, n, src)[..NarrowRun(CharsIn(sw, n, src), old(vals)[i].width)])
      ensures Alone(old(vals), i) ==> Alone(vals, i)
      decreases 4 - vals[i].width, 1
    {
      hide Consistent, OthersSame, WrittenThrough, NarrowRun, Text, NoWrap, Bytes, Clear, CharsIn, TextWidth,
           SameLayout, GetChar, CharSize, Pow256, FitsWidth, Sane, Alone, Capacity, Memory;
      ghost var chars := CharsIn(sw, n, src);
      ghost var blocks0, vals0, text0 := blocks, vals, TextAt(i);
      var k, w := 0, vals[i].width;
      OthersRefl(blocks, vals, next, i);
      LayoutRefl(vals, i);
      ThroughNothing(blocks0, vals0, blocks, vals, i, at);
      NoneYet(chars);
      NothingWritten(text0, at, chars, w);
      while k < n
        invariant k <= n && Valid() && Writable(i) && SameLayout(vals0, vals, i) && vals[i].width == w
                  && vals[i].length == at + n
        invariant TextAt(i)[..at + k] == text0[..at] + chars[..k] && FitsWidth(chars[..k], w)
        invariant Through(blocks0, vals0, i, at, chars[..k])
      {
        SourceChar(sw, src, n, k);
        var c := GetChar(sw, src, Bytes(sw, k));
        var cs := CharSize(c);
        ghost var blocks1, vals1, text1 := blocks, vals, TextAt(i);
        ClearKept(vals0, vals1, i);
        if cs > w {
          Widened(i, at, sw, src, n, k, cs, text0);
          ThroughThenSame(blocks0, vals0, blocks1, vals1, blocks, vals, i, at, chars[..k]);
          NarrowRunIs(chars, k, w);
          return;
        }
        WriteChar(i, at + k, c);
        OneWritten(text0, at, chars, k, text1);
        FitsMore(chars, k, w);
        LayoutTwice(vals0, vals1, vals, i);
        LayoutFacts(vals1, vals, i);
        OneMore(chars, k);
        ThroughTwice(blocks0, vals0, blocks1, vals1, blocks, vals, i, at, chars[..k], [c]);
        k := k + 1;
      }
      ClearKept(vals0, vals, i);
      AllWritten(text0, at, chars, TextAt(i), w);
      WidthOfFitting(chars, w);
      NarrowRunIs(chars, n, w);
    }

    /** A wider character in the middle: widen the whole string and go on with the routine of its new width. */
    method Widened(i: nat, at: nat, sw: nat, src: seq<byte>, n: nat, k: nat, cs: nat, ghost text0: seq<nat>)
      requires Valid() && Writable(i) && Width(vals[i].width) && vals[i].width < cs && Width(sw)
      requires |src| == Bytes(sw, n) && at + n == vals[i].length && k < n && |text0| == at + n
      requires NoWrap(Max(vals[i].width, sw), vals[i].length)
      requires FitsWidth(CharsIn(sw, n, src), 3) && cs == CharSize(CharsIn(sw, n, src)[k]) <= sw
      requires TextAt(i)[..at + k] == text0[..at] + CharsIn(sw, n, src)[..k]
               && FitsWidth(CharsIn(sw, n, src)[..k], vals[i].width)
      modifies this
      ensures Valid() && Writable(i) && vals[i].length == old(vals)[i].length
      ensures TextAt(i) == text0[..at] + CharsIn(sw, n, src)
      ensures vals[i].width == Max(old(vals)[i].width, TextWidth(CharsIn(sw, n, src)))
      ensures Others(old(blocks), old(vals), i) && Alone(vals, i)
      decreases 4 - vals[i].width, 0
    {
      hide Consistent, OthersSame, WrittenThrough, NarrowRun, Text, NoWrap, Bytes, Clear, CharsIn, TextWidth, GetChar,
           CharSize, Pow256, FitsWidth, Sane, Alone, Capacity, Memory;
      ghost var chars := CharsIn(sw, n, src);
      ghost var blocks1, vals1, text1 := blocks, vals, TextAt(i);
      WideFacts(sw, src, n, k, vals[i].width, cs, vals[i].length);
      Expand(i, 0, cs);
      AloneIsClear(vals, i, at + k);
      ghost var blocks2, vals2 := blocks, vals;
      AppendChars(i, at + k, sw, src[Bytes(sw, k)..], n - k);
      ThroughClear(blocks2, vals2, blocks, vals, i, at + k, chars[k..][..NarrowRun(chars[k..], cs)]);
      RestWritten(text0, at, chars, k, text1, TextAt(i));
      WidthOnTheWay(chars, k, vals1[i].width, cs);
      OthersTwice(blocks1, vals1, blocks2, vals2, blocks, vals, i);
    }

    /** The memory of a string's characters from a to b. */
    method ReadPart(i: nat, a: nat, b: nat) returns (part: seq<byte>)
      requires Valid() && IsString(i) && a <= b <= vals[i].length && Width(vals[i].width)
      ensures |part| == Bytes(vals[i].width, b - a) && CharsIn(vals[i].width, b - a, part) == TextAt(i)[a..b]
    {
      hide Consistent, Bytes, CharsIn, Text, Sane, Memory;
      var data := ReadMemory(i);
      SaneAt(blocks, vals, next, i);
      TextIsChars(blocks, vals[i]);
      SubFacts(vals[i].width, vals[i].length, data, a, b);
      part := data[Bytes(vals[i].width, a)..Bytes(vals[i].width, b)];
    }

    /**
     The others are as they were exactly when the characters get room of their own, or no holder sees a difference.
     */
    ghost predicate Isolated(blocks0: Blocks, vals0: seq<Value>, i: nat, inPlace: bool, chars: seq<nat>)
      requires i < |vals0| && !vals0[i].Null? && forall j :: 0 <= j < |vals0| ==> Sane(blocks0, vals0[j])
      reads this
    {
      Others(blocks0, vals0, i) <==>
          !inPlace || Unseen(blocks0, vals0, i, vals0[i].length, chars[..NarrowRun(chars, vals0[i].width)])
    }

    /** Makes room for n characters, and fills it from memory read in between (append.c:302-309 and 326-336). */
    method AppendPart(i: nat, j: nat, a: nat, b: nat, w: nat)
      requires Valid() && IsString(i) && IsString(j) && i != j && a <= b <= vals[j].length
      requires Width(w) && Width(vals[i].width) && Width(vals[j].width)
      requires w <= vals[j].width && NoWrap(Max(vals[i].width, vals[j].width), vals[i].length + (b - a))
      requires Max(vals[i].width, w) <= 3 ==> FitsWidth(TextAt(j)[a..b], 3)
      modifies this
      ensures Valid() && Writable(i) && vals[i].length == old(vals)[i].length + (b - a)
      ensures vals[i].width == Max(Max(old(vals)[i].width, w), TextWidth(old(TextAt(j))[a..b]))
      ensures TextAt(i) == old(TextAt(i)) + old(TextAt(j))[a..b]
      ensures Isolated(old(blocks), old(vals), i, old(InPlace(i, b - a, w)), old(TextAt(j))[a..b])
    {
      hide Consistent, OthersSame, Text, NoWrap, Bytes, Clear, CharsIn, TextWidth, FitsWidth, Sane, Alone, Capacity,
           Memory, SameLayout, WrittenThrough, Unseen, NarrowRun;
      ghost var blocks0, vals0, next0, source := blocks, vals, next, TextAt(j)[a..b];
      var at := vals[i].length;
      NoWrapNarrower(Max(vals[i].width, w), Max(vals[i].width, vals[j].width), at + (b - a));
      Expand(i, b - a, w);
      SameAfter(blocks0, vals0, blocks, vals, i, j);
      ghost var blocks1, vals1 := blocks, vals;
      SetLength(i, at + (b - a));
      LayoutFacts(vals1, vals, i);
      ClearKept(vals1, vals, i);
      SameAfter(blocks1, vals1, blocks, vals, i, j);
      OthersTwice(blocks0, vals0, blocks1, vals1, blocks, vals, i);
      ghost var blocks2, vals2 := blocks, vals;
      var part := ReadPart(j, a, b);
      AppendChars(i, at, vals[j].width, part, b - a);
      if vals1 == vals0 && blocks1 == blocks0 {
        ghost var run := source[..NarrowRun(source, vals0[i].width)];
        ThroughAfterSame(blocks0, vals0, blocks2, vals2, blocks, vals, i, at, run);
        ThroughExactly(blocks0, vals0, blocks, vals, next0, i, at, run);
      }
      if Alone(vals2, i) {
        AloneIsClear(vals2, i, at);
        ThroughClear(blocks2, vals2, blocks, vals, i, at, source[..NarrowRun(source, vals2[i].width)]);
        OthersTwice(blocks0, vals0, blocks2, vals2, blocks, vals, i);
      }
    }

    /** _pw_string_append: the whole of another string. */
    method Append(i: nat, j: nat)
      requires Valid() && IsString(i) && IsString(j) && i != j && Width(vals[i].width) && Width(vals[j].width)
      requires NoWrap(Max(vals[i].width, vals[j].width), vals[i].length + vals[j].length)
      modifies this
      ensures Valid() && Writable(i) && vals[i].width == Max(old(vals)[i].width, old(vals)[j].width)
      ensures !old(InPlace(i, vals[j].length, vals[j].width)) || Clear(old(vals), i, old(vals)[i].length)
              || !Shares(old(vals), i, j)
        ==> TextAt(i) == old(TextAt(i)) + old(TextAt(j))
      ensures Isolated(old(blocks), old(vals), i, old(InPlace(i, vals[j].length, vals[j].width)), old(TextAt(j)))
    {
      hide Consistent, OthersSame, WrittenThrough, Unseen, NarrowRun, Text, NoWrap, Bytes, Clear, CharsIn, TextWidth,
           FitsWidth, Sane, Alone, Capacity, Memory, SameLayout;
      SaneAt(blocks, vals, next, j);
      var n := vals[j].length;
      NarrowSource(TextAt(j), vals[i].width, vals[j].width);
      AppendPart(i, j, 0, n, vals[j].width);
    }

    /** pw_string_append_substring: the new width is what the added characters need, or the old one. */
    method AppendSubstring(i: nat, j: nat, a: nat, b: nat)
      requires Valid() && IsString(i) && IsString(j) && i != j && Width(vals[i].width) && Width(vals[j].width)
      requires NoWrap(Max(vals[i].width, vals[j].width), vals[i].length + |Part(TextAt(j), a, b)|)
      requires vals[i].width <= 3 ==> FitsWidth(Part(TextAt(j), a, b), 3)
      modifies this
      ensures Valid() && IsString(i) && vals[i].width == Max(old(vals)[i].width, TextWidth(old(Part(TextAt(j), a, b))))
      ensures !old(InPlace(i, |Part(TextAt(j), a, b)|, 1)) || Clear(old(vals), i, old(vals)[i].length)
              || !Shares(old(vals), i, j)
        ==> TextAt(i) == old(TextAt(i)) + old(Part(TextAt(j), a, b))
      ensures Isolated(old(blocks), old(vals), i, old(InPlace(i, |Part(TextAt(j), a, b)|, 1)),
              old(Part(TextAt(j), a, b)))
    {
      hide Consistent, OthersSame, WrittenThrough, Unseen, NarrowRun, Text, NoWrap, Bytes, Clear, CharsIn, TextWidth,
           FitsWidth, Sane, Alone, Capacity, Memory, SameLayout;
      OthersRefl(blocks, vals, next, i);
      WidthOfNothing(vals[i].width);
      var e := if b > vals[j].length then vals[j].length else b;
      if a >= e {
        NothingUnseen(blocks, vals, next, i, vals[i].length, [][..NarrowRun([], vals[i].width)]);
        return;
      }
      AppendPart(i, j, a, e, 1);
    }

    /** _pw_string_append_c32. */
    method AppendChar(i: nat, c: nat)
      requires Valid() && IsString(i) && Width(CharSize(c)) && Width(vals[i].width)
      requires NoWrap(Max(vals[i].width, CharSize(c)), vals[i].length + 1)
      modifies this
      ensures Valid() && Writable(i) && vals[i].width == Max(old(vals)[i].width, CharSize(c))
      ensures TextAt(i) == old(TextAt(i)) + [c]
      ensures Isolated(old(blocks), old(vals), i, old(InPlace(i, 1, CharSize(c))), [c])
      ensures old(InPlace(i, 1, CharSize(c))) ==>
                && Through(old(blocks), old(vals), i, old(vals)[i].length, [c])
                && SameLayout(old(vals), vals, i) && CapacityAt(i) == old(CapacityAt(i))
    {
      hide Consistent, OthersSame, WrittenThrough, Unseen, NarrowRun, Text, NoWrap, Bytes, Clear, CharsIn, TextWidth,
           FitsWidth, Sane, Alone, Capacity, Memory, SameLayout, CharSize, Pow256;
      ghost var blocks0, vals0, next0, text0 := blocks, vals, next, TextAt(i);
      CharNeeds(c, vals[i].width);
      var at := vals[i].length;
      Expand(i, 1, CharSize(c));
      ghost var blocks1, vals1 := blocks, vals;
      SetLength(i, at + 1);
      ClearKept(vals1, vals, i);
      LayoutFacts(vals1, vals, i);
      OthersTwice(blocks0, vals0, blocks1, vals1, blocks, vals, i);
      ghost var blocks2, vals2, text2 := blocks, vals, TextAt(i);
      WriteChar(i, at, c);
      LayoutFacts(vals2, vals, i);
      LastWritten(text0, text2, c);
      if vals1 == vals0 && blocks1 == blocks0 {
        OneNarrow(c, vals0[i].width);
        LayoutTwice(vals0, vals2, vals, i);
        ThroughAfterSame(blocks0, vals0, blocks2, vals2, blocks, vals, i, at, [c]);
        ThroughExactly(blocks0, vals0, blocks, vals, next0, i, at, [c]);
      }
      if Alone(vals2, i) {
        AloneIsClear(vals2, i, at);
        ThroughClear(blocks2, vals2, blocks, vals, i, at, [c]);
        OthersTwice(blocks0, vals0, blocks2, vals2, blocks, vals, i);
      }
    }

    // ----- copies and changes in place -----

    /** _pw_string_copy_on_write: afterwards nobody else holds the characters. */
    method CopyOnWrite(i: nat)
      requires Valid() && IsString(i)
      modifies this
      ensures Valid() && Others(old(blocks), old(vals), i) && Writable(i) && Alone(vals, i)
      ensures vals[i].width == old(vals)[i].width && vals[i].length == old(vals)[i].length
              && TextAt(i) == old(TextAt(i))
    {
      hide Consistent, OthersSame, Text, NoWrap, Bytes, Clear, CharsIn, TextWidth, FitsWidth, Sane, Alone, Capacity,
           Memory, SameLayout;
      SaneAt(blocks, vals, next, i);
      LengthNoWrap(blocks, vals[i]);
      OthersRefl(blocks, vals, next, i);
      var copy := true;
      match vals[i] {
        case Embedded(_, _, _) => copy := false;
        case Allocated(_, _, a) =>
          BlockOf(i);
          copy := blocks[a].refcount > 1;
        case _ =>
      }
      if copy {
        Recopy(i, vals[i].length, vals[i].width);
      } else {
        NotShared(blocks, vals, next, i);
      }
    }

    /** Zeroes the bytes of an embedded string after its characters (erase.c:26-32, truncate.c:13-19). */
    method CleanTail(i: nat)
      requires Valid() && Writable(i) && Width(vals[i].width) && Alone(vals, i)
      modifies this
      ensures Valid() && Others(old(blocks), old(vals), i) && Writable(i) && Alone(vals, i)
              && SameLayout(old(vals), vals, i)
      ensures vals[i].length == old(vals)[i].length && TextAt(i) == old(TextAt(i))
      ensures vals[i].Embedded? ==> TailZero(vals[i])
    {
      hide Consistent, OthersSame, Text, NoWrap, Bytes, Clear, CharsIn, TextWidth, FitsWidth, Sane, Alone, Capacity,
           Memory, SameLayout;
      LayoutRefl(vals, i);
      OthersRefl(blocks, vals, next, i);
      if vals[i].Embedded? {
        SaneAt(blocks, vals, next, i);
        TextIsChars(blocks, vals[i]);
        var data := ReadMemory(i);
        var data' := ZeroFrom(data, Bytes(vals[i].width, vals[i].length));
        CharsOfPrefix(vals[i].width, vals[i].length, data, data', vals[i].length);
        AloneIsClear(vals, i, vals[i].length);
        ghost var vals0 := vals;
        SetMemory(i, data', vals[i].length);
        ClearKept(vals0, vals, i);
        LayoutFacts(vals0, vals, i);
        EmbeddedText(i);
      }
    }

    lemma EmbeddedText(i: nat)
      requires Valid() && Writable(i) && vals[i].Embedded?
      ensures Width(vals[i].width) && Bytes(vals[i].width, vals[i].length) <= |MemoryAt(i)|
              && MemoryAt(i) == vals[i].data
      ensures TextAt(i) == CharsIn(vals[i].width, vals[i].length, MemoryAt(i))
    {
      SaneAt(blocks, vals, next, i);
      TextIsChars(blocks, vals[i]);
    }

    /** Sets the length of an unshared string to fewer characters. */
    method Shorten(i: nat, n: nat)
      requires Valid() && Writable(i) && Width(vals[i].width) && Alone(vals, i) && n <= vals[i].length
      modifies this
      ensures Valid() && Others(old(blocks), old(vals), i) && Writable(i) && Alone(vals, i)
      ensures vals[i].width == old(vals)[i].width && TextAt(i) == old(TextAt(i))[..n]
      ensures vals[i].Embedded? ==> TailZero(vals[i])
    {
      hide Consistent, OthersSame, Text, NoWrap, Bytes, Clear, CharsIn, TextWidth, FitsWidth, Sane, Alone, Capacity,
           Memory, SameLayout;
      ghost var blocks0, vals0 := blocks, vals;
      RoomForLength(i);
      SetLength(i, n);
      ghost var blocks1, vals1 := blocks, vals;
      ClearKept(vals0, vals, i);
      LayoutFacts(vals0, vals, i);
      CleanTail(i);
      LayoutFacts(vals1, vals, i);
      OthersTwice(blocks0, vals0, blocks1, vals1, blocks, vals, i);
    }

    lemma RoomForLength(i: nat)
      requires Valid() && Writable(i)
      ensures vals[i].length <= CapacityAt(i)
    {
      SaneAt(blocks, vals, next, i);
    }

    /** pw_string_truncate. */
    method Truncate(i: nat, position: nat)
      requires Valid() && IsString(i)
      modifies this
      ensures Valid() && IsString(i) && Others(old(blocks), old(vals), i) && vals[i].width == old(vals)[i].width
      ensures TextAt(i) == if position < |old(TextAt(i))| then old(TextAt(i))[..position] else old(TextAt(i))
      ensures position < |old(TextAt(i))| && vals[i].Embedded? ==> Width(vals[i].width) && TailZero(vals[i])
    {
      hide Consistent, OthersSame, Text, NoWrap, Bytes, Clear, CharsIn, TextWidth, FitsWidth, Sane, Alone, Capacity,
           Memory, SameLayout;
      OthersRefl(blocks, vals, next, i);
      SaneAt(blocks, vals, next, i);
      if position >= vals[i].length {
        return;
      }
      ghost var blocks0, vals0 := blocks, vals;
      CopyOnWrite(i);
      ghost var blocks1, vals1 := blocks, vals;
      Shorten(i, position);
      OthersTwice(blocks0, vals0, blocks1, vals1, blocks, vals, i);
    }

    /** The characters after b move down to a. */
    method MoveDown(i: nat, a: nat, b: nat)
      requires Valid() && Writable(i) && Width(vals[i].width) && Alone(vals, i) && a <= b <= vals[i].length
      modifies this
      ensures Valid() && Others(old(blocks), old(vals), i) && Writable(i) && Alone(vals, i)
              && vals[i].width == old(vals)[i].width
      ensures vals[i].length == old(vals)[i].length
      ensures TextAt(i)[..vals[i].length - (b - a)] == old(TextAt(i))[..a] + old(TextAt(i))[b..]
    {
      hide Consistent, OthersSame, Text, NoWrap, Bytes, Clear, CharsIn, TextWidth, FitsWidth, Sane, Alone, Capacity,
           Memory, SameLayout, Splice;
      ghost var vals0 := vals;
      SaneAt(blocks, vals, next, i);
      TextIsChars(blocks, vals[i]);
      var w, n := vals[i].width, vals[i].length;
      var data := ReadMemory(i);
      MovedDown(w, n, data, a, b);
      var data' := MoveBytes(data, Bytes(w, a), Bytes(w, b), Bytes(w, n));
      NoPrefix(data, data', w);
      AloneIsClear(vals, i, 0);
      SetMemory(i, data', 0);
      ClearKept(vals0, vals, i);
      LayoutFacts(vals0, vals, i);
      CopyFacts(i, n - (b - a), b - a);
    }

    /** pw_string_erase. */
    method Erase(i: nat, a: nat, b: nat)
      requires Valid() && IsString(i)
      modifies this
      ensures Valid() && IsString(i) && Others(old(blocks), old(vals), i) && vals[i].width == old(vals)[i].width
      ensures TextAt(i) == Erased(old(TextAt(i)), a, b)
      ensures a < b && a < |old(TextAt(i))| && vals[i].Embedded? ==> Width(vals[i].width) && TailZero(vals[i])
    {
      hide Consistent, OthersSame, Text, NoWrap, Bytes, Clear, CharsIn, TextWidth, FitsWidth, Sane, Alone, Capacity,
           Memory, SameLayout;
      OthersRefl(blocks, vals, next, i);
      SaneAt(blocks, vals, next, i);
      if a >= vals[i].length || a >= b {
        return;
      }
      ErasedParts(TextAt(i), a, b);
      ghost var blocks0, vals0 := blocks, vals;
      CopyOnWrite(i);
      ghost var blocks1, vals1 := blocks, vals;
      var length := a;
      if b < vals[i].length {
        length := vals[i].length - (b - a);
        MoveDown(i, a, b);
        OthersTwice(blocks0, vals0, blocks1, vals1, blocks, vals, i);
      }
      ghost var blocks2, vals2 := blocks, vals;
      Shorten(i, length);
      OthersTwice(blocks0, vals0, blocks2, vals2, blocks, vals, i);
    }

    /** An empty string at j takes characters from memory read from i. */
    method FillFrom(i: nat, j: nat, a: nat, b: nat, w: nat)
      requires Valid() && IsString(i) && j < |vals| && i != j && a <= b <= vals[i].length && Width(w)
               && Width(vals[i].width)
      requires w <= 3 ==> FitsWidth(TextAt(i)[a..b], 3)
      requires w <= vals[i].width
      modifies this
      ensures Valid() && Others(old(blocks), old(vals), j) && IsString(j) && Alone(vals, j)
      ensures TextAt(j) == old(TextAt(i))[a..b] && vals[j].width == Max(w, TextWidth(old(TextAt(i))[a..b]))
    {
      hide Consistent, OthersSame, WrittenThrough, NarrowRun, Text, NoWrap, Bytes, Clear, CharsIn, TextWidth, FitsWidth,
           Sane, Alone, Capacity, Memory, SameLayout;
      ghost var blocks0, vals0 := blocks, vals;
      SaneAt(blocks, vals, next, i);
      LengthNoWrap(blocks, vals[i]);
      NoWrapFewer(vals[i].width, vals[i].length, b - a);
      NoWrapNarrower(w, vals[i].width, b - a);
      var part := ReadPart(i, a, b);
      var sw := vals[i].width;
      MakeEmpty(j, b - a, w);
      FreshFacts(blocks, vals, j, w, b - a);
      ghost var blocks1, vals1 := blocks, vals;
      SetLength(j, b - a);
      ClearKept(vals1, vals, j);
      LayoutFacts(vals1, vals, j);
      OthersTwice(blocks0, vals0, blocks1, vals1, blocks, vals, j);
      ghost var blocks2, vals2 := blocks, vals;
      AloneIsClear(vals, j, 0);
      ghost var source := CharsIn(sw, b - a, part);
      AppendChars(j, 0, sw, part, b - a);
      ThroughClear(blocks2, vals2, blocks, vals, j, 0, source[..NarrowRun(source, vals2[j].width)]);
      OthersTwice(blocks0, vals0, blocks2, vals2, blocks, vals, j);
    }

    /** pw_deepcopy of a string: the same text in a value that shares no block. */
    method DeepCopy(i: nat, j: nat)
      requires Valid() && IsString(i) && j < |vals| && i != j
      modifies this
      ensures Valid() && Others(old(blocks), old(vals), j) && IsString(j) && Alone(vals, j)
      ensures TextAt(j) == old(TextAt(i)) && vals[j].width == old(vals)[i].width
    {
      hide Consistent, OthersSame, Text, NoWrap, Bytes, Clear, CharsIn, TextWidth, FitsWidth, Sane, Alone, Capacity,
           Memory, SameLayout;
      ghost var blocks0, vals0 := blocks, vals;
      SaneAt(blocks, vals, next, i);
      if vals[i].Allocated? {
        FullPart(TextAt(i), vals[i].width);
        FillFrom(i, j, 0, vals[i].length, vals[i].width);
      } else {
        Destroy(j);
        SameAfter(blocks0, vals0, blocks, vals, j, i);
        ghost var blocks1, vals1 := blocks, vals;
        SaneAt(blocks, vals, next, i);
        PutKeepsHeap(blocks, vals, next, j, vals[i]);
        NotAllocatedAlone(vals, j, vals[i]);
        vals := vals[j := vals[i]];
        OthersTwice(blocks0, vals0, blocks1, vals1, blocks, vals, j);
      }
    }

    /** pw_substr: the part, at the least width it needs. */
    method Substr(i: nat, j: nat, a: nat, b: nat)
      requires Valid() && IsString(i) && j < |vals| && i != j
      requires FitsWidth(Part(TextAt(i), a, b), 3)
      modifies this
      ensures Valid() && Others(old(blocks), old(vals), j) && IsString(j) && Alone(vals, j)
      ensures TextAt(j) == old(Part(TextAt(i), a, b)) && vals[j].width == TextWidth(old(Part(TextAt(i), a, b)))
      ensures var t := old(TextAt(i));
              var end := if b < |t| then b else |t|;
              && |TextAt(j)| == (if a < end then end - a else 0)
              && forall k :: 0 <= k < |TextAt(j)| ==> a + k < |t| && TextAt(j)[k] == t[a + k]
    {
      hide Consistent, OthersSame, Text, NoWrap, Bytes, Clear, CharsIn, TextWidth, FitsWidth, Sane, Alone, Capacity,
           Memory, SameLayout;
      SaneAt(blocks, vals, next, i);
      var e := if b > vals[i].length then vals[i].length else b;
      if a >= e {
        WidthOfNothing(1);
        EmptyFits(1);
        MakeEmpty(j, 0, 1);
        FreshFacts(blocks, vals, j, 1, 0);
      } else {
        FillFrom(i, j, a, e, 1);
      }
    }

    /** pw_char_at: the character at a position, 0 beyond the end. */
    method CharAt(i: nat, pos: nat) returns (c: nat)
      requires Valid() && IsString(i)
      ensures c == if pos < |TextAt(i)| then TextAt(i)[pos] else 0
    {
      hide Consistent, Bytes, CharsIn, Text, Sane, Memory, GetChar;
      SaneAt(blocks, vals, next, i);
      if pos < vals[i].length {
        TextIsChars(blocks, vals[i]);
        var data := ReadMemory(i);
        CharsAt(vals[i].width, vals[i].length, data, pos);
        c := GetChar(vals[i].width, data, Bytes(vals[i].width, pos));
      } else {
        c := 0;
      }
    }
  }

  /** All bytes from a position on set to zero. */
  method ZeroFrom(data: seq<byte>, from: nat) returns (r: seq<byte>)
    requires from <= |data|
    ensures |r| == |data| && r[..from] == data[..from] && forall k :: from <= k < |r| ==> r[k] == 0
  {
    r := data;
    var k := from;
    while k < |r|
      invariant from <= k <= |r| == |data| && r[..from] == data[..from]
      invariant forall m :: from <= m < k ==> r[m] == 0
    {
      r := r[k := 0];
      k := k + 1;
    }
  }

  /** memmove of the bytes between from and end down to `to`. */
  method MoveBytes(data: seq<byte>, to: nat, from: nat, end: nat) returns (r: seq<byte>)
    requires to <= from <= end <= |data|
    ensures |r| == |data| && r == Splice(data, to, data[from..end])
  {
    r := data[..to] + data[from..end] + data[to + (end - from)..];
  }

  /** Memory with nothing known about its content. */
  method Uninitialized(n: nat) returns (data: seq<byte>)
    ensures |data| == n
  {
    assert |seq(n, _ => 0 as byte)| == n;
    data :| |data| == n;
  }
}

# Verification of petway's core

petway is a C library of 128-bit tagged values: strings, arrays, maps, files, parsing and JSON output. This project
models the parts of it that are hard to get right, in the form the C code has (classes with fields where it changes
structures, loops where it loops), and proves what those parts promise. `dafny verify dfyconfig.toml` checks all of it.

- **Hash map** (`Probing`, `HashTables`, `PwMaps`, `References`, `Deletions`, `AssocList`, `MapRuns`): linear probing over
  byte-packed 1-based indexes into a pair array. Every run of updates, lookups and deletions agrees with an
  insertion-ordered association list, and the map counts exactly the references of its pairs, up to the first operation
  that goes wrong; both probe loops end because an unused slot always remains. What goes wrong is stated for all tables.
  - Deletion clears a slot without repairing probe runs, and its test for "last but one" is made after the array has
    shrunk. All keys are read rightly afterwards if and only if no other pair's probe run crosses the cleared slot, and
    the slots are in order if and only if, besides, the pair was not last but one. In that case the last pair is read
    from a second copy past the end, which the next update changes in its stead and the next insertion overwrites, unless
    that insertion rebuilds the slot table, which repairs all of it. `CheckDelete` decides beforehand.
  - Deletion leaves that second copy of the last pair behind in every case but one, and storing a pair destroys what is in
    its cell. So after the deletion of any pair but the last, however safe, the next new pair releases the references of
    the last pair, which is still in the order: the count stays right if and only if that pair holds none. Runs stop
    before such an insertion.
  - A pair array of 2^28 items asks for 2^32 bytes, which 32 bits cut to none, so the map takes 2^27 - 8 pairs and no more.
    An index of 2^31 or more loses its highest bit and may find a pair.
- **Strings** (`StringSizes`, `StringValues`, `StringChars`, `StringWrites`, `StringHeaps`, `StringRuns`): a heap of
  reference-counted blocks shared by values of 1 to 4 bytes per character. Every operation computes the text it should
  and leaves all others alone, whole runs behave as independent immutable texts, and reference counts stay the numbers of
  holders. Appending to a block that others hold too writes in place (`create.c:133-135` returns before it looks at the
  reference count); what the others see is stated exactly, and so is when they see nothing.
- **Splitting and joining** (`Splitting`), **UTF-8** (`Utf8`, `Utf8Text`; section 3 of RFC 3629).
- **Buffered files** (`FileWriting`, `FileReading`, `StringLines`, `TextLines`): conservation of bytes through any script
  of short writes, interruptions and failures; lines independent of where chunks cut characters; every character of the
  content, through any interruptions and failures of reads, either in a delivered line or lost by a failing read or an
  unended end, in order; the whole content from reads of any sizes; and the same lines from a file and from a string
  exactly when the text is empty, ends with a line feed or does not fill the last buffer.
- **Numbers and timestamps** (`Parsing`, `Numerals`): the parser against texts put together without its own notions.
- **JSON printing** (`JsonText`, `JsonLayout`, `JsonReader`, `JsonWriting`): the printer against a reader written from
  sections 2 to 7 of RFC 8259, and its layout against a machine that counts open brackets. The reader recovers the value
  exactly when every control character in its strings is one of \b \f \n \r \t; the printer's escape for the others has
  no `u` in it.
- **Equality and hashing** (`ValueKeys`): equal values feed the same words, for any mixing of the words.
- **Type registry** (`MethodTables`, `Registries`): method tables shared along chains of subtypes.

Where code and documentation differ, the code is followed: `pw_string_to_utf8` copies 1-byte strings as they are, which
is UTF-8 only below 0x80 (`Utf8Text.NarrowCopyIsUtf8`); the decoders clear bit 21 and above (`Utf8.Survivor`);
the text of -2^63 is printed but refused by the parser (`Parsing.PrintThenParse`). `StringHeap.CharAt` alone follows the
documentation of `pw_char_at`, which promises 0 beyond the end (include/pw_string.h:157-161).

## Model

| member | source | states |
|---|---|---|
| Radix.LoadStore | src/pw_map.c:51-89 | an index stored in a slot of any width and either byte order reads back, if it is below 256^width |
| Radix.UnpackStore | src/pw_map.c:82-89 | writing one slot changes that slot and no other, for every slot width |
| Radix.AndMask | src/pw_map.c:124-126 | masking with capacity - 1 is the remainder of the hash by the capacity |
| HashTables.ItemSizeFits | src/pw_map.c:30-44 | every capacity, hence every stored index, is below 256^item_size, and no narrower size would do |
| HashTables.GetItemSize | src/pw_map.c:30-44 | the loop over the capacity's bytes computes that least width |
| HashTables.LoadShifting | src/pw_map.c:71-80 | the generic byte loop reads the integer packed at a position |
| HashTables.StoreShifting | src/pw_map.c:82-89 | the generic byte loop replaces exactly the bytes of one slot by those of the value |
| HashTables.HashTable.Init | src/pw_map.c:107-153 | a table of a power-of-two capacity with every slot unused and slots wide enough for all indexes |
| HashTables.HashTable.SetItem | src/pw_map.c:82-89 | one slot becomes the value, all others stay |
| HashTables.HashTable.ProbeUnused | src/pw_map.c:212-229 | probing from the hash ends at an unused slot with no unused slot before it |
| HashTables.HashTable.SetHashTableItem | src/pw_map.c:212-229 | the index enters the first unused slot of its probe sequence and nothing else changes |
| Probing.UnusedSlotExists | src/pw_map.c:246-252 | with fewer pairs than slots a free slot remains, so probing cannot go round for ever |
| Probing.RunBound | src/pw_map.c:161-210 | a run of used slots from any home is no longer than the number of pairs |
| Probing.WalkFinds | src/pw_map.c:161-210 | in a table that satisfies the invariant probing finds the pair whose key matches, at its slot |
| Probing.WalkMisses | src/pw_map.c:161-210 | when no key matches, probing ends at an unused slot |
| Probing.PlaceKeepsTable | src/pw_map.c:212-229 | entering the next index in the first unused slot of its probe sequence keeps the invariant |
| Deletions.ReadExactly | src/pw_map.c:593-657 | after deletion a key is read as the list without the pair says if and only if it is not the key of another pair whose probe run crosses the cleared slot |
| Deletions.DeleteReadsExactly | src/pw_map.c:593-657 | all keys are read so if and only if no other pair's probe run crosses the cleared slot, also when the pair was last but one |
| Deletions.DeleteRestoresExactly | src/pw_map.c:619-657 | the slots and pairs are in order again, at any positions, if and only if none crosses and the pair was not last but one |
| Deletions.SafeDeleteKeepsTable | src/pw_map.c:619-657 | it then holds at the old positions without the pair's, each later index one lower |
| Deletions.FreeNextSlotIsSafe | src/pw_map.c:638-650 | a cleared slot followed by an unused one, of a pair not last but one, is such a case |
| Deletions.StaleUpdate | src/pw_map.c:278-296 | after the last but one pair is deleted, setting the last key's value changes a copy past the end, which lookups then read, while the pair in the order keeps its old value; that value is released, so the count stays right if and only if both values hold the same references |
| Deletions.StaleInsert | src/pw_map.c:298-313 | and a new pair, when the slot table is not rebuilt for it, overwrites that copy, after which the last key is never found although its pair is in the order |
| HashTables.TableBytes | src/pw_map.c:107-153 | the slot table of any capacity the map comes to has its size in 32 bits without wrapping |
| PwMaps.ArrayBytesFit | src/pw_array.c:244-262 | a pair array that is not refused gets the bytes it needs if and only if it is asked for at most 2^28 - 16 items, and none otherwise |
| References.OverwriteKeeps | include/pw_types.h:769-779 | replacing a pair's value and releasing the old one keeps the references counted those of the pairs |
| References.InsertExactly | src/pw_array.c:333-345 | a new pair releases what its cell holds: the count stays right if and only if that is nothing, and is otherwise short by exactly that |
| Deletions.LeftByDeletion | src/pw_array.c:555-577 | the cell behind the pairs is empty after a deletion if and only if the pair deleted was the last; else it is a copy of the last pair |
| Deletions.InsertAfterDelete | src/pw_array.c:333-345 | so after deleting any other pair, safely or not, the next new pair releases the last pair's references, and the count stays right if and only if it has none |
| PwMaps.GrownCapacity | src/pw_map.c:231-262 | growth gives a power of two with more slots than pairs wanted, not below the old one |
| PwMaps.PwMap.Lookup | src/pw_map.c:161-210 | the loop ends and its outcome is the one of probing |
| PwMaps.PwMap.Rebuild | src/pw_map.c:254-276 | entering indexes 1..n into a larger table puts the slots in order, whatever they were, with the same pairs in the same order |
| PwMaps.PwMap.Expand | src/pw_map.c:231-276 | makes room for the wanted number of pairs, contents unchanged, or refuses, or ends with an array without cells; which one is a function of the number and the room there was; the slots stay as they are unless a quarter of them is wanted or passed, and else the pairs are entered anew at the first doubling that suffices, which puts the slots in order whatever they were |
| PwMaps.PwMap.Update | src/pw_map.c:278-313 | a present key gets its value in place, a new key goes last; it never refuses, and fails, by the wrapped size, exactly for a new key in a map of 2^27 - 8 pairs; after a new key the references counted are those of the pairs if and only if the cell it went into held none, and are otherwise short by those |
| PwMaps.PwMap.Find | src/pw_map.c:600-617 | the value the association list keeps with the key, or none |
| PwMaps.PwMap.HasKey | src/pw_map.c:593-598 | whether the association list has the key |
| PwMaps.PwMap.Item | src/pw_map.c:665-680 | the pair at a place of the insertion order, the place taken without its highest bit |
| PwMaps.ItemAtExact | src/pw_map.c:665-680 | that is the answer of the list if and only if the index is below 2^31, or is not below the number of pairs without its highest bit |
| PwMaps.PwMap.Delete | src/pw_map.c:619-657 | what the code leaves behind in all cases: the pairs without the deleted one, their references counted rightly, and what the cells behind them hold; lookups right if and only if no run crosses; slots in order if and only if safe |
| PwMaps.PwMap.Renumber | src/pw_map.c:644-655 | every index from the threshold up lowered by one, the others untouched |
| PwMaps.PwMap.Destroy | src/pw_array.c:224-242 | releases the references of the pairs and no others |
| PwMaps.PwMap.DeepCopy | src/pw_map.c:357-380 | a separate map with the same pairs in the same order |
| MapRuns.CheckDelete | src/pw_map.c:619-657 | a check to make before a deletion, which says yes exactly when lookups are right and the slots in order afterwards |
| MapRuns.Run | src/pw_map.c:161-313 | for every run of updates, lookups and deletions from an empty map all answers are those of the association list, for any lawful keys, and the references counted are those of the pairs; it stops before an unsafe deletion of a present key, a new key in a map of 2^27 - 8 pairs, or a new key whose cell holds references, and nowhere else |
| MapRuns.RunAndDestroy | src/pw_map.c:319-327 | after any such run destroying the map has released exactly the references it was handed |
| MapRuns.NothingCounted | src/pw_array.c:333-345 | keys and values without counted references never stop a run below the bound |
| MapRuns.NothingDeleted | src/pw_array.c:333-345 | without deletions no cell behind the pairs ever holds anything |
| MapRuns.BlockedAfterDeletion | src/pw_array.c:555-577 | after deleting a pair that is not last a new key stops a run if and only if the last pair holds references |
| MapRuns.DeleteThenInsert | src/pw_map.c:278-313 | in every map a safe deletion and an insertion leave the count short by the last pair's references, unless that pair was the one deleted |
| MapRuns.InsertingAfterDeletionFreesTheLast | src/pw_array.c:555-577 | three pairs in eight slots, the first safely deleted: the next insertion releases the last reference to the last key, still in the order |
| MapRuns.DeletingLastButOneLosesTheLast | src/pw_map.c:644-650 | two pairs in eight slots: after deleting the first the second is read past the end, and lost with the next insertion |
| MapRuns.DeletingInsideAProbeRunLosesTheNext | src/pw_map.c:638 | three pairs with one home: after deleting the first the second is not found |
| ValueKeys.SubstrEq | src/string/substreq.c:6-195 | for every pair of widths but 3 against 4: true exactly when the code points agree |
| ValueKeys.SubstrEq34 | src/string/substreq.c:112-124 | 3 against 4 compares the bytes at 7k with character k, whatever they are, reading no further than the last character |
| ValueKeys.ThreeFourWrong | src/string/substreq.c:112-124 | two strings of the same two characters that it calls different |
| ValueKeys.ReachesBase | src/pw_types.c:279-305 | the loops over ancestors meet a base type exactly when it is the value's own |
| ValueKeys.SignedEqual | src/pw_types.c:279-305 | equal exactly to integers of the same mathematical value, signed or unsigned, in any subtype |
| ValueKeys.UnsignedEqual | src/pw_types.c:372-399 | the same from the unsigned side, through its cast to signed |
| ValueKeys.Equal | include/pw_types.h:854-873 | comparison of null, booleans, integers and strings of any types is equality of what they mean |
| ValueKeys.HashChars | src/string/hash.c:10-62 | the pairwise loop feeds the same words for the same code points at every width |
| ValueKeys.Hash | src/pw_types.c:245-254 | the words fed for a value are those of its meaning, so no type id but the base type's and no storage form enters them |
| ValueKeys.SameWords | src/pw_types.c:245-399 | values that compare equal feed the same words |
| ValueKeys.WordsTell | src/string/hash.c:10-62 | the converse: same words only for equal values, or texts equal up to one final 0 character that pads an odd length |
| ValueKeys.ValuesAreLawful | src/pw_map.c:161-210 | so values are keys as the map needs them, whatever function mixes the words, as long as no string of 3 bytes per character meets one of 4: keys without the latter, or without the former |
| ValueKeys.KeysEqual | include/pw_types.h:854-873 | the comparison of the first kind of keys is the one their laws are proved for |
| ValueKeys.NotThreeKeysEqual | include/pw_types.h:854-873 | and so for the second kind |
| StringSizes.SoundExactly | src/string/create.c:17-25 | stored capacity is at least the request and fits the block if and only if the 32-bit size does not wrap |
| StringSizes.SizeRecomputed | src/string/pw_string_internal.h:97-103 | the size recomputed from stored capacity is the size allocated, so free and realloc pass the right one |
| StringSizes.CopyCapacityAssertion | src/string/create.c:156-163 | the assertion in the widening branch fails exactly when the byte length wraps below the old block's |
| StringSizes.CopyCapacitySafe | src/string/create.c:156-163 | without wrap-around it never fires |
| StringSizes.AssertionFails | src/string/create.c:156-163 | 2^30 one-byte characters, in a block of the capacity stored for them, widened to four bytes: it fires |
| StringSizes.LargestCapacityWraps | src/string/create.c:9-25 | a capacity the limit table lets pass whose block size wraps to 0 |
| CharSizes.CharSizeFits | src/string/pw_string_internal.h:159-173 | the width computed from the leading zeros is the least that holds the code point |
| CharSizes.CharSizeOfOr | src/string/strchr2.c:14-29 | the width of code points or-ed together is the greatest of their widths |
| CharSizes.TextWidthIsLeast | src/string/pw_string_internal.h:159-173 | a text's width is the least width in which every character fits |
| StringValues.ReleaseKeepsHeap | src/string/pw_string_type.c:20-27 | dropping a reference keeps all counts equal to the numbers of holders and every other value's text |
| StringValues.ShareKeepsHeap | src/string/pw_string_type.c:29-34 | so does another reference to a block |
| StringValues.AllocateKeepsHeap | src/string/create.c:57-69 | so does a new block |
| StringValues.HoldersUpdate | src/string/pw_string_type.c:20-34 | replacing one value changes the number of holders of each block by what that value held |
| StringHeaps.StringHeap.Destroy | src/string/pw_string_type.c:20-27 | a block is freed exactly when its last holder goes, with the size it was allocated with; no other text changes |
| StringHeaps.StringHeap.Clone | src/string/pw_string_type.c:29-34 | the same text, one more holder of the block, nothing else changed |
| StringHeaps.StringHeap.DeepCopy | src/string/pw_string_type.c:36-54 | the same text in a value that shares no block |
| StringSizes.EmbeddedIsMost | src/string/create.c:36-46 | a value holds as many characters itself as go into its twelve bytes |
| StringHeaps.StringHeap.MakeEmpty | src/string/create.c:27-70 | an empty string of the width with at least the capacity, sharing nothing; in the value itself exactly if the capacity fits there |
| StringHeaps.StringHeap.CopyOnWrite | src/string/create.c:72-95 | the same text, and nobody else holds it |
| StringHeaps.StringHeap.Expand | src/string/create.c:97-186 | room for the increment at the greater width with the text unchanged; either nothing changed (wide and large enough in place) or nobody else holds the characters |
| StringHeaps.StringHeap.Recopy | src/string/create.c:154-185 | a widened or enlarged copy with the same text |
| StringHeaps.StringHeap.Reallocate | src/string/create.c:137-150 | a block grown in place keeps the text |
| StringHeaps.StringHeap.WidenEmbedded | src/string/create.c:107-122 | characters kept in the value itself are re-encoded in place |
| StringWrites.StrCopy | src/string/copy.c:7-56 | for every pair of widths the same code points at the destination, the bytes before and after untouched |
| StringHeaps.StringHeap.WriteChar | include/pw_string.h:137-155 | one character changes; other holders of the block see exactly that character |
| StringHeaps.StringHeap.AppendChars | src/string/append.c:7-166 | for every pair of widths, widening part-way or not: the source's code points follow the text and the width is the greater of the old and the needed one; other holders see the characters before the first that needed widening |
| StringHeaps.StringHeap.Widened | src/string/append.c:45-51 | a wide character in the middle: the whole string re-encoded, the rest appended by the routine of the new width |
| StringHeaps.StringHeap.Append | src/string/append.c:297-310 | concatenation at the greater width; other texts unchanged if and only if the characters got room of their own or no other holder could see a difference |
| StringHeaps.StringHeap.AppendSubstring | src/string/append.c:312-337 | concatenation of a clipped part; the width is the greater of the old one and what the part needs; isolation as above |
| StringHeaps.StringHeap.AppendChar | src/string/append.c:210-219 | one more code point; isolation as above, and what the other holders see when it fails |
| StringHeaps.StringHeap.Substr | src/string/substr.c:4-31 | the clipped part at the least width it needs; as many characters as lie between the two positions and in the text, the k-th being the one at the first position plus k |
| StringWrites.PartIs | src/string/substr.c:11-27 | that of any part, as appended too |
| StringWrites.PartsJoin | src/string/append.c:316-336 | adjacent parts make one, and the part of all positions is the text |
| StringHeaps.StringHeap.Truncate | src/string/truncate.c:4-22 | the text cut at the position, all other texts unchanged; the rest of an embedded string zeroed |
| StringHeaps.StringHeap.Erase | src/string/erase.c:4-34 | the characters between two positions removed, all other texts unchanged; the rest of an embedded string zeroed |
| StringWrites.ErasedIsRest | src/string/erase.c:4-34 | what is left is the part before and the part after |
| StringHeaps.StringHeap.CharAt | include/pw_string.h:157-161 | the character, and 0 beyond the end |
| StringWrites.ThroughExactly | src/string/create.c:130-136 | after writing into a shared block all other texts are the same if and only if each already showed the characters written |
| StringWrites.ClearUnseen | src/string/create.c:130-136 | which holds when no other holder is longer than the string was |
| StringRuns.Run | src/string/create.c:72-186 | for every run of creation, cloning, destruction, copying, erasing, truncation, substrings and appends to unshared strings the values behave as independent texts and counts are the numbers of holders |
| StringRuns.SharedAppendShows | src/string/create.c:133-135 | a clone whose second character is overwritten by appending to the other holder |
| Splitting.NeedleExact | src/string/strchr2.c:7-10 | in strings of one byte per character the code point is cut to a byte: the first occurrence of what is looked for is that of the code point, in every text of the width, if and only if the width is above 1 or the code point below 256 |
| Splitting.StrChr2 | src/string/strchr2.c:7-60 | the first occurrence of that from a position, and the least width of what was scanned |
| Splitting.StrRChr2 | src/string/strrchr2.c:8-63 | the last occurrence of it before a position, and the least width of what was scanned |
| Splitting.SplitChr | src/string/split_chr.c:4-57 | the pieces from the left for any limit, each asked for at the least width that it needs, or it and the splitter next to it, except the one left over at the limit |
| Splitting.RSplitChr | src/string/rsplit_chr.c:4-59 | the pieces from the right, in order and with widths likewise |
| Splitting.SplitJoins | src/string/split_chr.c:26-55 | joining the pieces gives the text, or the text less one final splitter exactly when it ends in one and has no more of them than the limit |
| Splitting.RSplitJoins | src/string/rsplit_chr.c:26-57 | the same from the right, with a leading splitter |
| Splitting.SplitPieces | src/string/split_chr.c:26-55 | at most limit + 1 pieces, and no splitter in any but the one left over |
| Splitting.RSplitPieces | src/string/rsplit_chr.c:26-57 | the same from the right |
| Splitting.PieceCount | src/string/split_chr.c:26-55 | exactly one piece more than splitters, one fewer if the text ends in one, capped at limit + 1 |
| Splitting.RPieceCount | src/string/rsplit_chr.c:26-57 | the same from the right, with a leading splitter |
| Splitting.UnlimitedPieces | src/string/split_chr.c:19-21 | without a limit no piece holds the splitter |
| Splitting.JoinOfStrings | src/pw_array.c:614-691 | items that are all strings are joined with the separator between each two |
| Splitting.JoinSkips | src/pw_array.c:614-691 | any items are joined as their strings are, behind a separator if the first item is no string |
| Splitting.RoomSuffices | src/pw_array.c:643-670 | the 32-bit length computed first is never less than the joined length unless the sum wraps; for strings only it suffices, and is exact, if and only if the sum does not wrap |
| Splitting.ArrayJoin | src/pw_array.c:614-691 | the joined text; an item that is not a string is skipped, yet every later string comes after a separator, even if nothing stands before it |
| Splitting.SplitThenJoin | src/string/split_chr.c:4-57 | splitting and joining by the same character gives back all but the dropped splitter, in both directions |
| Utf8.RoundTripForward | src/string/utf.c:4-60 | decoding the encoding of a text gives it back exactly when all its code points are below 2^21, and else with the upper bits lost |
| Utf8.RoundTripBackward | src/string/utf.c:62-135 | decoding from the end gives the reverse exactly when all code points are below 2^21 |
| Utf8.EncodingIsShortest | src/string/utf.c:204-232 | by the patterns of section 3 of RFC 3629 the encoding of a code point below 2^21 is the shortest sequence for it, and the only one of its length |
| Utf8.DecodesExactly | src/string/utf.c:4-60 | a code point other than 0 is read exactly from a byte sequence for it, overlong or not |
| Utf8.DecodesBufferExactly | src/string/utf.c:137-202 | so in a bounded buffer |
| Utf8.DecodesBackExactly | src/string/utf.c:62-135 | and from the end, where at most three bytes are gone back over and bytes in excess are let pass |
| Utf8.OverlongZero | src/string/utf.c:4-60 | a longer sequence for 0 is malformed |
| Utf8.DecodesInBuffer | src/string/utf.c:137-202 | the bounded decoder reads a character that is all there |
| Utf8.WaitsForTheRest | src/string/utf.c:137-202 | and consumes nothing of one that is cut off |
| Utf8Text.Char32ToUtf8 | src/string/utf.c:204-232 | writes exactly the encoding of the code point |
| Utf8Text.StrlenInUtf8 | src/string/utf.c:416-438 | the encoded length, in 32 bits |
| Utf8Text.StringToUtf8 | src/string/cstring.c:14-63 | the buffer of the computed length is filled with the encoding and its terminating zero, to the last byte |
| Utf8Text.NarrowCopyIsUtf8 | src/string/cstring.c:6-12 | the copy made of 1-byte strings is their UTF-8 exactly when every character is below 0x80 |
| Utf8Text.Utf8Strlen3 | src/string/utf.c:261-275 | length, width and end of the text that zero-terminated memory encodes |
| FileWriting.WriteFile.FileWrite | src/pw_file.c:271-295 | exactly the first `written` bytes reach the file, in every outcome; all of them unless a call failed |
| FileWriting.WriteFile.Flush | src/pw_file.c:387-413 | file content followed by the pending bytes is the same before and after, also when it fails half-way |
| FileWriting.WriteFile.Write | src/pw_file.c:543-601 | file content followed by the pending bytes grows by exactly the first `bytes_written` bytes, in every outcome; it succeeds exactly when no call fails, and then what is pending is what whole buffers leave over |
| FileWriting.WriteFile.WriteDirect | src/pw_file.c:569-590 | the same for whole buffers written past the empty buffer |
| FileWriting.WriteFile.WriteAll | src/pw_file.c:543-601 | over any run of writes the accepted bytes are the accepted prefixes in order |
| FileWriting.SameFileHoweverCut | src/pw_file.c:387-601 | however the bytes are cut into writes the file is the same, and all is written if no call fails |
| FileReading.ReadFile.Refill | src/pw_file.c:652-676 | the next chunk, with nothing of the unread content lost; nothing changes when the read fails |
| FileReading.ReadFile.FileRead | src/pw_file.c:244-261 | the next bytes, through any interruptions; it fails exactly when a call does |
| FileReading.ReadFile.Scan | src/pw_file.c:684-715 | the characters up to the next line feed or the end of the chunk; what is left is whole or a character cut off |
| FileReading.ReadFile.FinishPartial | src/pw_file.c:652-690 | a character cut off by a chunk boundary is completed from the next chunk |
| FileReading.ReadFile.ReadLine | src/pw_file.c:628-732 | the next line of the decoded content, or the pushed back one, wherever chunks cut characters; the end exactly when nothing ended by a line feed is left and the content does not end raggedly; when a read fails, the characters taken so far are gone and the rest, also of a half read character, comes next |
| FileReading.ReadFile.UnreadLine | src/pw_file.c:744-755 | the line comes again first, once |
| FileReading.ReadFile.Read | src/pw_file.c:498-530 | bytes read are the next unread ones, none lost or repeated, also when a read fails; as many as asked for and left, in the file without a buffer, or in the buffer, filled again if it was used up; refused while lines are being read |
| FileReading.ReadToEnd | src/pw_file.c:498-530 | reading on in pieces of any sizes until no more comes gives the whole unread content, if no read fails |
| FileReading.ReadAllLines | src/pw_file.c:628-732 | if no read fails, all lines of the content, or all but an unended last one when the content fills the last buffer |
| FileReading.ReadThrough | src/pw_file.c:628-732 | reading on after every failure, the delivered lines and the lost characters are the content in order, and the lines are those of the content if and only if nothing is lost |
| TextLines.AllLinesFed | src/pw_file.c:628-732 | that leaves nothing out exactly when the text is empty or ends with a line feed |
| TextLines.JoinLines | src/pw_string_io.c:133-163 | the lines put together are the text |
| TextLines.LinesArePieces | src/pw_string_io.c:133-163 | each line ends at its only line feed, or is the last one |
| StringLines.StringIO.ReadLine | src/pw_string_io.c:133-163 | the next line of the string, or the pushed back one |
| StringLines.SameLines | src/pw_file.c:628-732 | if no read fails, file and string of the same text give the same lines if and only if the text is empty, ends with a line feed, or does not fill the last buffer |
| StringLines.LastLineLost | src/pw_file.c:628-732 | a text without a line feed that fills the last of the buffers, whatever their size: read from the string it is one line, read from the file there is none |
| StringLines.PageOfLetters | src/pw_file.c:320 | such a text for the least buffer the code uses, one page |
| Parsing.ParseUnsigned | src/pw_parse.c:16-102 | for radix 2, 8, 10 and 16 it succeeds exactly when the run starts with a digit, has no doubled or final separator and a value below 2^64; value and end are the run's; each error says which of these failed |
| Parsing.OverflowTests | src/pw_parse.c:71-86 | the two 64-bit tests made before adding a digit are true exactly when the sum would not fit |
| Parsing.ParseMagnitude | src/pw_parse.c:119-259 | an integer exactly where the text has one, signed if it fits, else unsigned; a floating point number exactly where the text has one, with its extent; too many digits are an overflow |
| Parsing.ParseNumber | src/pw_parse.c:261-274 | the same after spaces and a sign |
| Numerals.ParseWritten | src/pw_parse.c:119-274 | in radix 2, 8, 10 and 16, with the prefix and the digits in either case, separators, sign, white space before and behind: the number, negated after a minus, or the overflow |
| Numerals.ParseDecimal | src/pw_parse.c:171-212 | decimal digits with a point or an exponent or both are a floating point number that reaches to the end |
| Numerals.RefusesOther | src/pw_parse.c:205-212 | any other character behind decimal digits is refused |
| Parsing.ValueOfDigits | src/pw_to_json.c:219-225 | the digits of a number have its value |
| Parsing.PrintedIsInteger | src/pw_to_json.c:219-225 | the decimal text of every integer is an integer for the parser |
| Parsing.PrintThenParse | src/pw_parse.c:119-274 | the integer again, Signed up to 2^63-1 and Unsigned above; the text of -2^63 alone is refused |
| Parsing.ParseFraction | src/pw_parse.c:276-318 | up to nine digits, as nanoseconds |
| Parsing.ParseTimestamp | src/pw_parse.c:476-521 | succeeds exactly on seconds with an optional fraction of at most nine digits, with their values |
| Parsing.TimestampRoundTrip | src/pw_types.c:645-651 | the printed timestamp parses to itself if and only if it has fewer than 10^9 nanoseconds |
| Numerals.FractionPadded | src/pw_parse.c:302-317 | a fraction is as many nanoseconds as its digits followed by zeros up to nine |
| Numerals.ParseSeconds | src/pw_parse.c:476-521 | seconds with a fraction of any digits and whatever follows: the two values, or refused for a tenth digit or for what may not follow |
| JsonText.StripPrint | src/pw_to_json.c:95-183 | deleting whitespace outside strings from the text at any indent gives the text at indent 0, at every depth |
| JsonText.StripQuoted | src/pw_to_json.c:42-93 | escaping hides every quote of a string, so nothing inside it counts as outside |
| JsonLayout.PrintIsLaidOut | src/pw_to_json.c:95-183 | by a machine that counts open brackets: lines break behind the bracket, behind commas and before the closing bracket of exactly the containers with a comma, none at indent 0, each followed by the indent times the number of such containers open, one fewer before a closing bracket; one blank follows each colon exactly if the indent is not 0; no other white space |
| JsonReader.ReadEscapedText | src/pw_to_json.c:42-93 | an escaped string reads back exactly when its control characters are \b \f \n \r \t, or always if the reader takes the printer's own escape too |
| JsonReader.EscapedShortest | src/pw_to_json.c:42-93 | JSON has no shorter text for the character, and one that needs no escape stands for itself |
| JsonReader.ReadPrint | src/pw_to_json.c:95-240 | any printed value, whatever follows it, reads back as that value and leaves what follows, or is no JSON; which one is decided by its control characters; with the printer's own escape taken too it always reads back |
| JsonReader.RoundTrip | src/pw_to_json.c:199-269 | the same for whole texts at any indent, in either grammar |
| JsonReader.Unambiguous | src/pw_to_json.c:199-269 | any two printable values that print alike, at whatever indents, are the same |
| JsonReader.ControlCharacterLost | src/pw_to_json.c:78-83 | the string of one character 1 prints as no JSON text |
| JsonWriting.JsonWriter.EscapeString | src/pw_to_json.c:42-93 | the stretches flushed between escapes make up the escaped string |
| JsonWriting.JsonWriter.ArrayToJson | src/pw_to_json.c:95-132 | appends the array's text; fails exactly when an item has no text |
| JsonWriting.JsonWriter.MapToJson | src/pw_to_json.c:136-183 | appends the map's text; fails exactly when a value has no text |
| JsonWriting.JsonWriter.ValueToJson | src/pw_to_json.c:199-240 | appends the value's text at its depth; fails exactly when some part has none |
| JsonWriting.ToJson | src/pw_to_json.c:242-269 | the printed text reads back as the value (or is no JSON, see above), is laid out at its indent, and stripped of whitespace is the indent-0 text |
| MethodTables.PutAllMeans | src/pw_interfaces.c:179-236 | what is supplied overrides method by method where the ancestor has the interface and stands as it is where not |
| MethodTables.SubtypeRight | src/pw_interfaces.c:179-236 | a subtype's tables are complete and give, for each method, the one of the nearest type on the chain that supplies it |
| MethodTables.AddedRight | src/pw_interfaces.c:149-177 | so do the tables of a type added on its own |
| MethodTables.OlderRight | src/pw_types.c:823-876 | registering more types does not change what older chains give |
| Registries.MakeTable | src/pw_interfaces.c:128-147 | a new table with the methods, refused exactly when one is missing |
| Registries.Registry.RegisterInterface | src/pw_interfaces.c:57-71 | interfaces are numbered in order and older tables stay right |
| Registries.Registry.AddType | src/pw_types.c:834-849 | accepted exactly when all supplied tables are complete and known; no existing type's table changes |
| Registries.Registry.Subtype | src/pw_types.c:851-876 | accepted exactly when new interfaces are complete; no existing type's table changes, not even those it shares |
| Registries.Registry.GetMethod | include/pw_interfaces.h:162-186 | a method is found exactly when some type on the chain has the interface, and it is the nearest one given |

## Left out

- StringHeaps.StringHeap.Expand: strings whose block size would not fit 32 bits are required not to occur; the error returned above the limit table is not modelled (`StringSizes` says what the arithmetic does there).
- StringHeaps.StringHeap.AppendChars: a source of 4-byte characters into a narrower string is required to hold code points below 2^24; above that the code takes the UTF-8 routine for 4-byte memory (src/string/append.c:105).
- StringHeaps.StringHeap.Append: appending a string to itself is left out, and the source is read as it was before the append, which differs from the code only where the two share a block in which the source is longer.
- StringHeaps.StringHeap.Recopy: the old block is released before the copy is filled, not after, from characters read before; the outcome is the same.
- StringHeaps.StringHeap.Destroy: block content is a sequence kept in a map of addresses, so two values can share a block but nothing else can alias it; what an allocator returns is a fresh address and unknown content.
- StringRuns.Run: stops before an append to a string that shares its block, and asks that texts fit at four bytes per character.
- StringWrites.StrCopy: works on sequences of bytes, not through pointers.
- ValueKeys.SubstrEq: 3 against 4 is left to SubstrEq34, and UTF-8 operands are left out.
- ValueKeys.ValuesAreLawful: keys of both 3 and 4 bytes per character together, for which the comparison is wrong (ValueKeys.ThreeFourWrong).
- ValueKeys.Equal: strings of 3 against 4 bytes per character; floats, pointers, dates, arrays and maps as operands; both union words are those of a little-endian host.
- HashTables.HashTable.SetItem: slot widths with a native load or store follow the host's byte order, which is little-endian here; the counter of used items, which nothing reads, is not kept.
- PwMaps.PwMap.Update: parent tracking of compound values, the type and iteration checks, and allocator failures; where the array's size wraps, the method ends with the array without cells, before the code enters the pair in it.
- MapRuns.Run: stops before a deletion that is not safe and before an insertion that releases a reference of a pair; what the code leaves behind then is stated by PwMaps.PwMap.Delete, PwMaps.PwMap.Update and the lemmas of `Deletions`, for that operation and the next update.
- PwMaps.PwMap.Destroy: references are counted per block of a key or value; what a block of the last reference releases in its turn, and the counts others hold, are left out.
- Splitting.SplitChr: pieces are texts with the width asked for; how a piece of that width is filled is StringHeaps.StringHeap.FillFrom.
- Splitting.ArrayJoin: items are texts; widths and appending are as in StringHeaps.StringHeap.Append.
- FileReading.ReadFile.ReadLine: content is well-formed UTF-8 of a regular file, on which only the last reads are short; a failing append to the line is left out.
- FileReading.ReadFile.StartReadLines: after a read that failed inside a character it drops the bytes of that character; the lines read then are not modelled.
- JsonWriting.JsonWriter.ValueToJson: strings and keys of one byte per character only, because the Append interface of strings takes byte counts for lengths (src/string/pw_string_type.c:169); floats count as values without text; indent times depth is not cut to 32 bits.
- JsonReader.ReadPrint: the reader takes integers only and gives one character for each \u escape.
- Parsing.ParseMagnitude: the value of a float (`strtod`); character classes are parameters.
- Registries.Registry.AddType: a panic is a refusal that leaves the registry unchanged, instead of the end of the program; the list of a type's interfaces is a value, only the method tables are shared memory; an interface is supplied once per type.
- Arrays (`src/pw_array.c` but for joining and growth): append, insert, delete and slices would add easy members.
- Sockets, address parsing, dates and zone offsets, the array iterator, status text, dump functions, arguments and environment.
- Parent tracking and cycles in `src/pw_compound.c`: a third parent overwrites the two embedded ones, so the property intended there does not hold.
- Searching for substrings, case conversion, trimming, skipping and the other splitting functions of `src/string/`.
- The mixing arithmetic of the hash; allocator failures; the file Append methods.

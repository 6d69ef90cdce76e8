# Heatmap converter of async-profiler, modelled in Dafny

This project models the core of async-profiler's heatmap output. A profile of
timed samples is written by a Java converter as a self-contained HTML page.
JavaScript embedded in that page decodes the data again and draws it.
The model covers both sides.

**Writers, in Java.**
- `Heatmap.java`: the LZ78-compressed stack table, the run-length-encoded
  sample table, the method and symbol tables, and the frame tree.
- `SimpleHeatmap.java`: interning and canonicalisation of stack traces
  (`evaluate`), and the synonym table written by `printHeatmap`.
- `IndexInt` and `IndexLong`: the open-addressing dictionaries that give
  every distinct key a dense id.
- The variable-length symbol encodings the writers share.

**Readers, in JavaScript.**
- `heatmap.js` and `simple_heatmap.js`: the ring `Queue`, the
  `StackDecodingContext`, `collectFramesForZoom`, `readArray` and
  `methodInfo`.
- `flame.js`: `findFrame`, `samples`, `pct`, `mark` and `totalMarked` over
  the call tree.

Each encoder has a decoder or an independent reference definition as its
partner. A lemma connects the two for all inputs, usually as a round trip.

## Modules

| module | file | models |
|---|---|---|
| Common | common.dfy | Result and Option, the exceptions, powers of two, Java and JavaScript integer conversions |
| JsBits | js_bits.dfy | the JavaScript 32-bit integer operators: or, and, shifts, ToInt32 |
| Symbols | symbols.dfy | the printable-symbol layouts: varints, tiny varints, 30- and 36-bit fixed words |
| DataBuffer | data_buffer.dfy | the viewer's `DataBuffer`: reading the symbols back |
| HtmlOut | html_out.dfy | `SimpleHeatmap.HtmlOut`, including the packing of 3-bit sub-symbols |
| SampleCollection | sample_collection.dfy | `Heatmap.SampleCollection`, a rope of 64 KiB chunks, and its writers |
| DenseIndex | dense_index.dfy | the abstract behaviour of `IndexInt`/`IndexLong`: ids in first-seen order |
| IndexTable | index_table.dfy | the open-addressing arrays of `IndexInt`/`IndexLong`, with growth and `shift` |
| Interning | interning.dfy | `Index<T>` of `SimpleHeatmap`: ids in first-seen order |
| Rle | rle.dfy | the zero-run encoding of stack records in `Heatmap.stacks` and its reader |
| LzChunks | lz_chunk.dfy | `LzChunk`, the linked list of compressed stack chunks |
| Lz78 | lz78.dfy | the LZ78 coding of the global frame tree: writer and reader |
| LzArrays | lz_array.dfy | `Lz78Data.readArray` and `decodeGlobalStacks` of simple_heatmap.js |
| GlobalTree | global_tree.dfy | the frame tree: `Frame.child`, the pre-order walk and its decoder |
| StackTable | stack_table.dfy | the stack table `Heatmap.stacks()` writes and `integralTraces` reads |
| MethodTable | method_table.dfy | method interning, `dumpMethods` with its string pool, `frameType` and `frameTitle` |
| ClassNames | class_names.dfy | the conversion of JVM class names |
| SimpleMethods | simple_methods.dfy | the method records of the simple format, and `methodInfo` |
| Evaluation | evaluate.dfy | `SimpleHeatmap.evaluate`: buckets, frames and the stack cache |
| EvaluateFacts, EvaluateProofs | evaluate_facts.dfy, evaluate_proofs.dfy | properties of `evaluate` |
| Synonyms, TrieProofs, SynonymsProofs | synonyms.dfy, trie_proofs.dfy, synonyms_proofs.dfy | the synonym trie, its ranking, and `printHeatmap` |
| SectionProofs | section_proofs.dfy | when `printHeatmap` fails and with which exception, and the layout of its section |
| StackContext | stack_context.dfy | `StackDecodingContext` |
| RingQueue | queue.dfy | the ring-buffer `Queue` of the viewer |
| Zoom | zoom.dfy | `collectFramesForZoom` |
| CallTree | call_tree.dfy | the viewer's call tree (`Frame`, `Root` in heatmap.js) |
| Flame | flame.dfy | `findFrame`, `samples`, `pct`, `mark`, `totalMarked` |
| Template | template.dfy | `Heatmap.dump`: substitution of `${name}` and `${resource:name}` in the page template |

## Conventions

- **Text.** Encoded text is a sequence of UTF-16 code units, as `int`.
  This matches Java's `(char)` casts and JavaScript's `charCodeAt`. Names are
  taken as code units too; UTF-8 decoding is not modelled.
- **JavaScript integers.** Bit operators are written arithmetically in JsBits:
  the result is reduced modulo 2^32 and reinterpreted as signed where
  JavaScript does so. Dafny's integers are unbounded, so every wrap-around is
  explicit.
- **Hashing.** The hash functions of `IndexInt`/`IndexLong` are a parameter.
  Their results matter only through `h & mask`, which equals `h mod capacity`
  for a power-of-two capacity.
- **Errors.** An exception the source raises is a `Failure` of a `Result`
  (for example, a `NullPointerException` for key 0 in `IndexInt`).
  A missing value is `None`. Reading past the end of the text gives
  `charCodeAt`'s `NaN`. That is modelled as None, and every bit operator maps
  it to 0.
- **Class names.** `evaluate` converts class symbols with `convertClassName`
  as written (ClassNames.Convert), including the misreading of plain names
  that start with a primitive letter listed under Findings. The corrected
  conversion, ClassNames.ConvertFixed, is stated on its own.

## Model

| member | source | states |
|---|---|---|
| DenseIndex.Index | src/converter/one/jfr/IndexInt.java:34-53 | key 0 fails with NullPointerException; any other key gets an id that is its 1-based position in the new first-seen order, which extends the old one by at most that key, and a key already stored leaves the order unchanged |
| DenseIndex.IndexAppends | src/converter/one/jfr/IndexLong.java:34-53 | a new nonzero key is appended and gets id size+1; a stored key returns the id it was first given, with no change of state |
| DenseIndex.IndexIdempotent | src/converter/one/jfr/IndexInt.java:40-43 | indexing the same key a second time returns the same id and the same state |
| DenseIndex.IdsDense | src/converter/one/jfr/IndexInt.java:46-47 | the stored ids are exactly 1..size, and id v belongs to the key at position v-1 |
| DenseIndex.IdsInjective | src/converter/one/jfr/IndexLong.java:46-47 | two distinct stored keys never share an id |
| DenseIndex.IdsAppend | src/converter/one/jfr/IndexInt.java:46-47 | storing a new key adds exactly one id, size+1, and keeps every other id |
| DenseIndex.IndexOr | src/converter/one/jfr/IndexInt.java:79-89 | `index(key, notFound)` is the stored key's id, between 1 and size, or notFound for a key not stored |
| DenseIndex.Has | src/converter/one/jfr/IndexInt.java:91-93 | `has(key)` holds exactly when key is stored |
| DenseIndex.Shift | src/converter/one/jfr/IndexInt.java:55-77 | key 0 throws; otherwise the result is the key's old id, or 0 when it is absent, and a present key is removed |
| DenseIndex.RenumberIsRemove | src/converter/one/jfr/IndexInt.java:63-72 | decrementing every id above the removed key's id yields exactly the ids of the order with that key taken out |
| DenseIndex.RemoveShiftsPos | src/converter/one/jfr/IndexInt.java:64-71 | after a removal, keys that came after the removed key move down one place and earlier keys keep theirs |
| DenseIndex.RemoveKeepsWellFormed | src/converter/one/jfr/IndexInt.java:55-77 | removing a key leaves a duplicate-free, zero-free order holding every other key |
| IndexTable.NewValid | src/converter/one/jfr/IndexInt.java:23-32 | a new table has 16 empty slots and represents the empty order |
| IndexTable.ProbeReaches | src/converter/one/jfr/IndexInt.java:38-44 | the probe sequence `(hash & mask) + d`, wrapping at the capacity, visits every slot within one lap |
| IndexTable.Find | src/converter/one/jfr/IndexInt.java:38-45 | the probe loop terminates whenever some slot is empty, and stops at the first slot on the key's chain that holds the key or is empty |
| IndexTable.FindMeaning | src/converter/one/jfr/IndexInt.java:40-45 | the slot where probing stops is occupied exactly when the key is stored, and then it holds the key's id |
| IndexTable.InsertRepresents | src/converter/one/jfr/IndexInt.java:46-47 | writing a new key with id size+1 into the empty slot where probing stopped represents the order extended by that key |
| IndexTable.Resize | src/converter/one/jfr/IndexInt.java:117-136 | rehashing into newCapacity slots keeps every key→id pair, keeps keys in distinct slots and keeps the count of occupied slots |
| IndexTable.Doubled | src/converter/one/jfr/IndexInt.java:49-51 | doubling a power-of-two capacity below 2^30 stays a power of two, does not overflow a Java int, and restores `size*2 <= keys.length` |
| IndexTable.Index | src/converter/one/jfr/IndexInt.java:34-53 | the array `index(key)` agrees with the abstract first-seen order, throws only for key 0 (or when the table cannot double past 2^30), keeps the representation valid and never shrinks the capacity |
| IndexTable.IndexOr | src/converter/one/jfr/IndexInt.java:79-89 | the array `index(key, notFound)` equals the abstract one and changes nothing |
| IndexTable.Has | src/converter/one/jfr/IndexInt.java:91-93 | the array `has(key)` holds exactly when key is stored |
| IndexTable.OrderedKeys | src/converter/one/jfr/IndexLong.java:55-63 | `orderedKeys(out)` writes the keys in first-seen order into `out[0..size)`, leaves the rest of out unchanged, and fails with an index error exactly when out is shorter than size |
| IndexTable.ShiftMeaning | src/converter/one/jfr/IndexInt.java:61-72 | clearing the key's slot and decrementing the larger ids gives the abstract order with the key removed |
| IndexTable.Shift | src/converter/one/jfr/IndexInt.java:55-77 | key 0 throws; an absent key returns 0 and leaves the table alone; a present key returns its id and removes it from the abstract order |
| IndexTable.HighestOneBit | src/converter/one/jfr/IndexInt.java:107 | `Integer.highestOneBit`: 0 for 0, the int minimum for a negative argument, otherwise the largest power of two not above it |
| IndexTable.WrappedQuadruple | src/converter/one/jfr/IndexLong.java:65-68 | `count * 4 - 1` in 32-bit arithmetic is `2*(count*2) - 1` while `count*2 <= 2^30`, and negative above that |
| IndexTable.Preallocate | src/converter/one/jfr/IndexLong.java:65-70 | `preallocate(count)` returns count, never shrinks the table, keeps it valid, makes room for 2*count keys when count <= 2^29, and fails with NegativeArraySizeException for 2^29 < count < 2^30 |
| Symbols.EncodeVarValue | src/converter/SimpleHeatmap.java:634-638 | the 5-bit chunks of a varint, low first, reassemble to the value written |
| Symbols.EncodeVarShape | src/converter/Heatmap.java:448-452 | every varint symbol is printable (63..126); all but the last carry the 0x20 continuation bit and the last is below 0x20 |
| Symbols.EncodeVarLength | src/converter/SimpleHeatmap.java:634-637 | a value below 2^(5k) takes at most max(k, 1) symbols |
| Symbols.EncodeFixedValue | src/converter/Heatmap.java:430-442 | n fixed 6-bit symbols keep exactly the low 6n bits of the value |
| Symbols.EncodeFixedShape | src/converter/SimpleHeatmap.java:646-649 | every symbol of a fixed word is printable |
| Symbols.EncodeFixedAt | src/converter/SimpleHeatmap.java:646-649 | the i-th symbol of a fixed word is the i-th 6-bit digit of the value, low to high |
| Symbols.TinySubSymbolsValue | src/converter/SimpleHeatmap.java:622-626 | the 2-bit payloads of the tiny sub-symbols, low first, reassemble to the value |
| Symbols.TinySubSymbolsShape | src/converter/SimpleHeatmap.java:622-626 | every tiny sub-symbol is 3 bits; all but the last carry the 4 flag (the low two bits of v with bit 2 set) and the last is v itself, below 4 |
| Symbols.EncodeVarsAppend | src/converter/Heatmap.java:444-453 | varints written back to back concatenate |
| HtmlOut.Start | src/converter/SimpleHeatmap.java:588-594 | a new writer has written nothing and holds no pending sub-symbol |
| HtmlOut.WriteByteAppends | src/converter/SimpleHeatmap.java:601-606 | `writeByte(v)` first flushes a pending sub-symbol a as the character a * 8 + 63, then appends v + 63 |
| HtmlOut.WriteVar | src/converter/SimpleHeatmap.java:630-639 | `writeVar` throws IllegalArgumentException exactly for negative v; otherwise it appends the flush followed by the varint symbols of v |
| HtmlOut.Write36 | src/converter/SimpleHeatmap.java:642-650 | `write36` throws exactly when a bit at or above 36 is set (including every negative value); otherwise it appends the flush and exactly six 6-bit symbols, low to high |
| HtmlOut.TinyLoopWritesSubSymbols | src/converter/SimpleHeatmap.java:622-626 | the tiny-varint loop hands exactly the tiny sub-symbols of v to `writeSubByte`, in order |
| HtmlOut.WriteTinyVar | src/converter/SimpleHeatmap.java:618-627 | `writeTinyVar` throws exactly for negative v; otherwise it writes the tiny sub-symbols of v |
| HtmlOut.WriteSubBytesPacks | src/converter/SimpleHeatmap.java:608-615 | writing sub-symbols packs them two per character as a * 8 + b + 63, counting the one already pending, and leaves an odd one pending |
| HtmlOut.UnpackPackPairs | src/converter/SimpleHeatmap.java:612 | reading a packed character as its high and low 3 bits recovers both sub-symbols |
| HtmlOut.Write | src/converter/SimpleHeatmap.java:653-656 | `write(data)` appends data and `pos` grows by its length |
| SampleCollection.Empty | src/converter/Heatmap.java:422-424 | a new collection has no text and `offset()` is 0 |
| SampleCollection.OffsetIsLength | src/converter/Heatmap.java:466-468 | `offset()` is the number of bytes written, across 64 KiB chunk boundaries |
| SampleCollection.NextByteAppends | src/converter/Heatmap.java:505-512 | `nextByte` appends one byte, starting a new chunk when the current one is full |
| SampleCollection.Put6bitAppends | src/converter/Heatmap.java:426-428 | `put6bit(v)` appends the printable byte v + 63 |
| SampleCollection.Put30bit | src/converter/Heatmap.java:430-435 | `put30bit` appends exactly five symbols, low to high, that keep only the low 30 bits of the unsigned value |
| SampleCollection.Put36bit | src/converter/Heatmap.java:437-442 | `put36bit` appends exactly six symbols, low to high, that keep only the low 36 bits of the unsigned value |
| SampleCollection.PutInt | src/converter/Heatmap.java:444-453 | `putInt(int)` throws exactly for negative v; otherwise it appends the varint of v, whose chunks reassemble to v |
| SampleCollection.PutLong | src/converter/Heatmap.java:455-464 | `putInt(long)` throws exactly for negative v; otherwise it appends the varint of v, whose chunks reassemble to v |
| SampleCollection.CharsOfPrintable | src/converter/Heatmap.java:488-495 | `(char) b` of a byte below 128 is that byte, so the symbols survive `toString` unchanged |
| SampleCollection.ConcatLength | src/converter/Heatmap.java:470-482 | the size the static `toString` reserves, the sum of the offsets, is exactly the length of the result |
| SampleCollection.ConcatTwo | src/converter/Heatmap.java:470-496 | the static `toString` of two collections is their texts in order, with length the sum of their offsets |
| DataBuffer.Low5Digit | src/converter/resources/heatmap.js:17 | `b & 0x1F` on a 32-bit value, negative ones included, is its remainder modulo 32 |
| DataBuffer.VarLoopMatchesRef | src/converter/resources/simple_heatmap.js:12-22 | while the accumulated value fits in 31 bits, the `do … while (b >= 0x20)` loop that ORs each symbol's low five bits in at the next shift computes the plain base-32 reading and stops after the first symbol below 0x20 |
| DataBuffer.RefVarReads | src/converter/resources/simple_heatmap.js:59-69 | the plain base-32 reading of a written varint is its value and ends just after its last symbol |
| DataBuffer.NextVarIntAt | src/converter/resources/simple_heatmap.js:59-69 | `varInt(pos)` at a written varint of v < 2^31 returns v and moves past exactly its symbols |
| DataBuffer.NextVarIntRoundTrip | src/converter/resources/heatmap.js:11-21 | `nextVarInt` inverts `putInt`/`writeVar` for every v < 2^31, whatever surrounds the varint |
| DataBuffer.DecodeFromRoundTrip | src/converter/resources/heatmap.js:271-278 | reading varints from a position on while the buffer has more returns the values written there, in order |
| DataBuffer.DecodeEventsRoundTrip | src/converter/resources/heatmap.js:271-278 | `decodeEvents` of varints written back to back (each below 2^31) returns the original sequence |
| DataBuffer.FixedReadLow | src/converter/resources/simple_heatmap.js:35-48 | reading m ≤ 5 symbols of a fixed word, each shifted 6 bits further and OR-ed in, yields the word's low 6m bits |
| DataBuffer.Int30RoundTrip | src/converter/resources/simple_heatmap.js:35-41 | `int30` inverts `put30bit` for v < 2^30 |
| DataBuffer.Int30At | src/converter/resources/heatmap.js:27-33 | `intAt` reads back a word written by `put30bit` for v < 2^30 |
| DataBuffer.Int24Reads | src/converter/resources/simple_heatmap.js:43-48 | `int24` reads the low 24 bits of a fixed word of four or more symbols |
| DataBuffer.TopShift | src/converter/resources/simple_heatmap.js:56 | `s << 30` keeps only the two low bits of the sixth symbol, at bits 30 and 31 |
| DataBuffer.Int36Reads | src/converter/resources/simple_heatmap.js:50-57 | `int36` of a word written by `write36` is the signed 32-bit reading of its low 32 bits: bits above 31 are lost |
| DataBuffer.Int36RoundTrip | src/converter/resources/simple_heatmap.js:50-57 | so `int36` equals the written value exactly when that value is below 2^31 |
| JsBits.MaskIsRemainder | src/converter/resources/simple_heatmap.js:497-498 | `a & (2^k - 1)` on a 32-bit value is a mod 2^k |
| JsBits.BitOrDisjoint | src/converter/resources/simple_heatmap.js:18 | OR of two non-negative values whose bits do not overlap, below 2^31, is their sum |
| JsBits.ShlSmall | src/converter/resources/simple_heatmap.js:18 | a left shift that stays inside the positive 31-bit range is multiplication by a power of two |
| JsBits.ShlOrSmall | src/converter/SimpleHeatmap.java:612 | packing two 3-bit values as a shifted left by 3 and OR-ed with b gives a*8 + b |
| Rle.LeadingZerosRun | src/converter/Heatmap.java:383-387 | the zeros counted at the front of a stack are all zeros and the run is maximal |
| Rle.RleLoopRuns | src/converter/Heatmap.java:379-398 | the loop with its `zeroCount` carry writes every nonzero index as itself and every maximal run of n zeros as `0, n` |
| Rle.BrokenStackRecord | src/converter/Heatmap.java:360-367 | a missing stack trace is written as the one-frame record of the broken-stack child, `1, index`, or `1, 0, 1` when that index is 0 |
| Rle.RleRead | src/converter/resources/heatmap.js:358-370 | n successive `RleData.nextVarInt` calls hand out exactly n values |
| Rle.ReadsBackNonZero | src/converter/resources/heatmap.js:363-366 | a nonzero value is returned unchanged and reading goes on after it |
| Rle.ReadsBackZero | src/converter/resources/heatmap.js:359-369 | `0, n` is read back as the whole run of n zeros, and reading goes on after it |
| Rle.ZeroRunReads | src/converter/resources/heatmap.js:359-362 | once `zeroCount` is set to n - 1, the next n reads return zeros and then continue with what follows |
| Rle.RleRoundTrip | src/converter/resources/heatmap.js:351-371 | `RleData` reads the run-length indices of a stack back as the stack, ending exactly after them with no zeros owed, whatever surrounds them |
| Rle.StackRoundTrip | src/converter/Heatmap.java:378-398 | a stack record (length, then run-length indices) reads back as the stack and ends right after the record |
| Rle.RunsBounded | src/converter/Heatmap.java:390-397 | every value written for a stack is at most the larger of its length and its largest index, so the record fits a Java int |
| Rle.RecordDecodes | src/converter/Heatmap.java:378-398 | the varints of a stack record whose values are below 2^31 decode back to the record under `decodeEvents` |
| LzChunks.CopyFlattens | src/converter/resources/heatmap.js:288-310 | the chain `copyWithNext(method, frameSize)` returns holds the source's items followed by method and frameSize |
| LzChunks.CopyLength | src/converter/resources/heatmap.js:300-307 | a new chunk holding just the pair is started exactly when the last chunk already holds 64 or more items; otherwise the last chunk is copied and extended |
| LzChunks.CopyKeepsWf | src/converter/resources/heatmap.js:294-307 | the copy keeps the chain shape and has no empty chunk, so reading it never yields `undefined`; the source, an immutable value, is unchanged |
| Lz78.KeyInjective | src/converter/Heatmap.java:321 | the trie key method shifted left by 32 and OR-ed with the frame's child count of two tokens whose parts fit a Java int is equal only for equal tokens |
| Lz78.HitStep | src/converter/Heatmap.java:329-331 | following an existing trie edge extends the current phrase by exactly the token followed |
| Lz78.MissStep | src/converter/Heatmap.java:323-328 | at a missing edge the writer adds node ++index for the current phrase extended by the token, and restarts at the root |
| Lz78.LzLoopBounded | src/converter/Heatmap.java:323-339 | every number written is below 2^31 while node indices stay below 2^31 |
| Lz78.Open | src/converter/resources/heatmap.js:328-339 | between phrases a read takes the next index; with more data it opens a copy of that phrase extended by the next method and frame size and appends it to the dictionary, otherwise it opens that phrase as it is; an index outside the dictionary fails |
| Lz78.Step | src/converter/resources/heatmap.js:341-347 | inside a phrase a read returns the item at `pos` and steps to the next chunk at the end of this one; it fails on an empty chunk |
| Lz78.Read | src/converter/resources/heatmap.js:327-348 | n successive `Lz78Data.nextVarInt` calls return exactly n items when they succeed |
| Lz78.ChainRead | src/converter/resources/heatmap.js:341-347 | an opened chain with no empty chunk is read back as exactly its items, after which no phrase is open |
| Lz78.MissReads | src/converter/resources/heatmap.js:329-335 | a written triple (node, method, size) makes the reader build the phrase of that node extended by the token and read back exactly its items |
| Lz78.FinalReads | src/converter/resources/heatmap.js:336-338 | the final bare node index is read back as the items of that node's phrase |
| Lz78.LzRoundTrip | src/converter/Heatmap.java:293-344 | `Lz78Data` reads the LZ78 coding of a token stream back as the stream's items, method and child count alternately, whatever precedes it |
| GlobalTree.Child | src/converter/Heatmap.java:611-621 | `Frame.child(key)` returns the existing child unchanged, or appends a new frame whose index is its insertion position; it throws IllegalStateException exactly when `finish` is set and the child is new |
| GlobalTree.ChildKeepsWf | src/converter/Heatmap.java:617-618 | every child's `index` stays its insertion position and keys stay distinct |
| GlobalTree.ChildIdempotent | src/converter/Heatmap.java:612-620 | asking twice for the same child creates it at most once |
| GlobalTree.InsertPath | src/converter/Heatmap.java:594-597 | inserting a stack's path never fails while `finish` is unset and keeps the tree well formed |
| GlobalTree.InsertThenFollow | src/converter/Heatmap.java:380-383 | after a path is inserted, following it from the root succeeds |
| GlobalTree.InsertKeepsFollow | src/converter/Heatmap.java:581-599 | inserting further paths never changes the child positions along a path already in the tree |
| GlobalTree.Walk | src/converter/Heatmap.java:318-338 | the token stream of a subtree starts with its own (method, child count) token |
| GlobalTree.StackWalkIsWalk | src/converter/Heatmap.java:318-338 | the `ArrayDeque` loop emits the tokens of the subtrees on its stack, top first, each in pre-order with the last inserted child first |
| GlobalTree.RootWalk | src/converter/Heatmap.java:313-338 | started from the root alone, the loop emits the root's pre-order |
| GlobalTree.GlobalStacksValues | src/converter/Heatmap.java:293-344 | the values `globalStacks` writes start with 1, then 0 for a missing root or 1 followed by the LZ78 coding of the tree's tokens |
| GlobalTree.GlobalStacksChars | src/converter/Heatmap.java:293-344 | the written string is the varints of those values and decodes back to them |
| GlobalTree.AppendAllFills | src/converter/resources/heatmap.js:71-73 | `append` fills the children array from the last slot down, leaving the other slots alone |
| GlobalTree.AppendAllReverses | src/converter/resources/heatmap.js:65-73 | after `childrenCount` appends every slot is set, and the children read in order are the appended frames reversed |
| GlobalTree.ParseFrame | src/converter/resources/heatmap.js:382-399 | a successful parse of one frame consumes at least its own two values and stays inside the input |
| GlobalTree.ParseKids | src/converter/resources/heatmap.js:396-398 | parsing n frames in a row yields exactly n frames |
| GlobalTree.ParseWalk | src/converter/resources/heatmap.js:373-402 | the decoder parses the tokens of a subtree back into that subtree, consuming exactly its tokens |
| GlobalTree.TreeRoundTrip | src/converter/resources/heatmap.js:373-402 | `decodeGlobalStack` rebuilds the converter's tree from its tokens, with `children[i]` the child inserted i-th |
| GlobalTree.GlobalStacksRoundTrip | src/converter/Heatmap.java:293-344 | the viewer reads the leading 1 and the root flag, its `Lz78Data` reads back the tree's token values, and parsing them rebuilds the tree |
| GlobalTree.Descend | src/converter/resources/heatmap.js:152-154 | walking the decoded tree along child positions yields one frame per position |
| GlobalTree.FollowDescends | src/converter/resources/heatmap.js:152-154 | the child positions written for a path lead the viewer, via `children[index]`, back along the same methods |
| GlobalTree.StackRecovered | src/converter/Heatmap.java:370-398 | for an inserted path the written stack record reads back as its child positions, and those lead through the decoded tree to the path's methods |
| StackTable.Words | src/converter/Heatmap.java:402-413 | the index holds one 30-bit word per global frame (its index offset, 5) and then one per stack, giving that stack's absolute offset |
| StackTable.RecordsFrom | src/converter/Heatmap.java:351-353 | the records from stack j on begin with stack j's record, followed by the records of the later stacks |
| StackTable.StackAtOffset | src/converter/resources/heatmap.js:140-145 | `integralTraces` finds a stack through the index offset and the stack's 30-bit offset, then reads its record |
| StackTable.StackTableRoundTrip | src/converter/resources/heatmap.js:138-154 | every stack of a table shorter than 2^30 symbols is read back by the viewer as exactly the child positions written for it |
| LzArrays.Start | src/converter/resources/simple_heatmap.js:328-334 | a new `Lz78Data` dictionary holds just the empty phrase |
| LzArrays.DictStep | src/converter/resources/simple_heatmap.js:316-321 | `copyWithNext(e)` adds an entry that is an earlier entry plus one element, and the earlier entries are kept |
| LzArrays.ReadLoopGrows | src/converter/resources/simple_heatmap.js:340-351 | the `readArray` loop keeps what it has read, fills at least `size` slots, and only ever extends the dictionary by earlier-entry-plus-one entries |
| LzArrays.ReadArrayGrows | src/converter/resources/simple_heatmap.js:336-353 | a `readArray` result has at least the announced size, and the dictionary after it is still well formed and extends the one before |
| LzArrays.ReadArrays | src/converter/resources/simple_heatmap.js:405-414 | count successive `readArray` calls on one dictionary return count arrays |
| LzArrays.Longest | src/converter/resources/simple_heatmap.js:341-345 | the reference writer's phrase choice is a dictionary entry that starts the rest of the array and is at least as long as any entry before it |
| LzArrays.ArrayRoundTrip | src/converter/resources/simple_heatmap.js:336-353 | `readArray` reads back exactly the array an LZ78 writer emitted (length, then phrase index and next element pairs) and ends with the writer's dictionary |
| LzArrays.ArraysRoundTrip | src/converter/resources/simple_heatmap.js:409-412 | arrays written one after another over a shared dictionary read back in order |
| LzArrays.GlobalStacksRoundTrip | src/converter/resources/simple_heatmap.js:405-414 | `decodeGlobalStacks` recovers every array of the table written |
| MethodTable.GetMethod | src/converter/Heatmap.java:76-87 | `getMethod` returns the index of a method equal to m (same id and location); a method already interned leaves the table alone, and otherwise the table only grows by one entry at its end; the call fails, with IllegalStateException, exactly when the method is new and `finish` is set |
| MethodTable.FindUnique | src/converter/Heatmap.java:77-80 | in a table free of equal methods, the lookup finds the one position holding a method equal to m |
| MethodTable.GetMethodKeepsInterned | src/converter/Heatmap.java:83-85 | interning keeps the table free of equal methods, and a new method's index is the old table size |
| MethodTable.GetMethodIdempotent | src/converter/Heatmap.java:562-565 | asking again for an equal method, whatever its frame type, returns the same index and the same table, because `equals` ignores the type |
| MethodTable.TraceRemap | src/converter/Heatmap.java:89-99 | `getTraceRemap` returns a 0-based id naming the stack trace id; a known id leaves the map unchanged and a new one is appended |
| MethodTable.TraceRemapStable | src/converter/Heatmap.java:93-97 | the remapped ids stay distinct, a new stack trace id gets the next id, and every earlier id keeps its remap |
| MethodTable.RemapTypeClasses | src/converter/Heatmap.java:534-558 | for JFR frame types 0..5, two types get the same colour code exactly when they are equal or both are interpreted or JIT compiled (0 or 1) |
| MethodTable.RemapTypeOnto | src/converter/Heatmap.java:544-557 | every colour code 0..4 comes from some JFR type, and a type outside 0..5 takes the default branch, like type 3 |
| MethodTable.StaleSlotAsWritten | src/converter/Heatmap.java:246-257 | as written, a missing symbol leaves the pool size in `remap`; after another symbol takes that slot, a second lookup of the missing symbol returns the other symbol's text, and the pool no longer matches `remap` |
| MethodTable.InternResolves | src/converter/Heatmap.java:246-257 | the corrected lookup maps every remembered symbol to a slot holding its text, with "" at slot 0 for a missing symbol, and adds a pool entry only for a new symbol |
| MethodTable.MethodRecordOk | src/converter/Heatmap.java:218-263 | with the corrected lookup, each record carries the method's location and remapped type; a missing method ref writes class 0 and name 3; otherwise the class slot holds the class name ("" for a missing class) and the name slot holds the method name |
| MethodTable.DumpMethodsResolve | src/converter/Heatmap.java:214-265 | with the corrected lookup, every record meets that promise against the final pool, which starts with "" |
| MethodTable.DumpLoopAgrees | src/converter/Heatmap.java:218-264 | when every class-name and method-name symbol looked up is present, the loop as written and the corrected loop give the same records, pool and `remap` |
| MethodTable.DumpMethodsAgree | src/converter/Heatmap.java:214-265 | under the same condition, `dumpMethods` as written equals the corrected one |
| MethodTable.DumpMethodsAsWrittenResolve | src/converter/Heatmap.java:214-265 | `dumpMethods` as written, when every symbol looked up is present: the pool starts with "", and every record's slots hold its method's class name and method name, with 0 and 3 for a missing method ref |
| MethodTable.StaleRecordAsWritten | src/converter/Heatmap.java:246-257 | as written, three methods whose name symbols are 1 (missing), 2 (`x`) and 1 again: the third record names slot 1, which holds `x`, so it does not resolve, while the corrected lookup's record does |
| MethodTable.PutRecordAppends | src/converter/Heatmap.java:258-263 | a record appends exactly its 17 symbols: five for the class slot, five for the name slot, six for the location and one for the type |
| MethodTable.PutRecordsAppends | src/converter/Heatmap.java:217-265 | the collection holds the records' symbols in method-index order |
| MethodTable.RecordAt | src/converter/resources/heatmap.js:175 | the table text has 17 symbols per method, and record i starts at symbol 17 i |
| MethodTable.FrameTypeRoundTrip | src/converter/resources/heatmap.js:171-176 | `frameType` reads back the remapped type of every method |
| MethodTable.SlotsRoundTrip | src/converter/resources/heatmap.js:184-185 | the two `intAt` calls of `frameTitle` read back both slots of a record whose slots are below 2^30 |
| MethodTable.TitleRoundTrip | src/converter/resources/heatmap.js:178-188 | end to end with the corrected lookup, for a method with a method ref and a pool of at most 2^30 strings, the title is the class name, then ".", then the method name |
| MethodTable.TitleRoundTripAsWritten | src/converter/resources/heatmap.js:178-188 | the same end to end for `dumpMethods` as written, when every symbol looked up is present |
| Template.IndexOf | src/converter/Heatmap.java:166 | `indexOf(p, from)` is -1 exactly when p does not occur at or after from; otherwise it is the first position at or after from where p occurs |
| Template.Placeholder | src/converter/Heatmap.java:166-185 | one `${name}` placeholder expands to the text before it, then the name's value ("null" when there is none), then whatever the rest expands to |
| Template.PartsExpand | src/converter/Heatmap.java:165-186 | from any position, the loop expands a run of plain text and placeholders to the text with every placeholder replaced by its value |
| Template.PageRoundTrip | src/converter/Heatmap.java:164-187 | a template of plain text and variable placeholders expands to the page with each value filled in, "null" for a missing one |
| Template.Unclosed | src/converter/Heatmap.java:173-174 | a "${" with no "}" after it fails with an out-of-bounds substring |
| Template.MissingResource | src/converter/Heatmap.java:175-176 | a `${resource:name}` placeholder naming no resource fails with IllegalStateException, whatever follows it |
| Template.NoResource | src/converter/Heatmap.java:268-283 | `getResource` of a missing resource throws IllegalStateException |
| ClassNames.Depth | src/converter/SimpleHeatmap.java:202-205 | the bracket loop stops at the first character that is not `[`, and runs off the end exactly when every remaining character is `[` |
| ClassNames.DepthOfDescriptor | src/converter/SimpleHeatmap.java:202-205 | for d brackets followed by an element descriptor, the loop stops at d |
| ClassNames.Layers | src/converter/SimpleHeatmap.java:198-212 | a descriptor is its dimensions' brackets then its element's descriptor, and the Java name is the element's name then one "[]" per dimension |
| ClassNames.ElementName | src/converter/SimpleHeatmap.java:214-236 | `toJavaClassName` at the element's first character gives the element's Java name: a primitive keyword, or `Lname;` with slashes turned into dots |
| ClassNames.ArrayNames | src/converter/SimpleHeatmap.java:198-212 | `convertClassName` gets every array class right |
| ClassNames.ClassNames | src/converter/SimpleHeatmap.java:198-236 | a plain class whose name starts with neither `[`, `L` nor a primitive letter converts to its name with slashes turned into dots |
| ClassNames.FooBecomesFloat | src/converter/SimpleHeatmap.java:227-228 | as written, a plain class named `Foo` is shown as `float`, because its first letter is read as a primitive descriptor |
| ClassNames.ConvertFixedRoundTrip | src/converter/SimpleHeatmap.java:198-236 | the corrected conversion, which reads primitive letters and the `L...;` form only inside array names, gets every recorded class right |
| ClassNames.ConvertFails | src/converter/SimpleHeatmap.java:198-236 | `convertClassName` throws exactly for a name made only of brackets, or of brackets followed by a lone `L` |
| SimpleMethods.NameWordIsOr | src/converter/SimpleHeatmap.java:241 | the first word is the Java long `(long) methodName << 18` OR-ed with `className` |
| SimpleMethods.LocationWordIsOr | src/converter/SimpleHeatmap.java:242 | the second word is `(long) location << 4` OR-ed with the sign-extended type byte |
| SimpleMethods.FitWords | src/converter/SimpleHeatmap.java:239-244 | with 18-bit symbol ids, a 32-bit location and a 4-bit type, both words fit the 36 bits `write36` accepts |
| SimpleMethods.WriteMethodAppends | src/converter/SimpleHeatmap.java:240-243 | one method throws exactly when a word leaves 36 bits; otherwise it appends the flush and the twelve symbols of its two words |
| SimpleMethods.CompressMethodsWrites | src/converter/SimpleHeatmap.java:239-244 | `compressMethods` throws exactly when some word leaves 36 bits; with no methods nothing changes; otherwise it appends the flush and the records in order |
| SimpleMethods.RecordOf | src/converter/resources/simple_heatmap.js:490-493 | method m, counted from 1, is read from the twelve symbols at 12 (m - 1) |
| SimpleMethods.ReadsMethod | src/converter/resources/simple_heatmap.js:481-501 | `methodInfo` of a record whose method id is below 2^14 and whose location is below 2^28 returns the pool entries at its class id minus one and its method id minus one, its location and its type |
| SimpleMethods.MethodInfoRoundTrip | src/converter/resources/simple_heatmap.js:481-501 | for such a method, the viewer reads back exactly the class, method name, location and type written |
| SimpleMethods.TitleRoundTrip | src/converter/resources/simple_heatmap.js:503-514 | for such a method, `title` is the class entry, ".", then the method-name entry |
| SimpleMethods.LongNameLost | src/converter/resources/simple_heatmap.js:492-495 | as written, a method id of 2^14 loses its top bit in the 32-bit `int36`, so the title shows `undefined` for the name; the corrected reading shows the right entry |
| SimpleMethods.MethodInfoFixedRoundTrip | src/converter/resources/simple_heatmap.js:481-501 | the corrected `methodInfo`, which keeps all 36 bits, reads back every method whose fields fit |
| Interning.InternMeaning | src/converter/SimpleHeatmap.java:92-98 | `Index.index(key)` returns a 1-based id that names the key; a known key leaves the table as it was, and a new key is appended and gets id size + 1 |
| Interning.InternDistinct | src/converter/SimpleHeatmap.java:157-162 | interning keeps the keys of a table distinct |
| Interning.InternKnown | src/converter/SimpleHeatmap.java:157-162 | in a table of distinct keys, the key at position i has id i + 1 and interning it changes nothing |
| Interning.InternIdempotent | src/converter/SimpleHeatmap.java:136 | interning a key a second time returns the same id and the same table |
| Evaluation.Evaluate | src/converter/SimpleHeatmap.java:88-106 | `evaluate` succeeds only when neither divisor of `ms` and of the block index is zero, and then makes `(int) (duration / blockDurationMs) + 1` blocks |
| Evaluation.Step | src/converter/SimpleHeatmap.java:130-178 | the block the sample's time falls in gains exactly one stack id at its end and every other block is unchanged; a time outside the blocks raises ArrayIndexOutOfBoundsException |
| EvaluateFacts.BucketIs | src/converter/SimpleHeatmap.java:84-86 | without wrap-around, the block of a sample is its milliseconds since the start, truncated, divided by the block length |
| EvaluateFacts.BucketsInRange | src/converter/SimpleHeatmap.java:102-131 | when the samples are in time order and the last one's block fits an int, every sample's block index is inside the array `evaluate` allocates |
| EvaluateFacts.FramesShape | src/converter/SimpleHeatmap.java:140-175 | a sample's frames are its stack trace reversed, root first: frame j resolves method i = n - 1 - j to its class name, method name, location and type, and only frame 0 is a start; allocation and lock samples get one more frame, the class of `extra` with an empty name, location 0 and type 3 for an allocation outside a TLAB and 2 otherwise |
| EvaluateFacts.MissingStack | src/converter/SimpleHeatmap.java:140-155 | a sample whose stack trace is missing shows as the unknown method of the unknown class, with type 3, then its class for allocation and lock samples |
| EvaluateFacts.FramesSucceed | src/converter/SimpleHeatmap.java:151-167 | when every class symbol converts, the frames of every sample are built |
| EvaluateFacts.TlabLost | src/converter/SimpleHeatmap.java:133-177 | as written, an allocation outside a TLAB that follows one inside with the same class and stack trace reuses the cached stack, so the block gets the first sample's stack twice although the frames differ |
| EvaluateFacts.TlabKept | src/converter/SimpleHeatmap.java:133-177 | with the TLAB flag in the cache key, the block gets each sample's own frames, in order |
| EvaluateFacts.PlaceView | src/converter/SimpleHeatmap.java:133-178 | with the corrected key, placing an allocation sample appends its frames to its block and changes no other block |
| EvaluateProofs.InternFrameResolves | src/converter/SimpleHeatmap.java:157-162 | the method id of an interned frame resolves back to the frame's class name, method name, location, type and start flag |
| EvaluateProofs.InternFramesResolves | src/converter/SimpleHeatmap.java:143-163 | the method ids of a stack's interned frames resolve back to the frames, in order |
| EvaluateProofs.KeyDecodes | src/converter/SimpleHeatmap.java:133 | with a non-negative stack trace id, the key word holds the id in its low 32 bits and `extra` above them |
| EvaluateProofs.KeyWordInjective | src/converter/SimpleHeatmap.java:133 | two such samples share a key word exactly when they share `extra` and the stack trace id |
| EvaluateProofs.KeyWordIsOr | src/converter/SimpleHeatmap.java:133 | the key word is the Java `(long) extra << 32 OR stackTraceId` |
| EvaluateProofs.NegativeHighOr | src/converter/SimpleHeatmap.java:133 | a negative `extra` keeps its sign bits above bit 32, and the OR with a non-negative id still adds |
| EvaluateProofs.PlaceCached | src/converter/SimpleHeatmap.java:133-137 | a sample whose key is cached is appended to its block with the frames it stands for |
| EvaluateProofs.PlaceBuilt | src/converter/SimpleHeatmap.java:140-178 | a sample whose key is not cached gets its frames interned and cached, and is appended to its block with those frames |
| EvaluateProofs.StepView | src/converter/SimpleHeatmap.java:130-178 | one sample fails exactly when its block index is out of range or its frames cannot be built; otherwise the tables stay consistent and the sample's frames are appended to its block |
| EvaluateProofs.ProcessView | src/converter/SimpleHeatmap.java:123-179 | from empty blocks, the loop leaves each block holding the frames of its samples in order |
| EvaluateProofs.InitialView | src/converter/SimpleHeatmap.java:92-106 | the tables before the first sample, with `all` and the empty string interned and the root method at id 1, are consistent and every block is empty |
| EvaluateProofs.EvaluateResolves | src/converter/SimpleHeatmap.java:88-196 | the result of `evaluate` shows every sample, as its canonical frames, in its time block, in order; with no samples every block is empty |
| SynonymsProofs.SampleStacksMeaning | src/converter/SimpleHeatmap.java:323-329 | the stacks of the samples are found exactly when every sample id names a stack of the table; sample j then gets `stackTraces[id - 1]` of its id, block by block |
| SynonymsProofs.StartsMeaning | src/converter/SimpleHeatmap.java:320-332 | the `starts` index is built exactly when every stack has a nonzero first method; it then holds `methods.size() + 1` first and after it exactly the stacks' first methods, each once |
| SectionProofs.PrintHeatmapMeaning | src/converter/SimpleHeatmap.java:316-462 | `printHeatmap` writes its section exactly when every sample id names a stack, every stack has a nonzero first method and no method is negative; with the stacks found and started, a negative method makes `writeVar` raise IllegalArgumentException |
| SectionProofs.FirstError | src/converter/SimpleHeatmap.java:320-329 | errors are raised sample by sample in the first loop: once the earlier samples have passed, an id outside the table or an empty stack raises ArrayIndexOutOfBoundsException and a first method 0 raises NullPointerException, whatever the later samples hold |
| SectionProofs.NullBeforeRange | src/converter/SimpleHeatmap.java:320-329 | a first sample whose stack starts with method 0 raises NullPointerException even though the next sample names no stack |
| SectionProofs.FirstLoopIsStarts | src/converter/SimpleHeatmap.java:320-329 | over samples whose ids name stacks, the first loop builds the same `starts` index as indexing the first method of each looked-up stack, and fails the same way |
| SectionProofs.FirstLoopLooks | src/converter/SimpleHeatmap.java:320-329 | the first loop passes only when every sample id names a stack |
| SectionProofs.FirstLoopFailureStays | src/converter/SimpleHeatmap.java:320-329 | once the first loop has raised an exception, the later samples do not change it |
| SectionProofs.BuildEdges | src/converter/SimpleHeatmap.java:361-380 | the trie of stacks without negative methods has no negative method on any edge |
| SectionProofs.StacksNonNegative | src/converter/SimpleHeatmap.java:361-380 | conversely, when no edge of the trie carries a negative method, no stack holds one |
| SectionProofs.BodyWritable | src/converter/SimpleHeatmap.java:398-442 | the synonyms, tails and second-pass pairs reach `writeVar` without a negative value exactly when no stack holds a negative method |
| SectionProofs.PrintHeatmapLayout | src/converter/SimpleHeatmap.java:317-348 | when the stacks are found and started and no method is negative, the section opens with the zoom count 3, the number of start methods and `methods.size() + 1`, then the block count and each block's size as a tiny var-int, and closes with `0, methods.size() + 1` |
| TrieProofs.AddStackSpells | src/converter/SimpleHeatmap.java:361-379 | one stack is recovered from the trie it leaves: the methods of the nodes it created, each node spelling its parent's phrase and one method, then the phrase of the node it ends at, whose count goes up; no earlier node or tail changes |
| TrieProofs.BuildGrows | src/converter/SimpleHeatmap.java:361-380 | the trie of the first i stacks is a prefix of the finished trie, with the same first i tails |
| TrieProofs.BuildSpells | src/converter/SimpleHeatmap.java:361-380 | every stack is the phrases of the nodes it created followed by the phrase of its tail node, read from the finished trie |
| TrieProofs.RebaseIsMove | src/converter/SimpleHeatmap.java:416-418 | giving the root another id moves every node id by the same distance |
| TrieProofs.WalkMoved | src/converter/SimpleHeatmap.java:431-447 | walking a stack through a trie whose ids are all moved by d ends d further, in the moved trie |
| TrieProofs.AddStackMoved | src/converter/SimpleHeatmap.java:428-447 | adding a stack commutes with moving every id |
| TrieProofs.BuildMoved | src/converter/SimpleHeatmap.java:416-455 | building from root id b2 gives the trie built from root id b1 with every id moved by b2 - b1 |
| TrieProofs.BuildRebased | src/converter/SimpleHeatmap.java:416-455 | building from another root id gives the same trie with the root moved there |
| TrieProofs.SecondPass | src/converter/SimpleHeatmap.java:416-455 | the second pass creates the same nodes and tails as the first, each parent and tail id moved down by `synonymsDelta` |
| SynonymsProofs.SortPermutes | src/converter/SimpleHeatmap.java:382-387 | the sort of `allNodes` is a permutation |
| SynonymsProofs.SortRanked | src/converter/SimpleHeatmap.java:382-387 | nodes listed in creation order come out by descending count, ties in creation order, as the stable `Collections.sort` leaves them |
| SynonymsProofs.RankedNodes | src/converter/SimpleHeatmap.java:356-387 | the sorted `allNodes` is a permutation of all nodes in rank order |
| SynonymsProofs.SynonymsRanked | src/converter/SimpleHeatmap.java:389-403 | there are min(32768, nodes) synonyms, each a node moved down by `synonymsDelta = 32768 - synonymsCount`, all distinct, in rank order |
| SynonymsProofs.SynonymsTop | src/converter/SimpleHeatmap.java:389-403 | no node left out of the synonyms is counted more often than any synonym |
| SynonymsProofs.RefRoundTrip | src/converter/SimpleHeatmap.java:410-412 | a node id at or above the synonym count written as its rank - 1 (a synonym) or as itself reads back as the id, and the value is below the synonym count exactly when the node is a synonym |
| SynonymsProofs.ReferencesDecode | src/converter/SimpleHeatmap.java:406-446 | every tail and every parent written by the second pass reads back as the second-pass node id, and each method is written as itself |
| CallTree.NextChild | src/converter/resources/heatmap.js:51-57 | `nextChild(m)` returns the child of method m; an existing one leaves the children unchanged, and otherwise a fresh frame of method m is added |
| CallTree.AddPathStat | src/converter/resources/heatmap.js:147-163 | adding one sample of value v on path p adds v to the total of every path p passes through and to the self value of p itself, and changes nothing else |
| CallTree.AddPathBalanced | src/converter/resources/heatmap.js:156-163 | adding a sample keeps total = self + the children's totals at every frame |
| CallTree.AddPathWf | src/converter/resources/heatmap.js:156-163 | adding a sample keeps the children of every frame keyed by distinct methods |
| CallTree.TracesStat | src/converter/resources/heatmap.js:124-167 | the tree `integralTraces` builds holds, on every call path, the summed values of the samples that pass through it (total) or end at it (self), and it is balanced and keyed |
| CallTree.CombineStat | src/converter/resources/heatmap.js:82-86 | `_combine(target, source)` adds the source's self and total values to the target's, path by path |
| CallTree.MergeStat | src/converter/resources/heatmap.js:85 | merging the source's children from position j on adds, on every non-empty path, what those children hold |
| CallTree.CombineBalanced | src/converter/resources/heatmap.js:82-86 | merging two balanced trees gives a balanced tree |
| CallTree.CombineWf | src/converter/resources/heatmap.js:82-86 | merging keeps the target's children keyed by distinct methods |
| CallTree.CombineAllStat | src/converter/resources/heatmap.js:88-94 | `combine(roots)` holds, on every path, the sum of what the roots hold |
| CallTree.CombineAllBalanced | src/converter/resources/heatmap.js:88-94 | the combined tree of balanced roots is balanced |
| RingQueue.NewEmpty | src/converter/resources/simple_heatmap.js:356-359 | a new queue has 1024 slots, is empty and has size 0 |
| RingQueue.SizeMeaning | src/converter/resources/simple_heatmap.js:396-402 | `size()` is the number of elements held, always below the length of the array |
| RingQueue.PushMeaning | src/converter/resources/simple_heatmap.js:361-383 | a push appends its element to the contents and keeps the cursors valid; the array doubles exactly when the push fills it |
| RingQueue.ShiftMeaning | src/converter/resources/simple_heatmap.js:385-394 | on a queue that holds something, a shift returns the oldest element and drops it; on an empty queue `size()` wraps round to the array length minus one |
| RingQueue.PushAllContents | src/converter/resources/simple_heatmap.js:361-383 | pushing a list appends it to the contents, however often the array grows |
| RingQueue.ShiftAllContents | src/converter/resources/simple_heatmap.js:385-394 | n shifts of a queue holding at least n elements return its first n elements and leave the rest |
| RingQueue.Fifo | src/converter/resources/simple_heatmap.js:356-403 | whatever is pushed onto a new queue is shifted off in the same order |
| StackContext.NewValid | src/converter/resources/simple_heatmap.js:83-107 | a context read from the data is valid at level 0, its tree is the root holding the total, every stack id is live and `maxLevel` bounds the length of every stack |
| StackContext.NewRoundTrip | src/converter/resources/simple_heatmap.js:83-107 | a nonzero total, the stack count and the gaps of ascending stack ids read back as those ids, each at the root, with the largest stack length as `maxLevel` and the read position after them |
| StackContext.GapsRoundTrip | src/converter/resources/simple_heatmap.js:100-106 | `prevStackId += gap + 1` reads the gaps of a list of stack ids back as the list |
| StackContext.ReadIdsGaps | src/converter/resources/simple_heatmap.js:100-106 | conversely, the gaps of the ids read are the data, and the ids are strictly ascending exactly when no gap is negative |
| StackContext.MaxLevelBounds | src/converter/resources/simple_heatmap.js:105 | `maxLevel` is the largest stack length seen, or its start value |
| StackContext.KeptMeaning | src/converter/resources/simple_heatmap.js:109-120 | the kept ids and leafs are exactly the live ones, in order, one per slot that is not null |
| StackContext.Trim | src/converter/resources/simple_heatmap.js:109-120 | the in-place `trim` loop leaves exactly the kept ids and leafs |
| StackContext.IterationKeeps | src/converter/resources/simple_heatmap.js:122-162 | one `loadIteration` keeps the tree rooted, only adds to it, and changes no other stack's leaf |
| StackContext.IterationAligned | src/converter/resources/simple_heatmap.js:136-161 | a stack still being read afterwards has its leaf at the node of its first level + 1 methods |
| StackContext.IterationFinished | src/converter/resources/simple_heatmap.js:123-157 | a live stack that is finished has its whole path in the tree, with count 1 when the rest was filled in by the `total === 1` chain |
| StackContext.ChainMeaning | src/converter/resources/simple_heatmap.js:148-155 | the `total === 1` chain adds the nodes down to the end of the stack, each holding the total, and keeps the tree rooted |
| StackContext.IterationCounts | src/converter/resources/simple_heatmap.js:133-135 | `methodsCount` goes up by one for the method at the current level of a live stack that is not finished, and for no other method |
| StackContext.LevelLoopMeaning | src/converter/resources/simple_heatmap.js:164-171 | the level loop moves every stack one level on, only nulls stack ids, and counts the nulls |
| StackContext.LoadLevelMeaning | src/converter/resources/simple_heatmap.js:164-178 | `loadLevel` keeps the context valid and moves it one level on; it compacts the ids exactly when more than half of them were nulled |
| StackContext.LoadLevelIds | src/converter/resources/simple_heatmap.js:164-178 | every remaining stack id still names a stack, and the level goes up by one |
| StackContext.LoadMeaning | src/converter/resources/simple_heatmap.js:180-185 | `load(maxLevel)` keeps the context valid and only adds to its tree; it answers whether stacks remain, and if so the level is past maxLevel |
| Zoom.Range | src/converter/resources/simple_heatmap.js:262-273 | `collectFramesImpl` lists the contexts from..to at one zoom, one per block, and nothing when from > to |
| Zoom.RangeHits | src/converter/resources/simple_heatmap.js:262-273 | each block at that zoom is covered once inside from..to and not at all outside |
| Zoom.CollectCovers | src/converter/resources/simple_heatmap.js:275-289 | `collectFramesForZoom` covers every block of from..to at least once, and no block outside it |
| Zoom.CollectTwice | src/converter/resources/simple_heatmap.js:281-284 | as written, with group sizes 1 and 2 the blocks 0..3 come back as two coarse contexts plus blocks 0, 2 and 3, so block 0 is counted twice |
| Zoom.FixedExact | src/converter/resources/simple_heatmap.js:275-289 | with the head ending before the first coarse group and the tail starting after the last, every block of from..to is covered exactly once and none outside it |
| Flame.FindFrame | src/converter/resources/flame.js:48-63 | the binary search returns only a frame that contains x; on frames sorted and disjoint it finds one exactly when one exists, and on a miss `left` splits the frames into those ending at or before x and those starting after x |
| Flame.DecimalRoundTrip | src/converter/resources/flame.js:41 | `n.toString()` is a decimal numeral of n without leading zeros |
| Flame.GroupMeaning | src/converter/resources/flame.js:41 | the thousands regex puts a comma before every group of three digits counted from the right, and removing the commas gives the digits back |
| Flame.SamplesParse | src/converter/resources/flame.js:40-42 | `samples(n)` is "1 sample" for one, and otherwise n with thousands commas followed by " samples" |
| Flame.PctMeaning | src/converter/resources/flame.js:44-46 | `pct(a, b)` is "100" exactly when a >= b; otherwise, for 0 <= a < b, it is 100 a / b, below 100 |
| Flame.MarkMeaning | src/converter/resources/flame.js:96-98 | `mark(f)` keeps the wider of the recorded and the new width at f.left and touches no other position; it answers truthily exactly when the recorded width was already at least f.width or the new width is nonzero |
| Flame.TotalMarked | src/converter/resources/flame.js:100-110 | `totalMarked` sums the widths of the marks it counts, taken in ascending position, each starting at or after the end of the previous one; every mark is counted or lies inside a counted one |

## Left out

- `jfr2heat.java`, the command-line entry point, is not modelled: it only parses arguments and opens files.
- Files, streams, `PrintStream`, `getResource` and the JFR reader are left out because they are I/O. The recording reaches the model as a parameter, already parsed into maps and sequences.
- Timing, the progress lines written to `System.out` and `Histogram` are left out because they are diagnostics with no effect on the output.
- `HtmlOut.print(long)` and its `pos += 8` are left out. It writes the page's decimal settings (height, depth, ticks per second, start time) outside the payload, and its count of 8 is an approximation, not the number of characters written.
- `SimpleHeatmap.dump`, which splices the sections into `flame.html` at marker comments with `printTill` and `skipTill`, is left out as page assembly. Each section it writes is modelled.
- The hash functions of `IndexInt`, `IndexLong` and `Index<T>` are a parameter, because only the equality of keys and `h & mask` matter to the tables.
- UTF-8 encoding and decoding of names is left out. Names are sequences of code units.
- `Dictionary`, `Index<T>` and the JFR pools are modelled by their meaning, as maps and first-seen sequences. The array layout is modelled only for `IndexInt`/`IndexLong`.
- The sort of samples by time in `SimpleHeatmap.evaluate` (SimpleHeatmap.java:90) is left out: the model takes the samples as they are after the sort, so callers must pass them in time order. The block count comes from the last sample, EvaluateFacts.BucketsInRange needs the order, and the order in which stacks and methods are interned depends on it.
- `Heatmap.addSample` is modelled only through the SampleCollection writers it calls. Its dispatch on the JFR event class is left out with those classes. The allocation branch after `if (true) return;` (Heatmap.java:53) is dead code.
- The whole-file round trip of `printHeatmap` is left out. The synonym section has no JavaScript reader to pair with, and `HeatmapCollection` reads `maxZoom` from the last five symbols while the writer emits it first. Each section has its own round trip instead.
- IndexTable.Shift: `IndexInt.shift` does not decrement `size` and can break probe chains. The model states its effect on the abstract order only, not that the table stays valid. The only caller, `LzNode.rename`, is never called.
- A zoom level with group size 0 is excluded by `Zoom.GroupsOk`: the writer never produces one, and `Math.floor(x / 0)` has no integer meaning.
- `findFrame` over arrays of 2^31 or more elements is left out, because the `>>> 1` midpoint wraps there.
- The half-pixel fallback of `findFrame` (flame.js:65-66), the `toFixed` rounding of `pct`, the heat colours and `getColor` with `Math.random` are left out as floating point and presentation. Flame.Pct keeps the fraction as an exact real.
- Flame.Samples does not model the exponent form JavaScript uses for numbers of 10^21 and above.
- The regular-expression search, the DOM and canvas drawing, and the event handlers are left out because they are presentation.
- Context caching and `addTask` in simple_heatmap.js are left out because they are scheduling; they do not change what a context decodes to.
- The writer of the `StackDecodingContext` stream is not part of this model. StackContext.Gaps is an independent reference encoder that the decoder is proved against.
- `nextSignedVarInt` (simple_heatmap.js:24) is left out: none of the modelled readers call it.
- The cached `integralValue` getter (heatmap.js:113-122) is left out: it is a memoised sum, and the sums it caches are modelled directly.
- `SimpleHeatmap.printGlobalStacks` has an empty body, so nothing writes the stream `decodeGlobalStacks` reads. LzArrays.EncodeArrays is an independent reference encoder that the reader is proved against.
- Flame.TotalMarked returns, besides the total, the set of marks it counted. That set is an output of the model only; `totalMarked` keeps no such table.
- Template.Dump takes a fuel bound on the nesting of `${resource:name}`. When the fuel runs out it fails with the same error as a missing resource. The partial output written before an exception is not modelled.
- CallTree: the order in which a JavaScript object enumerates its children is not modelled. Every total stated is independent of it.
- EvaluateProofs.EvaluateResolves requires non-negative stack trace ids and, for allocation profiles, the corrected cache key: the code as written loses the TLAB distinction (see Findings).
- SimpleMethods.MethodInfoRoundTrip is limited to method-name ids below 2^14 and locations below 2^28, the range the 36-bit word survives in JavaScript (see Findings).
- SimpleMethods.TitleRoundTrip has the same limits as MethodInfoRoundTrip.
- MethodTable.MethodRecordOk describes the corrected lookup, where a missing symbol is remembered as slot 0. As written, a missing symbol looked up a second time gets a stale slot (see Findings), so the promise holds for the code as written only when the symbols looked up are present.
- MethodTable.DumpMethodsResolve describes the corrected `dumpMethods`. For the code as written it is carried over by MethodTable.DumpMethodsAsWrittenResolve, only when every class-name and method-name symbol looked up is present.
- MethodTable.TitleRoundTrip describes the corrected `dumpMethods` and requires a method with a method ref and a string pool of at most 2^30 entries, the range of the 30-bit index. It also takes the Java pool to be the viewer's `cpool` array. The converter writes each name between quotes without escaping (Heatmap.java:123-128) into `var cpool = [...]` (heatmap.js:425), so a name containing `"`, `\` or a line terminator does not come back as written. JVM names may contain `"` and `\`.
- MethodTable.TitleRoundTripAsWritten has the same limits and the same unescaped `cpool` assumption, and also needs every symbol looked up to be present.
- Evaluation.Evaluate: its contract states only the conditions success needs and the number of blocks made. The contents of the blocks are stated by EvaluateProofs.EvaluateResolves.

## Findings

| source | as written | input that shows it | evidently intended | confidence | as-written member | corrected member |
|---|---|---|---|---|---|---|
| src/converter/Heatmap.java:246-257 | `remap.putIfAbsent(name, out.size())` records a slot even when the name symbol is missing and nothing is added at that slot | a missing name symbol 1, then a method named by symbol 2 (`x`), then symbol 1 again: the second lookup of 1 returns the slot of `x` | a missing symbol maps to slot 0 every time | not executed; high | MethodTable.StaleRecordAsWritten | MethodTable.InternResolves |
| src/converter/SimpleHeatmap.java:198-236 | a plain class name whose first letter is a primitive descriptor letter is converted as a primitive | the class `Foo` in the unnamed package is shown as `float` | only array descriptors are read as descriptors, and plain names are kept | not executed; high | ClassNames.FooBecomesFloat | ClassNames.ConvertFixedRoundTrip |
| src/converter/resources/simple_heatmap.js:50-57 | `int36` combines six symbols with 32-bit shifts and bitwise or, so the bits above 31 are lost and `methodAndClass >>> 18` keeps only 14 bits of the method name | a method whose method-name id is 2^14: its title shows `undefined` | the whole 36-bit word is read and the method name is found | not executed; high | SimpleMethods.LongNameLost | SimpleMethods.MethodInfoFixedRoundTrip |
| src/converter/SimpleHeatmap.java:133-177 | the stack cache key is the class id and stack trace id, but the frame added for an allocation also depends on whether `tlabSize` is zero | the same allocation stack sampled inside a TLAB and then outside one: the second sample is given the first one's frames | the key also distinguishes the TLAB case, so each sample keeps its own frame type | not executed; medium | EvaluateFacts.TlabLost | EvaluateFacts.TlabKept |
| src/converter/resources/simple_heatmap.js:274-289 | the head ends at `fromNextZoom * groupSize` and the tail starts at `toNextZoom * groupSize`, so both overlap the coarser middle | group sizes [1, 2], blocks 0 to 3 at zoom 0: block 0, and blocks 2 and 3, are each collected twice | head, middle and tail partition the range, so each block is counted once | not executed; medium | Zoom.CollectTwice | Zoom.FixedExact |

# Verified model of the Shox96 codec and the journal cache

This project models, in Dafny, the two parts of the library that carry its logic, and the glue between them:

- **The Shox96 text codec** (`src/shox96_0_2.cpp`). The compressor and the decompressor are methods that work in place on
  byte buffers, one loop for each loop of the source. Each is proved against a specification: `Encoding.Encode` is the
  compressor as a state machine over items (mode switches, characters, line ends, run tokens, copy tokens), and
  `Decoding.Decode` is the decompressor as a state machine over bits, with the decompressor's own tables and state. The
  compressor method appends the numbers of its own tables; that these spell the decompressor's code words, and that the
  two state machines undo each other, is proved.
- **The in-memory journal cache** (`src/esp8266.cpp`). A heap-allocated sorted linked list of 64-byte blocks with a
  `Valid()` invariant, refined first to a map of blocks (`BlockStore.Store`) and then to a flat file.
- **The glue**: the varint length header and the two SQL functions.

Results that take several functions or a whole run:

1. *Round trip, exactly.* For every byte string, every list of earlier lines and every setting of the two matching switches,
   as long as all counts have a code, decompression gives the text back if and only if the run was sound
   (`Guarantees.RoundTripExact`): no byte was dropped, and every run token repeated the byte really written last. The
   compressor's `c_prev` is one byte behind after a match, so README.md's promise for its alphabet is false as it
   stands: `Limits.StaleText` is an input. `Guarantees.UnsoundIsTrap` says locally what goes wrong,
   `Guarantees.NoTrapFaithful` gives a condition on the text alone that rules it out, and with matching off
   the texts that come back are, under the same proviso, exactly those in the alphabet (`Guarantees.MatchingOffExact`). For the alphabet the exact
   condition is that no match of the run ends right before such a spot (`Guarantees.AlphabetExact`).
2. *Lockstep.* At every step of a sound run whose counts have codes the decoder, fed the bits so far and anything after them, is exactly where the
   encoder is (`Guarantees.LockstepAt`).
3. *Room.* At most 37 bits for two bytes of text, amortised over both modes, for every byte string (`SizeBound`); the
   compressor is proved never to write beyond a buffer of that size.
4. *Rewinding leaves no trace.* However many candidates `matchLine` writes over one another with `|=`, one token is left.
5. *The cache is a flat file* after every write of a run without a failed allocation if and only if the bytes that the
   writes left out were in the file already (`Journal.FileExactly`). These are the bytes of blank chunks, which appending
   makes harmless (`BlockStore.RunIsFlat`, `BlockStore.AppendIsFlat`), and those lost at a seven-byte chunk and behind it.
   A write is reported as successful even if all its bytes are lost: `Journal.SevenBytesLost` is an input. No write loses
   a block of the list or its order, whether it completes, runs out of memory or takes a seven-byte chunk for a failed
   allocation.
6. *What is done when.* The steps of the compressor are characterised by the text alone (`Rules`): exactly when a run,
   copy or line token is due and which one, when each mode is entered and left, and how each item is spelt; so are the
   rounds of the decompressor by the bits alone (`DecoderRules`), and the effect of a write by its bytes alone
   (`Journal.CompleteByte`, `Journal.StoppedByte`, `Journal.BlockRule`).
7. *End to end*: `shox96_0_2d` of the blob of `shox96_0_2c` is the text, under the same exact condition, if the text is not empty.

Bytes are integers from 0 to 255 and bit strings are `seq<bool>`, most significant bit first. The C operators `|`, `&`, `<<`
and `>>` are defined in `Bits` and related to bits there. A position in the buffer is counted in bits, as in the source.

## Model

| member | source | states |
|---|---|---|
| BitBuffer.AppendBits | src/shox96_0_2.cpp:47-80 | Appending a code of up to 16 bits at any bit position leaves the earlier bits, adds exactly the top bits of the code (without the 7-bit set-2 prefix in digit state), leaves the unused tail of the last byte zero and later bytes untouched; also over leftover ones in the last byte, if the new bits have ones there |
| BitBuffer.Slice | src/shox96_0_2.cpp:66-68 | The masked and shifted byte of one round has exactly the wanted bits of the code, each in its place |
| BitBuffer.StoreByte | src/shox96_0_2.cpp:69-77 | One round, storing or ORing the byte, moves up to a byte's worth of pending bits into the buffer |
| Codes.PlaceInverts | src/shox96_0_2.cpp:324-330 | Every printable character that is no capital stands in the decoder's `sets` where the encoder's code points |
| Codes.TableRow | src/shox96_0_2.cpp:30-31 | Code and length of each character in the encoder's tables are those of its row and column in the decoder's tables; exactly the digits carry the set-2 prefix |
| Codes.CapitalRow | src/shox96_0_2.cpp:30-31 | A capital's code is 0010 and the code of its small letter |
| Codes.Set2IsSymbols | src/shox96_0_2.cpp:33 | The 42 characters that memchr searches are exactly the printable ones that are neither letters nor the backquote |
| Words.GlyphBits | src/shox96_0_2.cpp:30-31 | For all 95 characters, c_95 and l_95 spell the concatenation of the decoder's code words |
| Words.GlyphEmitted | src/shox96_0_2.cpp:53-58 | In digit state a digit is left with its column code only, and every other character keeps its whole code |
| Words.ControlWords | src/shox96_0_2.cpp:236-285 | The mode switch codes and those of TAB and CR are the words the decoder reads as such |
| Words.SlotCodes | src/shox96_0_2.cpp:195-293 | The codes of CR LF, LF, the run token and the padding are the words of their places in `sets` |
| Words.CopyCodes | src/shox96_0_2.cpp:106-145 | The two copy tokens share a place and differ in the bit after it |
| Reader.ReadCodeExact | src/shox96_0_2.cpp:336-351 | getCodeIdx returns an index and a position if and only if that code word stands there and ends there |
| Reader.FiveBits | src/shox96_0_2.cpp:336-351 | With five bits left a code word is always found: the fallback is never taken |
| Reader.CodesInverse | src/shox96_0_2.cpp:304-351 | Reading inverts concatenation of any number of code words, at any position, whatever follows |
| Reader.CodesUnique | src/shox96_0_2.cpp:304-321 | No bit string is the concatenation of two different sequences of code words |
| Counts.RowsSwapped | src/shox96_0_2.cpp:83-85 | encodeCount's tables are readCount's with the first two rows swapped, and their brackets are adjacent |
| Counts.EncodeCount | src/shox96_0_2.cpp:82-96 | Appends the word of the count, and nothing at all from 70308 on |
| Counts.CountRoundTrip | src/shox96_0_2.cpp:361-370 | For every count below 70308, at any position and whatever follows, readCount returns it and advances by what was written |
| Encoding.Lcp | src/shox96_0_2.cpp:101-104 | The length up to which two texts agree, and the longest such |
| Encoding.FirstFit | src/shox96_0_2.cpp:100-112 | The first offset with a match of at least the wanted length, or none if there is none |
| Encoding.BestLineIsMatch | src/shox96_0_2.cpp:126-148 | The match kept lies inside line ctx, is at least 12 long and agrees with the text |
| Encoding.BestLineIsBest | src/shox96_0_2.cpp:123-159 | Of all lines, the match kept has the least offset among the first fits, in the last line that has it |
| Encoding.Step | src/shox96_0_2.cpp:185-290 | Every step passes bytes or lowers the number of mode switches still to come, and stays within the text |
| Rules.RunRule | src/shox96_0_2.cpp:189-201 | A run token is written if and only if five bytes are left at least and the next four equal c_prev; it covers the whole run and keeps c_prev |
| Rules.CopyRule | src/shox96_0_2.cpp:98-115 | Where no run token is due, a copy token is written if and only if matching is on, more than seven bytes are left and the next seven occur in the text before; it names the first such place and as many bytes as agree there, and c_prev lags by one |
| Rules.LineRule | src/shox96_0_2.cpp:117-166 | Where neither is due, a line token is written if and only if lines are matched, more than twelve bytes are left and the next twelve occur in a line; it names the place with the least offset, in the farthest line that has it there, and as many bytes as agree |
| Rules.TextSwitchRule | src/shox96_0_2.cpp:229-238 | Where nothing is matched, digit state is left exactly if the character, or the one after a space, is not among the 42, and before anything else |
| Rules.CapitalsRule | src/shox96_0_2.cpp:239-257 | Then capitals are switched off exactly at a character that is no capital, and on exactly at a capital from which on six characters exist of which none is a small letter |
| Rules.DigitsRule | src/shox96_0_2.cpp:258-261 | Then digit state is entered exactly before a digit |
| Rules.CharacterRule | src/shox96_0_2.cpp:262-289 | Then the character is written, CR LF as one item, other bytes are dropped, and c_prev is the last byte passed |
| Rules.ItemCodes | src/shox96_0_2.cpp:195-287 | Every item is written with the numeric codes of the source, in every mode |
| Rules.CountRule | src/shox96_0_2.cpp:82-96 | The bits of every count, bracket by bracket, and none from 70308 on |
| Rules.PaddingRule | src/shox96_0_2.cpp:291-294 | The padding is the first bits of 14272, and there is none at a byte boundary |
| Matchers.CommonLength | src/shox96_0_2.cpp:127-130 | The inner loop of both matchers finds the longest common prefix |
| Matchers.MatchOccurance | src/shox96_0_2.cpp:98-115 | Writes the token of the first long enough earlier match and returns the position of its last byte, or writes nothing and returns the position negated |
| Matchers.RewindReady | src/shox96_0_2.cpp:132-145 | After any earlier token, the bits left in the shared byte are covered by the ten constant bits of the next one |
| Matchers.MatchLine | src/shox96_0_2.cpp:117-166 | Whatever was written and rewound over, the output is the old bits and the one token of the match that is left standing |
| Compressor.Memchr | src/shox96_0_2.cpp:230-233 | Finds a character exactly if it is among the 42 |
| Compressor.LookAhead | src/shox96_0_2.cpp:249-253 | The backward search ends at l-1 exactly if six characters exist and none is a small letter |
| Compressor.CountRun | src/shox96_0_2.cpp:191-194 | The counted run is the maximal run of the byte |
| Compressor.CharEmitted | src/shox96_0_2.cpp:267-274 | What is appended for a printable character is its word in the current modes |
| Compressor.PaddingCode | src/shox96_0_2.cpp:291-294 | The last append fills the byte with the first bits of the padding code |
| Compressor.EmitLiteral | src/shox96_0_2.cpp:229-289 | A round without a match writes what the specification's steps at this position write, mode switches and character, within the room |
| Compressor.EmitRepeat | src/shox96_0_2.cpp:189-199 | A run token is written and the whole run passed |
| Compressor.TryEarlierText | src/shox96_0_2.cpp:203-213 | The sign of the result tells a match from none; c_prev becomes the byte before the last one matched |
| Compressor.TryEarlierLine | src/shox96_0_2.cpp:219-228 | The same for earlier lines |
| Compressor.Compress | src/shox96_0_2.cpp:168-298 | In a buffer of 37 half bits a byte, the bytes returned are the specified compressed text, for every byte string, and no write leaves the buffer |
| Decompressor.GetBitVal | src/shox96_0_2.cpp:332-334 | The masked byte is nonzero exactly if that bit of the bit string is one |
| Decompressor.GetCodeIdx | src/shox96_0_2.cpp:336-351 | The loop computes the specified table walk, and 199 exactly at the end of the input |
| Decompressor.GetNumFromBits | src/shox96_0_2.cpp:353-359 | The number that the bits spell |
| Decompressor.ReadCountAt | src/shox96_0_2.cpp:361-370 | Number and position of the specification |
| Decompressor.CopyBack | src/shox96_0_2.cpp:461-464 | The copied bytes are those `dist` before the end of the output, and the output before stays |
| Decompressor.RepeatByte | src/shox96_0_2.cpp:477-482 | The last byte is repeated `count` times behind the output |
| Decompressor.Emit | src/shox96_0_2.cpp:442-489 | The second half of a round extends the output as specified |
| Decompressor.ReadHead | src/shox96_0_2.cpp:387-441 | The first half of a round reads the codes and changes the modes as specified |
| Decompressor.Decompress | src/shox96_0_2.cpp:372-494 | The buffer begins with the specified output, and its length is returned, whenever that output fits |
| Decoding.DecodeKeeps | src/shox96_0_2.cpp:384-492 | Output that has been written stays |
| Lockstep.ReadsItem | src/shox96_0_2.cpp:384-490 | Every item that the encoder may emit in its modes, with counts that have codes, is read by exactly one round as what it means, whatever follows |
| DecoderRules.RowRule | src/shox96_0_2.cpp:395-490 | A code word with a row puts out its place in `sets` in every mode: shifted letters as capitals, CR LF, LF or shifted CR, nothing for the last place, TAB for other shifted places in column 1 in text state |
| DecoderRules.ColumnRule | src/shox96_0_2.cpp:394-450 | A column alone stands for the first row in text state and for the digits in digit state |
| DecoderRules.ShiftRule | src/shox96_0_2.cpp:401-440 | After the shift code, in text state with capitals off, one place is read shifted |
| DecoderRules.ModeRule | src/shox96_0_2.cpp:395-433 | The words that change the modes, in every mode |
| DecoderRules.CutRule | src/shox96_0_2.cpp:389-393 | Where no column code word stands, the input has ended and the output so far is the result |
| DecoderRules.CountReadRule | src/shox96_0_2.cpp:361-370 | What readCount makes of each of its seven rows, also the one that is never written |
| RoundTrip.StepLegal | src/shox96_0_2.cpp:185-290 | Every item emitted is one that the decoder understands in these modes; capitals and digit state exclude each other |
| RoundTrip.CopyStep | src/shox96_0_2.cpp:98-115 | A copy token is at least 7 long, does not overlap itself, lies in the text before, and names bytes equal to those passed |
| RoundTrip.LineStep | src/shox96_0_2.cpp:126-148 | A line token is at least 12 long, lies in line ctx, and names bytes equal to those passed |
| RoundTrip.StepExpands | src/shox96_0_2.cpp:442-489 | The effect of a sound step on the decoder's output is exactly the bytes passed |
| RoundTrip.UnsoundFallsBehind | src/shox96_0_2.cpp:189-199 | An unsound step makes the decoder wrong or short for good, or makes it read before its output |
| RoundTrip.PaddingIsSilent | src/shox96_0_2.cpp:291-296 | In every mode, the padding bits make the decoder stop without writing a byte |
| RoundTrip.Simulate | src/shox96_0_2.cpp:372-494 | From any shared state, if all further counts have codes, the rest decodes to the text exactly if all further steps are sound; the output is never longer than the text |
| Guarantees.RoundTripExact | src/shox96_0_2.cpp:168-494 | If all counts have a code, decompressing the compressed text gives the text, with its exact length, if and only if the run was sound; it never gives more bytes |
| Guarantees.SizesFitCounts | src/shox96_0_2.cpp:86-95 | Texts below 70312 bytes, lines below 70320 and at most 70308 lines need no count without a code |
| Guarantees.UnsoundIsTrap | src/shox96_0_2.cpp:190-224 | In the alphabet, a step is unsound exactly at a byte that is followed by three equal ones, differs from the byte before and equals a c_prev that lags by one |
| Guarantees.NoTrapFaithful | src/shox96_0_2.cpp:190-224 | A text in the alphabet without such a spot anywhere is compressed soundly, whatever is matched |
| Guarantees.AlphabetRoundTrip | src/shox96_0_2.cpp:168-494 | Such a text, within the sizes of SizesFitCounts, comes back, for any earlier lines and any matching |
| Guarantees.FaithfulIffNoMatchAtTrap | src/shox96_0_2.cpp:208-224 | The run of a text in the alphabet is sound if and only if none of its matches ends right before such a spot |
| Guarantees.AlphabetExact | src/shox96_0_2.cpp:168-494 | So, if all counts have a code, a text in the alphabet comes back if and only if no match of its run ends there |
| Guarantees.MatchingOffFaithful | src/shox96_0_2.cpp:37-38 | With matching off, every text in the alphabet is compressed soundly |
| Guarantees.FaithfulInAlphabet | src/shox96_0_2.cpp:267-289 | A text outside the alphabet is never compressed soundly, unless line matching is on and a line is outside it too |
| Guarantees.MatchingOffExact | src/shox96_0_2.cpp:37-38 | With matching off and all run lengths codable, exactly the texts in the alphabet come back, whatever the lines are |
| Guarantees.LockstepAt | src/shox96_0_2.cpp:185-490 | After any number of steps of a sound run whose counts have codes, the decoder fed the bits so far has read exactly them, has written the text so far and is in the same modes |
| Guarantees.StepSpan | src/shox96_0_2.cpp:185-228 | A step passes exactly the bytes its item stands for, and a step that passes none brings the character nearer |
| Guarantees.SpansCover | src/shox96_0_2.cpp:185-290 | The spans of the items are consecutive and sum to the length of the text |
| SizeBound.StepPaid | src/shox96_0_2.cpp:185-290 | Every step is paid for by 37 half bits a byte and by the debt, 5 in digit state |
| SizeBound.SizeAt | src/shox96_0_2.cpp:185-290 | After every step, 2 * ol plus the debt is at most 37 * l; at a loop head the debt is 5 in digit state and 0 otherwise |
| SizeBound.CompressedFits | src/shox96_0_2.cpp:291-296 | The padded text fits in 37 half bits a byte, rounded up to bytes |
| Limits.StaleText | src/shox96_0_2.cpp:209-211 | The text "xyzpqrabxyzpqrabaaaaa" is in the alphabet and does not come back |
| Limits.LongRunLost | src/shox96_0_2.cpp:87-95 | A run of 70313 or more letters a, without earlier lines, is compressed to bytes that the decompressor reads beyond |
| Limits.WithoutCodeLost | src/shox96_0_2.cpp:82-96 | A text whose first item with a count without a code is a run or copy token and its last item never comes back |
| Limits.AnyLongRunLost | src/shox96_0_2.cpp:87-95 | So no run of 70313 or more equal bytes, of any value, comes back when lines are not matched |
| Limits.SameLinesComeBack | src/shox96_0_2.cpp:145-159 | A line number without a code can do no harm: with more than 70308 equal lines a text equal to them comes back |
| Varint.VarintInverse | src/esp8266.cpp:30-52 | For every 64-bit value and any following bytes: at most ten bytes, decoding reads exactly these and gives the value |
| Varint.EncodeUnsignedVarint | src/esp8266.cpp:30-40 | Writes the LEB128 bytes of the value (section 7.6 of DWARF 5) and returns how many |
| Varint.DecodeUnsignedVarint | src/esp8266.cpp:42-52 | Returns the value of the bytes up to the first without a top bit, modulo 2^64, and their number |
| Varint.OrShifted | src/esp8266.cpp:47-48 | ORing seven shifted bits in, truncated to 64 bits, adds them |
| Varint.SizeRule | src/esp8266.cpp:46-50 | A number ends exactly at the first byte without a top bit |
| Varint.LebValueSnoc | src/esp8266.cpp:46-49 | One byte more adds its low seven bits, shifted by seven for each byte before it |
| SqlFunctions.Shox96c | src/esp8266.cpp:637-654 | The blob is the length as a varint and the compressed text |
| SqlFunctions.Shox96d | src/esp8266.cpp:656-682 | No value for every blob below two bytes, otherwise the decompressed rest |
| SqlFunctions.HeaderIsRoom | src/esp8266.cpp:672-680 | For every 64-bit header and every rest: the rest decompressed, if its length is within the low 32 bits of the header, whatever the header is otherwise |
| SqlFunctions.EndlessHeader | src/esp8266.cpp:672 | A header that does not end within the blob is read beyond it |
| SqlFunctions.BlobHeader | src/esp8266.cpp:648-673 | The decoded header is the length of the text and takes exactly its own bytes |
| SqlFunctions.SqlInverse | src/esp8266.cpp:637-682 | If all counts have a code, the blob of a text is decompressed to the text if and only if the text is not empty and its run was sound; the blob of the empty text gives no value |
| SqlFunctions.StoreAndLoad | src/esp8266.cpp:637-682 | Both functions one after the other give back every nonempty text whose counts have codes and whose run is sound, and no value for the empty text |
| SqlFunctions.AlphabetLoads | src/esp8266.cpp:637-682 | Such is every nonempty text of the alphabet below 70312 bytes without a trap |
| BlockStore.StoreChunkByte | src/esp8266.cpp:167-201 | A chunk changes exactly its own bytes, or none if its 64-byte window is blank |
| BlockStore.PushByte | src/esp8266.cpp:249-298 | A write changes exactly the bytes of its range, except those in blank chunks |
| BlockStore.PushByteSpelt | src/esp8266.cpp:167-201 | The byte at p stays if the 64 bytes of memory from the start of its chunk on are all zero, and becomes the buffer's otherwise; bytes outside the range stay |
| BlockStore.PushBlocks | src/esp8266.cpp:167-196 | A write stores exactly the blocks in which it has a chunk whose 64 bytes of memory are not all zero |
| BlockStore.PushIsFlat | src/esp8266.cpp:249-298 | A write acts as on a flat file if and only if the bytes under its blank chunks were zero |
| BlockStore.RunIsFlat | src/esp8266.cpp:249-298 | The cache is the flat file after every completed write of a run if and only if blank chunks only ever fell on zeros |
| BlockStore.AppendIsFlat | src/esp8266.cpp:172-173 | That is so for every append-only run |
| BlockStore.ZeroTail | src/esp8266.cpp:294-295 | At and beyond the end of the file, cache and flat file are zero |
| BlockStore.ZerosAreLost | src/esp8266.cpp:172-173 | A write of 1 and a write of 0 over it: the flat file has 0 there, the cache 1 |
| Chunks.BlockCount | src/esp8266.cpp:208-217 | The division and rounding give ceil((offset % 64 + len) / 64), below 2^16 |
| Chunks.ChunksCover | src/esp8266.cpp:217-242 | For len > 0, that many rounds cut the range into nonempty chunks within one block each, which together are the range |
| Chunks.CutStep | src/esp8266.cpp:222-230 | A round's chunk is the rest of the range or the rest of its block, and every later chunk starts at a block |
| Chunks.ChunkOfSeven | src/esp8266.cpp:284-286 | Which ranges have a chunk of seven bytes |
| Chunks.FirstOfSeven | src/esp8266.cpp:284-286 | Which chunk is the first of seven bytes, at which the push ends |
| FileCache.LeafDecides | src/esp8266.cpp:232-240 | The leaf that the search stops at is the block of the offset exactly if that block is stored |
| FileCache.InBlock | src/esp8266.cpp:237-239 | The quotient test on relablock is the test that the leaf is the block of the offset |
| FileCache.Cache.constructor | src/esp8266.cpp:394-397 | An empty cache of size 0 |
| FileCache.Cache.FindLeaf | src/esp8266.cpp:232-235 | The leaf is the last block not above the offset, or the first block; whether the search moved, which is what clears updateroot (lines 278-282) |
| FileCache.Cache.Malloc | src/esp8266.cpp:177-179 | An allocation fails exactly when no memory is left |
| FileCache.Cache.LinkedListStore | src/esp8266.cpp:167-201 | Sorted list and store after one chunk, when the window is blank, the block is there, or it is new; it fails if and only if a block is needed and there is no memory for it; a block in front of the leaf is only handed back |
| FileCache.Cache.SetRoot | src/esp8266.cpp:290-291 | Making the leaf the head keeps the list sorted and whole, with the block that was handed back in front |
| FileCache.Cache.PushChunk | src/esp8266.cpp:263-292 | A chunk has its effect exactly unless the allocation failed, or it is 7 bytes long, not blank, and its block would be new at the head of the list; with updateroot cleared no block is ever left out |
| FileCache.Cache.Push | src/esp8266.cpp:249-298 | Keeps the list sorted, acyclic and equal to the store, loses no block, and completes if and only if no allocation failed and no chunk is 7 bytes long; store, size, result and the number of bytes that took effect are determined for every outcome; an allocation fails only for a new block when no memory is left, and never if there was a block of memory for each chunk |
| FileCache.Cache.Pull | src/esp8266.cpp:203-247 | Every byte of the buffer is the stored byte, or what it was if its block is not stored |
| FileCache.PulledIsByte | src/esp8266.cpp:239-240 | A byte read is the byte of the file if and only if its block is stored or the buffer held zero |
| FileCache.Cache.Read | src/esp8266.cpp:321-333 | A byte read is the file's exactly if its block is stored or the buffer held zero, and stays as it was if its block is not stored; reads into a zeroed buffer give the flat file's slice, when the cache is the flat file |
| FileCache.Cache.Write | src/esp8266.cpp:335-346 | Success is reported whatever happens; the cache is as after a run that ends in a write of the bytes that took effect, and how many these are is determined unless an allocation failed |
| FileCache.Cache.FileSize | src/esp8266.cpp:355-362 | The recorded size |
| Journal.WrittenByte | src/esp8266.cpp:249-298 | A write of any length, seven-byte chunks included, changes exactly the bytes of its range that are neither in a blank chunk nor lost at a seven-byte chunk or behind it, unless an allocation fails |
| Journal.CompleteByte | src/esp8266.cpp:249-298 | After any run, a write that completes leaves the byte at p if the 64 bytes of memory from the start of its chunk on are zero, and puts the buffer's byte there otherwise |
| Journal.StoppedByte | src/esp8266.cpp:284-286 | The same for a write with a seven-byte chunk, up to that chunk; behind it nothing changes; the chunk itself is written exactly if some block up to its own is stored by then |
| Journal.WriteAround | src/esp8266.cpp:249-298 | Bytes outside the range stay; the size becomes the end of the range if that is greater and the write completes, also for a write of no bytes inside a block |
| Journal.BlockRule | src/esp8266.cpp:167-196 | Which blocks are stored after a write, in terms of its bytes |
| Journal.FileExactly | src/esp8266.cpp:249-298 | For every run of writes without a failed allocation: the cache is the flat file after each of them if and only if they only ever left out bytes that the file had already |
| Journal.CompleteRun | src/esp8266.cpp:294-295 | For nonempty writes without a seven-byte chunk, the size is the greatest end of a write and the store that of the run |
| Journal.CompleteHarmless | src/esp8266.cpp:172-173 | For these the only bytes left out are those of blank chunks |
| Journal.Replay | src/esp8266.cpp:203-362 | Any run of writes on an empty cache and a read of any range into a zeroed buffer, if no allocation failed, which none does with 2^16 blocks of memory for each write: size and bytes are determined, and the bytes are the flat file's if the writes left out only bytes it had |
| Journal.SevenBytesLost | src/esp8266.cpp:284-291 | Seven bytes written to an empty cache are reported as written, are not there, and the size stays 0 |

## Left out

- Decompressor.Decompress: not on bytes that no compressor wrote. The specification says `Crash` where the source would touch memory outside its buffers, and the method requires that this does not happen and that the output fits.
- Guarantees.RoundTripExact: assumes that every count has a code, and so do RoundTrip.Simulate, Lockstep.ReadsItem, Guarantees.LockstepAt, Guarantees.MatchingOffExact and SqlFunctions.SqlInverse. This cannot be moved to the other side of the equivalence: `Limits.SameLinesComeBack` is a family without codes that comes back. Where the first such item is a run or copy token and the last item, the text is lost (`Limits.WithoutCodeLost`); other texts that need a count of 70308 or more are not decided.
- The linked list of earlier lines is a sequence of byte strings, each up to its NUL, nearest first.
- Encoding.Step: one round of the source's loop may be several steps at one position, first the mode switches and then the character; `Compressor.EmitLiteral` joins them.
- SqlFunctions.Shox96d: requires that the blob does not make the source leave its buffers, which the blob of a nonempty text does not if its run is sound and its counts have codes.
- SqlFunctions.Shox96c: the output buffer has the proved amortised size; the size that the source computes at src/esp8266.cpp:647 can be too small, because several codes take 13 bits a byte.
- Matching through the 64K lookup table, which is compiled out.
- Codes wider than 16 bits and wrap-around of 32-bit ints: codes are natural numbers of which only the top 16-bit window is looked at, and lengths are natural numbers.
- Varint.DecodeUnsignedVarint: on data in which no number ends within ten bytes; the source would go on reading and shift by 64 and more.
- Chunks.BlockCount: the float is modelled as an exact real, and offset + len stays within 2^22 - 64, where floats are exact and block numbers fit 16 bits.
- FileCache.Cache.Push: the buffer is a byte sequence with 64 readable bytes behind its end, because the comparison with a blank block always reads 64; data are passed by value, so a buffer that aliases a block is not modelled.
- FileCache.Cache.Malloc: the allocator is a number of blocks that it can still give out; blocks that a push forgets are not counted back, and other users of the memory are not modelled.
- FileCache.Cache.Write: amount is not negative, as SQLite promises its files.
- The whole store as a map in `BlockStore` is a specification of the list, not an entity of the source.
- File system and flash back ends, disk methods, locks, truncation, sync, time and randomness, logging, `filecache_free`, and value types in the SQL interface: thin wrappers or stubs without a property of their own.

# iconv-lite codec core in Dafny

A model of the character-set codecs of an iconv-lite port, written as pure functions over
code units (`seq<Unit>`, 16-bit JavaScript string units) and bytes (`seq<Byte>`), with proofs
of what the code promises. It covers these parts:

- **The table-driven double-byte codec** (`encodings/dbcs-codec.js`):
  - the decode trie that the constructor builds from mapping chunks, in `DbcsTrie`, with the
    raw slot encoding in `DbcsTables`;
  - the encode table that is derived from the trie, in `DbcsEncodeTable`;
  - the constructor, including the GB18030 four-byte wiring, in `DbcsCodec` and `Gb18030`;
  - the streaming encoder, in `DbcsEncoder`;
  - the streaming decoder, in `DbcsDecoder`.
- **The single-byte codec's constructor and encoder** (`encodings/sbcs-codec.ts`), in `Sbcs`.
- **The UTF-16BE encoder and decoder** (`encodings/utf16.ts`), in `Utf16Be`.
- **The byte-order-mark wrappers** (`lib/bom-handling.ts`), in `Bom`. The inner codec is any
  state with `write`/`end` step functions, passed in as function values.
- **The helpers of `util/util.ts`**, in `Util`: the range binary search `findIdx`, the
  string/buffer conversions and the UTF-16 byte-order sniffer.

JavaScript arithmetic is written out in `Base`:

- `ToInt32` models 32-bit wrap-around.
- `Sar8`, `Sar16` and `Shl8` model the shifts `>>` and `<<`.
- `LowByte` models a `Uint8Array` store, which keeps the value modulo 256.
- `JsRem` models the truncating `%`.

Values the source computes as `NaN` or `undefined` appear as `None`, or as the 0 that a
`Uint8Array` store turns them into. Construction errors and other thrown exceptions are `Err`
values of a `Result`.

Trie slots stay raw integers, as in the source:

- `Classify` reads a raw slot as a code, UNASSIGNED, GB18030_CODE, a node pointer, a sequence
  index, or an invalid value.
- `Raw` is the inverse of `Classify`.

Keeping the raw values means a number run after a sequence slot counts on through the
sequence range, just as the source does.

Three discrepancies between the code and its evident intent are modelled both ways. They are
listed under "## Findings".

## Model

| member | source | states |
|---|---|---|
| Base.ToInt32 | encodings/dbcs-codec.js:214 | the result is the signed 32-bit value congruent to the input modulo 2^32, and a value already in range is kept |
| Base.Sar8 | encodings/dbcs-codec.js:158 | on a non-negative 32-bit value `x >> 8` is the quotient by 256, and it shrinks every positive value (so the address loop ends) |
| Base.Sar16 | encodings/dbcs-codec.js:339 | on a non-negative 32-bit value `x >> 16` is the quotient by 65536, which is the top byte of a three-byte code |
| Base.Shl8 | encodings/dbcs-codec.js:214 | `x << 8` is a signed 32-bit value, equal to `x * 256` while that fits |
| Base.LowByte | encodings/dbcs-codec.js:329-341 | a `Uint8Array` store gives a byte, and a value that is already a byte is stored as itself |
| Base.EmitUnit | encodings/dbcs-codec.js:451-452 | the little-endian byte pair `x & 0xFF`, `x >> 8` reads back as `x` itself for every code unit |
| Base.JsRem | encodings/dbcs-codec.js:318-322 | the remainder lies strictly between `-d` and `d`; for a non-negative dividend it agrees with Euclidean `%`, and for a negative one it is at most 0 and differs from the dividend by a multiple of `d`, so it takes the sign of the dividend |
| Bom.PrependWrite | lib/bom-handling.ts:16-23 | the first write hands U+FEFF followed by the string to the inner encoder and clears `addBOM`; later writes pass the string unchanged |
| Bom.PrependIsTransparentAfterFirst | lib/bom-handling.ts:16-27 | once the BOM has gone out, a series of writes and `end` gives exactly the inner encoder's outputs |
| Bom.PrependEnd | lib/bom-handling.ts:25-27 | no contract of its own; `Bom.PrependIsTransparentAfterFirst` and `Bom.PrependAddsOneBom` state that the wrapper's `end` is exactly the inner encoder's `end` |
| Bom.PrependAddsOneBom | lib/bom-handling.ts:7-28 | a fresh wrapper behaves as the inner encoder run on the same strings with U+FEFF in front of the first one only |
| Bom.PrependOnStatelessEncoder | lib/bom-handling.ts:16-27 | over a stateless, piecewise inner encoder, the whole output is the encoding of U+FEFF followed by the concatenated input |
| Bom.StripWrite | lib/bom-handling.ts:44-57 | an empty inner result is returned as is and keeps the wrapper waiting; the first non-empty result loses one leading U+FEFF when it has one, and only then calls back; `pass` is then set and later results pass unchanged |
| Bom.StripIsTransparentAfterPass | lib/bom-handling.ts:44-61 | once `pass` is set the wrapper returns the inner decoder's outputs and never calls back |
| Bom.StripEnd | lib/bom-handling.ts:59-61 | no contract of its own; `Bom.StripIsTransparentAfterPass` and `Bom.StripRemovesOneBom` state that the wrapper's `end` is exactly the inner decoder's `end` |
| Bom.StripRemovesOneBom | lib/bom-handling.ts:33-61 | however the input is split, a fresh wrapper returns the inner text with one leading U+FEFF removed exactly when the first non-empty write result starts with one, and calls back once in that case and never otherwise |
| Util.Narrow | util/util.ts:46-53 | the bisection keeps `table[l] <= val < table[r]` (with `r == |table|` as +infinity) and ends with `r == l + 1` |
| Util.FindIdx | util/util.ts:42-55 | -1 exactly when `val` lies below the first entry; otherwise the index brackets `val`; an empty table gives 0 |
| Util.FindIdxSplits | util/util.ts:42-55 | on an ascending table every entry up to the index is at most `val` and every later entry is above it |
| Util.FindIdxLoop | util/util.ts:42-55 | the `while` loop, with its own invariants, returns the same index as the recursive reading |
| Util.FindIdxCountsEntries | util/util.ts:42-55 | on an ascending table the result is the number of entries at most `val`, minus one (an independent definition) |
| Util.BracketIsUnique | util/util.ts:42-55 | on a strictly ascending table at most one index brackets `val`, so any bracketing search agrees with `findIdx` |
| Util.StrToBuf | util/util.ts:31-40 | every code unit becomes two bytes, so the buffer has twice the string's length |
| Util.StrToBufBytes | util/util.ts:31-40 | unit `i` fills byte `2i` with its low half and byte `2i+1` with its high half |
| Util.BufToStr | util/util.ts:23-29 | an even-length buffer gives half as many code units |
| Util.BufToStrUnits | util/util.ts:23-29 | unit `i` is byte `2i` plus 256 times byte `2i+1` |
| Util.BufToStrOfStrToBuf | util/util.ts:23-40 | converting a string to bytes and back gives the string |
| Util.StrToBufOfBufToStr | util/util.ts:23-40 | converting an even-length buffer to a string and back gives the buffer |
| Util.BufToStrAppend | util/util.ts:23-29 | the conversion of joined even-length buffers is the join of their conversions |
| Util.CountsShareThePairs | util/util.ts:70-76 | no byte pair looks like ASCII in both orders, so the two vote counts together are at most the number of sampled pairs |
| Util.DetectEncoding | util/util.ts:57-86 | fewer than two bytes give the default; FE FF gives UTF-16BE and FF FE gives UTF-16LE; without a BOM, more `00 xx` than `xx 00` pairs among the first min(even length, 64) bytes gives BE, fewer gives LE, and a tie gives the default (UTF-16LE when none is given) |
| Util.DefaultEncoding | util/util.ts:58 | the result is never empty, and a given non-empty default is kept as is |
| Util.AsciiPairsVoteBigEndian | util/util.ts:70-76 | when every sampled pair reads as big-endian ASCII, every pair votes big-endian and none votes little-endian |
| Utf16Be.BePairs | encodings/utf16.ts:69-72 | one unit per complete byte pair, and an odd final byte gives nothing |
| Utf16Be.BePairsUnits | encodings/utf16.ts:69-72 | unit `k` is 256 times byte `2k` plus byte `2k+1` |
| Utf16Be.BeBytesBytes | encodings/utf16.ts:28-36 | the big-endian serialisation puts the high byte of unit `k` at `2k` and the low byte at `2k+1` |
| Utf16Be.SwapPairs | encodings/utf16.ts:32-34 | the swap keeps the length; `Utf16Be.SwapOfStrToBuf` states its contents: applied to the little-endian buffer it gives the big-endian serialisation |
| Utf16Be.BePairsOfBeBytes | encodings/utf16.ts:28-36 | reading the big-endian serialisation gives back the string |
| Utf16Be.SwapOfStrToBuf | encodings/utf16.ts:28-36 | swapping the byte pairs of the little-endian buffer gives the big-endian serialisation |
| Utf16Be.EncoderWrite | encodings/utf16.ts:28-36 | the output has two bytes per unit, high byte first |
| Utf16Be.EncoderEnd | encodings/utf16.ts:38-40 | `end` writes nothing |
| Utf16Be.EncoderWriteSplits | encodings/utf16.ts:28-36 | the encoder keeps no state: writing a string in pieces gives the bytes of the whole |
| Utf16Be.SwapFromReadsPairs | encodings/utf16.ts:69-72 | the decoder's swap loop from byte `i` on reads the big-endian pairs of the rest of the chunk |
| Utf16Be.SwapFrom | encodings/utf16.ts:69-72 | the loop from byte `i` writes two bytes per complete pair left in the chunk; `Utf16Be.SwapFromReadsPairs` states that they read as the big-endian units of the rest |
| Utf16Be.Leftover | encodings/utf16.ts:74 | the unpaired byte is the last byte of an odd-length stream, and there is none otherwise |
| Utf16Be.DecoderWrite | encodings/utf16.ts:53-78 | the units are the big-endian pairs of the pending byte followed by the chunk, and the new pending byte is that stream's leftover; an empty chunk returns nothing and keeps the state |
| Utf16Be.BePairsAppend | encodings/utf16.ts:53-78 | reading two streams, the first of even length, gives the first's units followed by the second's |
| Utf16Be.DecoderWriteSplits | encodings/utf16.ts:53-78 | splitting a stream at any point between two writes gives the same text and the same final state as writing it whole |
| Utf16Be.DecoderEnd | encodings/utf16.ts:80-82 | `end` writes nothing, whatever byte is pending |
| Utf16Be.DecodeChunksReadsConcatenation | encodings/utf16.ts:53-82 | however a stream is cut into chunks, writing them and calling `end` gives the big-endian units of its complete pairs |
| Utf16Be.DecodeOfEncode | encodings/utf16.ts:28-78 | decoding the encoder's output gives back the string and leaves nothing pending |
| Sbcs.DefaultByte | encodings/sbcs-codec.ts:37-39 | a default whose first unit is below 0x100 is stored as that unit |
| Sbcs.AsciiPrefix | encodings/sbcs-codec.ts:23-28 | 128 units, unit `i` equal to `i` |
| Sbcs.LastIndexOf | encodings/sbcs-codec.ts:41-42 | `None` exactly when the unit is absent; otherwise the unit sits at that index and at no later one |
| Sbcs.BuildEncodeTable | encodings/sbcs-codec.ts:34-42 | the table has 65536 entries; entry `u` holds the last index of `u` in `chars`, or the default byte when `u` does not occur |
| Sbcs.EncodedByte | encodings/sbcs-codec.ts:37-42 | a unit that occurs in `chars` gets the last position holding it (no later position holds it); a unit that does not occur gets the default byte |
| Sbcs.NewCodec | encodings/sbcs-codec.ts:15-45 | fails without options and when `chars` is missing or neither 128 nor 256 units long; otherwise the table has 256 characters, with a 128-unit table completed by the ASCII units in front, and the reverse table is built from it |
| Sbcs.EncoderWrite | encodings/sbcs-codec.ts:60-67 | one byte per input unit |
| Sbcs.EncoderEnd | encodings/sbcs-codec.ts:69-71 | `end` writes nothing |
| Sbcs.EncoderWriteBytes | encodings/sbcs-codec.ts:60-67 | byte `i` is the last position of unit `i` in `chars`, or the default byte |
| Sbcs.EncodeThenLookUp | encodings/sbcs-codec.ts:34-67 | every unit the table contains survives the round trip: looking up its byte in `chars` gives the unit again |
| Sbcs.UnmappedUnitsGetTheDefault | encodings/sbcs-codec.ts:37-42 | a unit absent from `chars` encodes to the default byte |
| Sbcs.AsciiEncodesToItself | encodings/sbcs-codec.ts:23-42 | with a 128-unit table an ASCII unit encodes to itself unless the upper half also holds it, and then the later position wins |
| DbcsTables.Classify | encodings/dbcs-codec.js:412-442 | the reading follows the decoder's test order: codes (>= 0), UNASSIGNED, GB18030_CODE, node pointers (<= -1000), sequence indexes (<= -10), anything else invalid |
| DbcsTables.ClassifyRaw | encodings/dbcs-codec.js:8-10 | a tagged slot survives the trip through its raw value exactly when it is representable |
| DbcsTables.RawClassify | encodings/dbcs-codec.js:8-10 | every raw value is the raw value of its reading |
| DbcsTables.UnassignedNode | encodings/dbcs-codec.js:34 | a node of 256 UNASSIGNED slots |
| DbcsTables.WellFormedIsDecodable | encodings/dbcs-codec.js:204-218 | a trie the encode-table walk accepts is one the decoder can act on |
| Gb18030.EncodePointer | encodings/dbcs-codec.js:312-318 | `None` (no four-byte code) exactly when `findIdx` over `uChars` gives -1 |
| Gb18030.PointerBytes | encodings/dbcs-codec.js:316-323 | always four bytes, whatever the pointer |
| Gb18030.TokenPointer | encodings/dbcs-codec.js:422-424 | a pointer exists exactly when the token has at least four bytes, and only the first four count |
| Gb18030.PointerOf | encodings/dbcs-codec.js:424 | four bytes in the GB18030 ranges (lead and third byte 0x81..0xFE, second and fourth 0x30..0x39) give a pointer from 0 up to, not including, 126 * 12600; `Gb18030.TokenRoundTrip` and `Gb18030.PointerRoundTrip` state that it inverts the encoder's byte split |
| Gb18030.DecodePointer | encodings/dbcs-codec.js:425-426 | a code comes out only from a defined pointer whose `findIdx` over `gbChars` indexes both tables |
| Gb18030.PointerRoundTrip | encodings/dbcs-codec.js:318-322 | the bytes of a pointer below 126 * 12600 lie in the four-byte ranges, and the decoder's formula gives the pointer back |
| Gb18030.TokenRoundTrip | encodings/dbcs-codec.js:318-322 | every token in the four-byte ranges is written back as itself from its pointer |
| Gb18030.RangesRoundTrip | encodings/dbcs-codec.js:312-318 | with consistent ranges, a code point the encoder maps to a pointer is decoded from that pointer |
| Gb18030.PointersRoundTrip | encodings/dbcs-codec.js:425-426 | with consistent ranges, a pointer at or above the first range decodes to a code point the encoder maps back to it |
| DbcsTrie.AddrBytesAreDigits | encodings/dbcs-codec.js:95-99 | for an address below 2^31 the collected bytes are its base-256 digits, least significant first, with no leading zero |
| DbcsTrie.AddrBytes | encodings/dbcs-codec.js:96-97 | no contract of its own; `DbcsTrie.AddrBytesAreDigits` states that for an address below 2^31 it collects the base-256 digits, least significant first |
| DbcsTrie.AddrPath | encodings/dbcs-codec.js:95-99 | never empty, and an address of 0 or below gives the single byte 0 |
| DbcsTrie.Follow | encodings/dbcs-codec.js:100-112 | a read-only walk that reaches an existing node when it succeeds |
| DbcsTrie.Descend | encodings/dbcs-codec.js:100-112 | fails exactly when the walk meets an obstacle; otherwise the walk of the grown trie reaches the returned node, and only UNASSIGNED slots changed, each now pointing to an added node |
| DbcsTrie.GetDecodeTrieNode | encodings/dbcs-codec.js:94-114 | fails exactly when the walk along the address's upper bytes meets an obstacle; otherwise that walk reaches the returned node, and an address below 0x100 gives the root |
| DbcsTrie.HeadUnlexes | encodings/dbcs-codec.js:124-145 | the first token read from a string is valid and is written back as exactly the units it was read from |
| DbcsTrie.Lex | encodings/dbcs-codec.js:124-145 | no contract of its own; `DbcsTrie.LexThenUnlex` and `DbcsTrie.UnlexThenLex` state that its tokens write back to exactly the string it read, and that every string of valid tokens reads back as those tokens |
| DbcsTrie.UnlexReads | encodings/dbcs-codec.js:124-145 | a valid token written before any other units is read back as the first token, from the units it was written as |
| DbcsTrie.LexThenUnlex | encodings/dbcs-codec.js:124-145 | lexing gives valid tokens, and writing them out again gives back the string |
| DbcsTrie.UnlexThenLex | encodings/dbcs-codec.js:124-145 | every list of valid tokens is what its written form lexes to |
| DbcsTrie.WriteParts | encodings/dbcs-codec.js:122-153 | a successful loop leaves the cursor within the row or just past its end, as a JavaScript array store allows |
| DbcsTrie.WritePartsSplices | encodings/dbcs-codec.js:120-153 | the cursor-based loop writes exactly the values `ChunkValues` lists, one after another from the starting cursor, and appends exactly the sequences it lists; it fails when `ChunkValues` does |
| DbcsTrie.ChunkValues | encodings/dbcs-codec.js:122-151 | no contract of its own; `DbcsTrie.WritePartsSplices` states that the cursor loop writes exactly the values it lists and appends exactly the sequences it lists, and fails exactly when it does |
| DbcsTrie.SpliceAt | encodings/dbcs-codec.js:143 | the spliced row holds the values from the cursor on and its own values elsewhere |
| DbcsTrie.AddChunkWithLimit | encodings/dbcs-codec.js:115-156 | the chunk fails when the walk fails, when an element is bad, or when its cursor ends past the limit; otherwise its values occupy the node's slots from the address's low byte on, its sequences are appended, and nothing else changes |
| DbcsTrie.AddDecodeChunkAsWritten | encodings/dbcs-codec.js:115-156 | the end test as written; an accepted chunk keeps 256-slot rows and only adds nodes |
| DbcsTrie.AddDecodeChunk | encodings/dbcs-codec.js:115-156 | the intended end test; an accepted chunk keeps 256-slot rows and only adds nodes |
| DbcsTrie.LastSlotChunk | encodings/dbcs-codec.js:154-155 | a chunk filling slot 0xFF: as written it is rejected as too long; corrected, it stores the character in slot 0xFF |
| DbcsTrie.ChunkLandsInsideNode | encodings/dbcs-codec.js:115-156 | a chunk is accepted exactly when its elements are well formed and its cursor ends at or below the limit; its values then occupy the slots from the low byte on, in order, and no other slot of the node changes |
| DbcsTrie.AddChunks | encodings/dbcs-codec.js:37-38 | a successful loop keeps 256-slot rows and only adds nodes |
| DbcsTrie.AddChunksAppend | encodings/dbcs-codec.js:37-38 | adding two lists of chunks one after the other is adding their concatenation, and an error in the first list stops the loop |
| DbcsTrie.BuildTrie | encodings/dbcs-codec.js:34-38 | a built trie has a root and 256 slots in every node |
| DbcsEncodeTable.GetEncodeBucket | encodings/dbcs-codec.js:157-162 | creates the bucket of `u` when it is missing, and no slot's reading changes |
| DbcsEncodeTable.Lookup | encodings/dbcs-codec.js:305-307 | no contract of its own; `DbcsEncodeTable.GetEncodeBucket`, `DbcsEncodeTable.SetEncodeChar` and `DbcsEncodeTable.FirstMappingWins` state how each step of the table build changes what it reads |
| DbcsEncodeTable.SetEncodeChar | encodings/dbcs-codec.js:163-170 | an UNASSIGNED slot takes the code; a slot that starts a sequence gets the code as its DEF_CHAR; any other slot is kept, so the first mapping wins |
| DbcsEncodeTable.InsertPath | encodings/dbcs-codec.js:190-202 | the stored tree walks along the keys to a leaf holding the code |
| DbcsEncodeTable.StoredPath | encodings/dbcs-codec.js:190-199 | the traversal keys every intermediate step on the first code point, as written, then ends on the last |
| DbcsEncodeTable.SetEncodeSequence | encodings/dbcs-codec.js:171-203 | the first code point's slot names a tree (a fresh one takes a held code as its DEF_CHAR), and that tree holds the code at the end of the stored path; other buckets are unchanged |
| DbcsEncodeTable.ApplyAllAppend | encodings/dbcs-codec.js:204-218 | applying two lists of mappings in turn is applying their concatenation |
| DbcsEncodeTable.DfsMappings | encodings/dbcs-codec.js:204-218 | every mapping the walk produces is valid for the encode table, and none is for a skipped code |
| DbcsEncodeTable.FillIsFold | encodings/dbcs-codec.js:204-218 | the in-place recursion applies exactly the depth-first list of mappings, in order |
| DbcsEncodeTable.FillEncodeTable | encodings/dbcs-codec.js:204-218 | a successful fill leaves a valid table; `DbcsEncodeTable.FillIsFold` states that it applies exactly the depth-first mapping list |
| DbcsEncodeTable.FillSlot | encodings/dbcs-codec.js:206-216 | a successful slot leaves a valid table; `DbcsEncodeTable.FillSlotIsFold` states that it applies exactly that slot's mappings |
| DbcsEncodeTable.FillSlotIsFold | encodings/dbcs-codec.js:207-217 | one slot of the loop applies exactly that slot's mappings |
| DbcsEncodeTable.FillFromRoot | encodings/dbcs-codec.js:62 | the whole derivation from the root with prefix 0 is the fold of the depth-first list |
| DbcsEncodeTable.FirstMappingWins | encodings/dbcs-codec.js:163-170 | over single-character mappings, a slot that starts UNASSIGNED ends with the code of the first mapping for it, and a slot no mapping names keeps its value |
| DbcsEncodeTable.SlotStaysAfterAssigned | encodings/dbcs-codec.js:163-170 | once a slot holds a code, single-character mappings leave it alone |
| DbcsCodec.AddMappings | encodings/dbcs-codec.js:64-68 | one single-character mapping per `encodeAdd` entry, in order |
| DbcsCodec.DefCharSB | encodings/dbcs-codec.js:69-73 | fails without bucket 0; is defined exactly when the default's first unit is below 0x100 and its slot is assigned; the `'?'` fallback gives nothing |
| DbcsCodec.LinkSecondBytes | encodings/dbcs-codec.js:82-87 | succeeds exactly when every lead byte 0x81..0xFE has a node under it, and then gives the linked nodes |
| DbcsCodec.WireGb18030 | encodings/dbcs-codec.js:75-92 | succeeds exactly when every lead byte's root slot is a node; the wired trie has two more nodes and keeps 256-slot rows |
| DbcsCodec.WiredSlots | encodings/dbcs-codec.js:75-92 | old nodes keep their slots except the digit slots under a lead byte, which point to the third-byte node; the third-byte node points to the fourth under every lead byte; the fourth holds GB18030_CODE under every digit |
| DbcsCodec.WiredIsDecodable | encodings/dbcs-codec.js:75-92 | after the wiring every slot is one the decoder can act on |
| DbcsCodec.Gb18030PathsArrive | encodings/dbcs-codec.js:75-92 | every four-byte sequence lead, digit, lead, digit walks from the root to a GB18030_CODE slot |
| DbcsCodec.BuildEncodeTable | encodings/dbcs-codec.js:62-68 | the encode table is the fold of the depth-first mappings followed by the `encodeAdd` mappings |
| DbcsCodec.NewCodec | encodings/dbcs-codec.js:12-93 | fails without options or without a table; on success the chunks built a well-formed trie, the codec's trie is that trie (wired when GB18030 ranges are given) and decodable, and the encode table is the fold of the depth-first and `encodeAdd` mappings |
| DbcsEncoder.CodeBytes | encodings/dbcs-codec.js:328-342 | one byte below 0x100, two below 0x10000, three otherwise, whose big-endian value is the code; an undefined code gives three zero bytes |
| DbcsEncoder.PairSurrogates | encodings/dbcs-codec.js:247-276 | a step that yields a code other than UNASSIGNED holds no lead and replays nothing; a replay happens only after a held lead, and replays the character itself |
| DbcsEncoder.Iterate | encodings/dbcs-codec.js:235-343 | one pass keeps the state valid, and a pass that replays a character leaves fewer items pending, so the loop ends |
| DbcsEncoder.Feed | encodings/dbcs-codec.js:235-343 | the state stays valid through a character and every pass it replays; the replays end because each one lowers the rank that `DbcsEncoder.Iterate` states decreases |
| DbcsEncoder.Write | encodings/dbcs-codec.js:233-347 | the state stays valid; `DbcsEncoder.EncodeLoop` proves the imperative loop equal to it, `DbcsEncoder.WriteAppend` states that any split of the string gives the same bytes and state, and `DbcsEncoder.WriteAsWritten` gives the source's cut of its output |
| DbcsEncoder.WriteAppend | encodings/dbcs-codec.js:233-347 | splitting the input anywhere gives the same bytes and the same final state |
| DbcsEncoder.EncodeLoop | encodings/dbcs-codec.js:235-343 | the loop with `nextChar` replay computes `Write` |
| DbcsEncoder.End | encodings/dbcs-codec.js:348-375 | the state is cleared; nothing pending writes nothing; otherwise at most three bytes |
| DbcsEncoder.EndIsIdempotent | encodings/dbcs-codec.js:348-375 | a second `end` writes nothing |
| DbcsEncoder.EndAfterLead | encodings/dbcs-codec.js:369-373 | with only a lead pending, `end` writes one default byte |
| DbcsEncoder.EndAfterSequence | encodings/dbcs-codec.js:353-368 | with only a sequence pending, `end` writes its DEF_CHAR, high byte first, in one or two bytes |
| DbcsEncoder.PairIsOneCode | encodings/dbcs-codec.js:247-262 | a lead then a trail surrogate encodes like the astral code point they form |
| DbcsEncoder.LoneTrail | encodings/dbcs-codec.js:263-268 | a trail with no lead writes the single-byte default |
| DbcsEncoder.SecondLead | encodings/dbcs-codec.js:251-256 | a second lead writes the default and becomes the pending lead |
| DbcsEncoder.CharAfterLead | encodings/dbcs-codec.js:270-276 | another character after a lead writes the default, then encodes as if no lead had been there |
| DbcsEncoder.LeafMatched | encodings/dbcs-codec.js:278-291 | with a sequence pending, a character reaching a leaf writes the leaf's code and ends the sequence |
| DbcsEncoder.UnmatchedUsesDef | encodings/dbcs-codec.js:292-303 | a character with no entry writes the tree's DEF_CHAR and is encoded afresh |
| DbcsEncoder.UnmatchedWithoutDef | encodings/dbcs-codec.js:292-303 | without a DEF_CHAR the sequence is dropped, the default is written and the character is consumed |
| DbcsEncoder.SequenceEncodes | encodings/dbcs-codec.js:278-311 | a stored two-character sequence encodes to the leaf's code |
| DbcsEncoder.DirectCode | encodings/dbcs-codec.js:304-311 | a character the table maps to a code encodes to that code's bytes |
| DbcsEncoder.Gb18030Fallback | encodings/dbcs-codec.js:312-326 | an unmapped character the ranges cover encodes to four bytes in the four-byte ranges that the decoder turns back into the character |
| DbcsEncoder.WriteAsWritten | encodings/dbcs-codec.js:234-346 | the as-written output is the full output cut to 3 bytes per character (4 with GB18030) |
| DbcsEncoder.LeadThenWideCode | encodings/dbcs-codec.js:234-346 | after a pending lead, one character of a three-byte code writes four bytes, and as written the last is lost |
| DbcsEncoder.LeadThenCharKeepsAllBytes | encodings/dbcs-codec.js:270-342 | the growable output keeps the default byte and then all of the character's own bytes |
| DbcsDecoder.CodeUnits | encodings/dbcs-codec.js:443-452 | a code above 0xFFFF gives a lead and trail surrogate pair, a unit gives itself, and `NaN` gives unit 0 |
| DbcsDecoder.SurrogatesRoundTrip | encodings/dbcs-codec.js:443-450 | decoding a surrogate pair's code gives the pair back |
| DbcsDecoder.SeqUnitsAgree | encodings/dbcs-codec.js:432-440 | the loop's reading of a sequence slot gives the sequence itself |
| DbcsDecoder.RenderAppend | encodings/dbcs-codec.js:408-456 | writing two runs of characters writes the first's units, then the second's |
| DbcsDecoder.Render | encodings/dbcs-codec.js:443-452 | no contract of its own; `DbcsDecoder.RenderAppend` states that it distributes over concatenation and `DbcsDecoder.SurrogatesRoundTrip` that a code above 0xFFFF becomes the pair that reads back to it |
| DbcsDecoder.Step | encodings/dbcs-codec.js:409-455 | a round either descends, keeping the sequence open, or finishes one character and starts the next sequence later |
| DbcsDecoder.Window | encodings/dbcs-codec.js:405-406 | the kept bytes are a prefix of the open sequence, and the whole of it when the chunk is long enough or at most 10 bytes |
| DbcsDecoder.Write | encodings/dbcs-codec.js:402-460 | the state stays valid, and the kept bytes are at most the previous ones plus the chunk |
| DbcsDecoder.LoopBytes | encodings/dbcs-codec.js:409-424 | the byte and GB18030 token the loop reads, through `prevBuf` at negative indexes, are those of the joined data |
| DbcsDecoder.Round | encodings/dbcs-codec.js:409-455 | one turn of the loop is one `Step` and writes that character's units |
| DbcsDecoder.DecodeLoop | encodings/dbcs-codec.js:402-460 | the loop with its `i = seqStart` resynchronisation computes `Write` |
| DbcsDecoder.WriteAsWritten | encodings/dbcs-codec.js:403-459 | the as-written output is the full output cut to one unit per input byte |
| DbcsDecoder.AstralByteIsCut | encodings/dbcs-codec.js:403-459 | one byte that decodes to an astral character: the full output is a surrogate pair, the as-written output only the lead |
| DbcsDecoder.End | encodings/dbcs-codec.js:461-476 | the state becomes fresh; nothing kept writes nothing; otherwise the output starts with the default character |
| DbcsDecoder.EndThenEnd | encodings/dbcs-codec.js:461-476 | a second `end` writes nothing |
| DbcsDecoder.EndOfOneByte | encodings/dbcs-codec.js:461-476 | one kept byte ends as the default character alone |
| DbcsDecoder.WalkNodes | encodings/dbcs-codec.js:428-431 | bytes that walk through node slots only finish nothing and move the walk to the node reached |
| DbcsDecoder.Scan | encodings/dbcs-codec.js:408-456 | the open sequence starts within the data and the walk stays on an existing node; `DbcsDecoder.DecodeLoop` proves the imperative loop equal to `DbcsDecoder.Write`, which is built on it, and `DbcsDecoder.ScanSuffix`, `DbcsDecoder.ScanPrefix` and `DbcsDecoder.ScanJoin` state how it continues across a split |
| DbcsDecoder.ScanSuffix | encodings/dbcs-codec.js:408-456 | scanning data after a prefix is scanning the data alone, shifted |
| DbcsDecoder.ScanPrefix | encodings/dbcs-codec.js:408-456 | scanning a prefix then continuing over the rest is scanning the whole |
| DbcsDecoder.FreshKeepsTail | encodings/dbcs-codec.js:458 | a fresh decoder keeps a suffix of the chunk |
| DbcsDecoder.OpenSequenceIsKept | encodings/dbcs-codec.js:428-458 | a chunk that only descends writes nothing, keeps all its bytes and stays in the node reached |
| DbcsDecoder.CharacterDecodes | encodings/dbcs-codec.js:412-455 | bytes leading to a code slot decode to that code, as one unit or a surrogate pair, and leave the decoder fresh |
| DbcsDecoder.SequenceDecodes | encodings/dbcs-codec.js:432-440 | bytes leading to a sequence slot decode to all units of the sequence |
| DbcsDecoder.Gb18030Decodes | encodings/dbcs-codec.js:421-427 | bytes leading to a GB18030 slot decode to the code the ranges give for their pointer |
| DbcsDecoder.UnassignedResyncs | encodings/dbcs-codec.js:415-420 | a sequence reaching an UNASSIGNED slot writes one default unit and decoding restarts at its second byte |
| DbcsDecoder.ScanJoin | encodings/dbcs-codec.js:405-458 | scanning joined data is scanning the first part, then its kept bytes joined with the second |
| DbcsDecoder.WriteSplit | encodings/dbcs-codec.js:402-460 | when the 10-byte window keeps the open sequence whole, splitting the input between two writes gives the same units and final state |

## Left out

- The UTF-7 codec, the encoding index, the SBCS decoder (whose table construction, line 30 of
  `encodings/sbcs-codec.ts`, gives an empty buffer), the `Utf16Codec` with BOM detection and
  `writeBuf` are not part of this model.
- I/O, `ArrayBuffer` allocation and exceptions become sequences and `Err` values. Typed
  arrays are read with little-endian host byte order.
- `concatBuf` (`util/util.ts:1-21`) as written allocates `NaN` bytes and copies nothing. The
  decoder's use of it at line 406 of `encodings/dbcs-codec.js` is modelled as plain
  concatenation, the evident intent.
- Default characters (`defaultCharUnicode`, `defaultCharSingleByte`) are modelled as single
  code units. The decoder writes the first unit on an UNASSIGNED slot and the whole string at
  `end`.
- DbcsTrie.WriteParts: a number element at cursor 0, which the source handles by reading slot -1
  (`NaN`) and storing `NaN`s, is a construction error (`RunAtNodeStart`). DbcsTrie.ChunkValues reports
  the same error.
- DbcsTrie.Lex: a sequence marker that announces more units than the string holds is a construction
  error (`TruncatedSequence`). The source reads past the string's end and stores `NaN` units.
- DbcsCodec.NewCodec: a trie that is not WellFormed after the chunks fails with `MalformedTrie`. This
  covers the values -2..-9, `NaN`, node pointers that do not lead forward, and sequence
  indexes past the table, where the source would loop or crash later. Missing options give
  `NoOptions`, although the source reads `encodingName` from them first (line 19) and so
  fails with a TypeError. A missing bucket 0 for `defCharSB`, also a TypeError in the
  source, is the error `NoSingleByteBucket`.
- DbcsCodec.DefCharSB: follows the code at line 71, where an UNASSIGNED value falls back to
  the bucket's `'?'` property. Arrays have no such property, so the result is undefined.
- DbcsEncodeTable.StoredPath: follows the code at lines 190-199, which keys every
  intermediate step on the first code point. The sequence's own code points, the evident
  intent, are not used there.
- DbcsEncoder.UnmatchedWithoutDef: follows the code rather than the TODO comment at lines
  296-299.
- DbcsDecoder.WriteSplit: proved only when the 10-byte window (`buf.slice(0, 10)`, line 406)
  keeps the open sequence whole. A longer open sequence loses bytes in the source, which the
  model reproduces in `Window`.
- DbcsDecoder.End: the writes it makes inside use the growable `Write`, not the
  as-written cut output.
- DbcsTrie.AddChunks: uses the end test as written (`AddDecodeChunkAsWritten`), so every
  construction lemma is about the code as written. The corrected `AddDecodeChunk` is proved
  about on its own.

## Findings

| source | as written | input that shows it | evidently intended | confidence | as-written member | corrected member |
|---|---|---|---|---|---|---|
| encodings/dbcs-codec.js:154-155 | the test `curAddr > 0xFF` runs after the last store, so a chunk whose last character lands in slot 0xFF ends with `curAddr == 0x100` and is rejected as too long | chunk `["ff", "A"]`: address 0xFF, one character | reject only chunks that store past slot 0xFF (`curAddr > 0x100`) | medium, not executed | DbcsTrie.LastSlotChunk | DbcsTrie.ChunkLandsInsideNode |
| encodings/dbcs-codec.js:234-346 | the encoder's output buffer holds 3 bytes per input character (4 with GB18030); a `Uint8Array` drops stores past its end, and `slice(0, j)` cannot restore them | a pending lead surrogate, then one character of a three-byte code: 4 bytes are written into a 3-byte buffer | keep every byte the loop writes | high, not executed | DbcsEncoder.LeadThenWideCode | DbcsEncoder.LeadThenCharKeepsAllBytes |
| encodings/dbcs-codec.js:403-459 | the decoder's output buffer holds one code unit per input byte, and stores past its end are dropped | one byte that decodes to an astral character, whose two surrogate units do not fit a one-unit buffer | keep every unit the loop writes | high, not executed | DbcsDecoder.AstralByteIsCut | DbcsDecoder.CharacterDecodes |

# Shannon–Fano file compressor, modelled in Dafny

This project models the codec core of a small C++ file compressor. The core is the `FileCompressor`
class. It compresses a file in four steps:

1. It counts how often each byte occurs.
2. It sorts the occurrence table by descending count.
3. It builds Shannon–Fano codes by recursively splitting the sorted table into two halves of about
   equal weight. Every symbol in the left half gets a `0` appended and every symbol in the right half a `1`.
4. It writes an archive made of a code table followed by a payload.

The code table is a count byte, then one entry per symbol: the symbol byte, the bit length, and the
code's bits packed MSB first. The payload is the bit total as a `size_t` in host byte order (modelled as
8 little-endian bytes), then the input re-encoded through the code table and packed MSB first. Decompression reads the table back, turns it
into a code-to-symbol map, and scans the payload bit by bit, emitting a symbol whenever the pending
bits match a code.

Modules:

- `Bits`: bits and bytes, MSB-first packing and unpacking, and the little-endian width-8 integer.
- `Frequency`: the occurrence table (`Occurrence` rows), counting (`Tally`), and the descending sort.
- `Fano`: the greedy split, the clamp, the code paths it assigns, and the code table it builds (`CodeTable`).
- `Archive`: the code-table section, written (`TableBytes`) and read (`ParseTable`).
- `Payload`: the payload section, the reverse map, and the bit-by-bit scan.
- `Codec`: the whole archive and the end-to-end round trip.
- `Compressor`: the `FileCompressor` class with fields `occurrences`, `occurSum` and `codes`, its
  methods, and the loops of the source as module-level methods over plain values.

The class's methods are proved against the functions of the other modules. The properties are proved
about those functions. The main results are:

- Counting gives each byte its exact multiplicity.
- Sorting is a permutation with non-increasing counts.
- The code table built for distinct symbols has exactly those keys, code lengths between 1 and
  max(1, n-1), and is prefix-free.
- Writing and then reading the code table gives the table back (at most 255 entries, codes of at most
  255 bits).
- A table of all 256 symbols is written with count byte 0 and read back as an empty table.
- Encoding and then decoding the payload gives the input back.
- Compressing and then decompressing gives the input back, for inputs with at most 255 distinct bytes
  that are shorter than 2^56 bytes.

Files are byte sequences. Reading a file is a parameter, and writing one is a returned sequence.
`std::unordered_map` iteration order is unspecified, so every method that iterates `codes` returns the
order it used as an `order` out-parameter. Its contract says only that this order lists each key exactly
once (`IsEnumeration`). Every result that depends on the order is proved for all such orders.

Where the documented behaviour of this program and its code differ, the code is followed, as below.

- The sort is `std::sort` by count alone, so ties are in no guaranteed order. The model specifies
  the sort by "permutation and non-increasing counts" and fixes no tie order.
- A single distinct symbol gets the one-bit code `[false]`, not an empty code. `do_Fano_Algorithm`
  labels the whole table's single row with a `0` and returns without recursing
  (`src/FileCompressor.cpp:61-64`).
- A table with 256 entries is written with count byte 0 and not rejected (`Archive.FullAlphabetLost`).
- When two symbols share a code, the reverse map keeps the one visited last. No error is raised.
- A payload shorter than its bit total ends decoding silently. The model's `DecodePayload` scans only the
  bits that are present.

## Model

| member | source | states |
|---|---|---|
| Bits.Pack | src/FileCompressor.cpp:179-192 | packing n bits takes exactly ceil(n/8) bytes |
| Bits.UnpackPack | src/FileCompressor.cpp:179-192 | unpacking packed bits gives the bits back followed by zero padding up to the byte boundary |
| Bits.PackRoundTrip | src/FileCompressor.cpp:250-258 | the first n unpacked bits of a packed n-bit sequence are that sequence |
| Bits.NextBit | src/FileCompressor.cpp:300-303 | bit 8i+j of an unpacked stream is bit j (MSB first) of byte i |
| Bits.PackingPush | src/FileCompressor.cpp:181-188 | one step of the writer loop (OR the bit in at 7-bitPos, flush a full byte) keeps the buffer below 256 and the written bytes plus buffer equal to the packing of the bits seen |
| Bits.PackingFlush | src/FileCompressor.cpp:190-192 | flushing a non-empty buffer after the loop yields exactly the packing of all bits written |
| Bits.LittleEndianRoundTrip | src/FileCompressor.cpp:284-285 | reading back the width-w little-endian bytes of any n < 256^w gives n |
| Bits.PackByte | src/FileCompressor.cpp:179-188 | defines one written byte: the chunk's bits from the most significant bit down, the remaining low bits zero |
| Bits.Unpack | src/FileCompressor.cpp:254-258 | defines the reader's view of bytes as bits, each byte most significant bit first; its contract gives 8 bits per byte |
| Bits.LittleEndian | src/FileCompressor.cpp:213 | defines the bit total's header bytes: the low `width` bytes of the value, least significant first, higher bytes dropped |
| Bits.PackingBitClear | src/FileCompressor.cpp:182 | in the writer loop the bit about to be OR-ed in is still clear in the buffer, so the OR is the addition the model performs |
| Frequency.FindSymbol | src/FileCompressor.cpp:111-114 | the index found is the first row holding the byte, or the table size when no row does |
| Frequency.Bump | src/FileCompressor.cpp:111-120 | defines reading one byte: increment the first row holding it, or append a row with count 1 |
| Frequency.Tally | src/FileCompressor.cpp:106-123 | defines the table after reading the whole input byte by byte from a given table |
| Frequency.BumpCount | src/FileCompressor.cpp:115-120 | counting one byte raises that byte's count by one and leaves every other count unchanged |
| Frequency.TallyFacts | src/FileCompressor.cpp:106-123 | counting more input keeps the table well formed (distinct symbols, counts at least 1), adds the input length to the count sum and adds exactly the input's bytes to the symbol set |
| Frequency.TallyCount | src/FileCompressor.cpp:106-123 | after counting, each byte's count is its old count plus its multiplicity in the input |
| Frequency.CountedTable | src/FileCompressor.cpp:106-123 | counting from an empty table gives distinct rows for exactly the input's bytes, each with its multiplicity (at least 1), summing to the input length |
| Frequency.SortByCount | src/FileCompressor.cpp:144-149 | the sorted table has non-increasing counts and the same length |
| Frequency.SortPermutes | src/FileCompressor.cpp:144-149 | the sorted table is a permutation of the input table |
| Frequency.SortKeepsTable | src/FileCompressor.cpp:144-149 | sorting keeps the table well formed, with the same symbols and the same count sum |
| Fano.GreedyFrom | src/FileCompressor.cpp:72-76 | the greedy cut is the longest prefix whose count sum stays within half the sum handed to the call: one more row would exceed it |
| Fano.Greedy | src/FileCompressor.cpp:72-76 | defines the greedy cut of a span against half the sum handed to the call (not recomputed from the span), before the clamp |
| Fano.Clamp | src/FileCompressor.cpp:80-81 | the clamped cut leaves both halves non-empty and leaves an in-range cut unchanged |
| Fano.HalfSums | src/FileCompressor.cpp:77-78 | defines the sums passed to the two recursive calls: the greedy prefix's sum and the rest of the given sum, both taken before the clamp |
| Fano.Paths | src/FileCompressor.cpp:68-88 | defines the bits each row of a span receives from one call and all calls below it: nothing for a single row, otherwise 0 or 1 by half, followed by the row's path inside its half |
| Fano.TopPaths | src/FileCompressor.cpp:58-67 | defines the entry point's bits: none for an empty table, the single bit 0 for one row, otherwise the paths of the whole table with its total |
| Fano.Extend | src/FileCompressor.cpp:155-160 | defines appending a suffix to each row's code in row order, creating absent codes as empty first |
| Fano.CodeTable | src/FileCompressor.cpp:58-89 | defines the code table the entry point builds from an empty map |
| Fano.SplitFacts | src/FileCompressor.cpp:72-81 | the cut of a table of at least two rows is between 1 and size-1, the greedy prefix weighs at most half of the sum handed to the call, and the two half sums add up to that sum (`vecSum`), which in nested calls is the parent's half sum and need not be the span's own count sum |
| Fano.PathsLengths | src/FileCompressor.cpp:68-88 | for a table of at least two rows every assigned code has between 1 and size-1 bits |
| Fano.PathsPrefixFree | src/FileCompressor.cpp:68-88 | no code the recursion assigns within a table is a prefix of another row's code |
| Fano.ExtendRow | src/FileCompressor.cpp:155-160 | labelling a table appends each row's suffix to that symbol's code and creates the entry when the suffix is non-empty |
| Fano.ExtendOther | src/FileCompressor.cpp:155-160 | labelling a table leaves the codes of symbols outside it untouched |
| Fano.ExtendSplit | src/FileCompressor.cpp:83-87 | labelling the left half with 0, the right half with 1, and recursing into both equals appending to every row its half's bit followed by its path inside the half |
| Fano.SingleRow | src/FileCompressor.cpp:70 | the recursion on a single row changes no code |
| Fano.SplitPasses | src/FileCompressor.cpp:72-87 | one level of the recursion (greedy cut, clamp, two labellings, two recursive calls) appends to each row exactly its path |
| Fano.CodeTableShape | src/FileCompressor.cpp:58-89 | the code table built from distinct symbols has exactly those symbols as keys; each code is the row's path of 1 to max(1, n-1) bits; an empty table gives no codes and a single symbol gets the code 0 |
| Fano.CodeTablePrefixFree | src/FileCompressor.cpp:58-89 | the code table built from distinct symbols is prefix-free |
| Archive.EnumerationSize | src/FileCompressor.cpp:174 | a loop over the map visits as many entries as the map holds |
| Archive.EntryBytes | src/FileCompressor.cpp:175-192 | a table entry takes two bytes plus ceil(bits/8) bytes of code |
| Archive.TableBytes | src/FileCompressor.cpp:170-194 | defines the table section: the count modulo 256, then each entry in the map's iteration order |
| Archive.CountByte | src/FileCompressor.cpp:171-172 | the table holds at most 256 entries and its first byte is their number, with 256 written as 0 |
| Archive.FullAlphabetLost | src/FileCompressor.cpp:239-243 | a table of all 256 symbols is written with count byte 0 and read back as the empty table |
| Archive.ParseEntry | src/FileCompressor.cpp:244-259 | defines reading one entry: symbol, bit count, then ceil(count/8) bytes whose first count bits are the code; Truncated when the stream ends first |
| Archive.ParseEntries | src/FileCompressor.cpp:243-261 | defines reading n entries one after another; the Truncated failure of any entry is the failure of all |
| Archive.Store | src/FileCompressor.cpp:260 | defines storing the entries in turn into the map, a repeated symbol keeping its last code |
| Archive.ParseTable | src/FileCompressor.cpp:238-262 | defines loading: read the count byte and that many entries into an emptied map; the rest of the archive is the payload |
| Archive.ParseEntryOutcome | src/FileCompressor.cpp:244-259 | reading an entry fails exactly when the stream is shorter than the two header bytes plus the code's bytes; otherwise it takes exactly those bytes |
| Archive.ParseEntryRoundTrip | src/FileCompressor.cpp:244-260 | reading a written entry whose code has at most 255 bits gives it back and leaves the rest of the stream |
| Archive.ParseEntriesSnoc | src/FileCompressor.cpp:243-261 | reading one more entry extends the entries read, or fails when that entry is cut short |
| Archive.ParseEntriesFailMore | src/FileCompressor.cpp:243-261 | once reading n entries fails, reading more fails too |
| Archive.ParseEntriesRoundTrip | src/FileCompressor.cpp:174-193 | reading back any written sequence of entries (codes of at most 255 bits) gives the same entries and the rest of the stream |
| Archive.StoreSnoc | src/FileCompressor.cpp:260 | storing one more entry overwrites that symbol's code |
| Archive.StoreRebuilds | src/FileCompressor.cpp:241-260 | storing into an empty map the entries of a table, listed in any enumeration of its keys, rebuilds the table |
| Archive.TableRoundTrip | src/FileCompressor.cpp:238-262 | for at most 255 codes of at most 255 bits, reading the written table (in any iteration order) gives the same table and the bytes after it |
| Payload.FirstMissing | src/FileCompressor.cpp:208-211 | the position found is the first input byte without a code, or the input length when every byte has one |
| Payload.Encoded | src/FileCompressor.cpp:215-228 | defines the payload bits: the codes of the input bytes in input order |
| Payload.EncodeData | src/FileCompressor.cpp:201-232 | defines the payload section: NoCode for the first byte without a code, otherwise the bit total modulo 2^64 in 8 bytes and the packed bits |
| Payload.EncodedSnoc | src/FileCompressor.cpp:215-228 | encoding one more byte appends its code |
| Payload.EncodedBound | src/FileCompressor.cpp:210 | with codes of at most 255 bits the encoding has at most 255 bits per input byte |
| Payload.EncodeDataOutcome | src/FileCompressor.cpp:201-232 | encoding fails exactly when some input byte has no code, naming the first such byte; otherwise the payload is 8 header bytes plus ceil(bits/8) bytes |
| Payload.Invert | src/FileCompressor.cpp:270-272 | defines the reverse-map loop: for each key in iteration order, map its code to it, overwriting an earlier symbol with the same code |
| Payload.Reverse | src/FileCompressor.cpp:268-274 | defines the reverse map built from an empty map |
| Payload.InvertSound | src/FileCompressor.cpp:268-274 | every entry of the reverse map maps a symbol's code back to that symbol |
| Payload.ReverseKeepsLast | src/FileCompressor.cpp:270-272 | the reverse map sends a code to the symbol that the iteration visits last among those with that code |
| Payload.ReverseInverts | src/FileCompressor.h:71-75 | for a table whose codes are pairwise distinct, the reverse map built in any iteration order sends every code back to its symbol, and every entry it holds is the code of the symbol it maps to |
| Payload.ReverseDecodes | src/FileCompressor.cpp:268-274 | for a prefix-free table of non-empty codes, the reverse map (in any iteration order) holds every code, maps it to its symbol, and holds no proper prefix of a code |
| Payload.Step | src/FileCompressor.cpp:300-310 | defines one bit of the decoder: append it to the pending bits; if they form a known code, emit its symbol and clear them |
| Payload.ScanFrom | src/FileCompressor.cpp:294-311 | defines the decoder after reading a bit string one bit at a time |
| Payload.ScanFromAppend | src/FileCompressor.cpp:294-311 | scanning two bit strings one after the other equals scanning their concatenation |
| Payload.ScanCode | src/FileCompressor.cpp:300-310 | scanning one symbol's code from an empty pending buffer emits exactly that symbol and empties the buffer |
| Payload.ScanEncoded | src/FileCompressor.cpp:294-311 | scanning the encoding of an input emits exactly that input and leaves no pending bits |
| Payload.DecodePayload | src/FileCompressor.cpp:280-312 | defines decoding: the 8-byte bit total, then the scan of at most that many bits, stopping silently where the payload ends |
| Payload.PayloadFields | src/FileCompressor.cpp:213-231 | the first 8 payload bytes read back as the bit count and the packed bytes unpack to the encoded bits |
| Payload.PayloadRoundTrip | src/FileCompressor.cpp:280-312 | decoding the payload written for an input gives the input back, when every code is found by the reverse map and the bit total fits in 64 bits |
| Codec.ArchiveTable | src/FileCompressor.cpp:44-50 | the archive of an input under its Shannon–Fano table (at most 255 symbols) is written without error, and reading its table gives the table back followed by the payload |
| Codec.ArchiveBytes | src/FileCompressor.cpp:44-50 | defines the archive: the table section followed by the payload section, or the payload's NoCode failure |
| Codec.Restore | src/FileCompressor.cpp:12-21 | defines decompression of an archive: load the table, build the reverse map, decode the rest |
| Codec.ArchiveRoundTrip | src/FileCompressor.h:106-117 | decompressing the archive of an input gives the input back, for any iteration orders on either side, at most 255 distinct bytes and an input shorter than 2^56 bytes |
| Compressor.PushBits | src/FileCompressor.cpp:219-227 | the bit-writer loop keeps the packing invariant over all bits pushed |
| Compressor.PackCode | src/FileCompressor.cpp:179-192 | the per-entry writer loop and its flush emit exactly the MSB-first packing of the code |
| Compressor.TakeByteBits | src/FileCompressor.cpp:254-258 | one byte contributes its next bits MSB first, stopping at the bit count |
| Compressor.ReadCodeBits | src/FileCompressor.cpp:248-259 | reading a code of b bits takes ceil(b/8) bytes and returns their first b bits, or fails with Truncated when the stream is too short |
| Compressor.ReadEntry | src/FileCompressor.cpp:244-259 | reading one table entry agrees with `ParseEntry` |
| Compressor.WriteTableEntries | src/FileCompressor.cpp:174-193 | the entry loop writes the entries of the table in the iteration order |
| Compressor.CountBits | src/FileCompressor.cpp:205-211 | the counting pass gives the encoded length modulo 2^64, or fails at the first byte without a code (where `codes.at` throws) |
| Compressor.PackEncoded | src/FileCompressor.cpp:215-231 | the second pass writes exactly the packing of the input's encoding |
| Compressor.FileCompressor.constructor | src/FileCompressor.h:29-34 | a new compressor has no occurrences, a zero sum and no codes |
| Compressor.FileCompressor.CountOccurrences | src/FileCompressor.cpp:106-123 | the table becomes the tally of the input over the old table, the sum grows by the input length, and the class invariant is kept |
| Compressor.FileCompressor.FindRow | src/FileCompressor.cpp:111-114 | the scan finds the first row holding the byte, or the table size |
| Compressor.FileCompressor.SortOccurrences | src/FileCompressor.cpp:144-149 | the table becomes a permutation of itself with non-increasing counts, keeping the invariant |
| Compressor.FileCompressor.SupplementCodes | src/FileCompressor.cpp:155-160 | the bit is appended to the code of every symbol of the span and to no other code |
| Compressor.FileCompressor.GreedyCut | src/FileCompressor.cpp:72-76 | the loop computes the greedy cut and the count sum before it |
| Compressor.FileCompressor.FanoSplit | src/FileCompressor.cpp:68-88 | the recursion on a span appends to each of its symbols its Shannon–Fano path and changes no other code |
| Compressor.FileCompressor.DoFanoAlgorithm | src/FileCompressor.cpp:58-89 | the codes are extended by the whole table's paths, and from an empty code map they become `CodeTable` of the sorted table |
| Compressor.FileCompressor.IterationOrder | src/FileCompressor.cpp:174 | iterating the code map visits each key exactly once |
| Compressor.FileCompressor.WriteCodeTable | src/FileCompressor.cpp:170-194 | the table section written is `TableBytes` for the order the map was iterated in |
| Compressor.FileCompressor.WriteEncodedData | src/FileCompressor.cpp:201-232 | the payload written is `EncodeData` of the input, including the failure on a byte without code |
| Compressor.FileCompressor.SaveArchived | src/FileCompressor.cpp:44-50 | the archive is the table section followed by the payload |
| Compressor.FileCompressor.Compress | src/FileCompressor.cpp:31-36 | the compressor counts, sorts and builds codes (occurrences a non-increasing permutation of the tally, symbols and sum updated) and returns the archive of the input |
| Compressor.FileCompressor.LoadArchived | src/FileCompressor.cpp:238-262 | loading fails with Truncated exactly when the table cannot be read; otherwise the codes become the table read and the rest of the archive is returned |
| Compressor.FileCompressor.MakeCodeToSymbolMap | src/FileCompressor.cpp:268-274 | the reverse map is `Reverse` of the codes for the order the map was iterated in |
| Compressor.FileCompressor.DecodeBitstream | src/FileCompressor.cpp:280-312 | the bytes emitted are `DecodePayload` of the payload under the reverse map |
| Compressor.FileCompressor.Decompress | src/FileCompressor.cpp:12-21 | decompression is `Restore` of the archive, and a readable table replaces the codes |
| Compressor.CompressDecompress | src/FileCompressor.h:106-117 | a fresh compressor's archive of an input, decompressed by a fresh compressor, gives the input back (at most 255 distinct bytes, input shorter than 2^56 bytes) |

## Left out

- File opening, reading and writing, and `check_file_opened`: files are byte sequences passed in and returned. A failure to open a file is not modelled.
- `print_codes` and the echo of each decoded symbol to standard output inside `decode_bitstream`: console output only.
- `main.cpp` and `cmd_flags.cpp` (the command line and timing): these are not part of this model.
- The payload's bit total is written as a raw `size_t` in host byte order. The model fixes its width to 8 bytes and its byte order to little-endian, which is the 64-bit little-endian case.
- The `size_t` width of the counts and of `occur_sum`: modelled as unbounded naturals, because overflowing them would take 2^64 input bytes. The bit total of the payload does wrap modulo 2^64, as in the source.
- The initial bucket count `codes{ASCII}` of the unordered map: it affects performance only.
- The tie order of `std::sort` and the iteration order of `std::unordered_map`: both are left unspecified. Every property is proved for all orders.
- `supplement_codes` with an empty optional: no caller passes one, so the branch is dead and not modelled.
- `compress` reads the input file twice, once to count and once to encode. The model passes the same bytes to both reads, so it does not model a file that changes in between.
- Compressor.FileCompressor.WriteEncodedData: when a byte has no code, the source throws from `codes.at` after the table section is already in the file. The model returns `Failure(NoCode(b))` and no partial archive. This can only happen when the codes were not built from this input.
- Compressor.FileCompressor.LoadArchived: on `Failure(Truncated)` the contract says nothing about `codes`. The source leaves the entries read before the stream ended, plus any entry built from indeterminate bytes.
- Compressor.FileCompressor.LoadArchived: a stream that ends inside the table is reported as `Failure(Truncated)`. The source goes on with indeterminate values from failed reads.
- Compressor.FileCompressor.DecodeBitstream: a payload shorter than its 8-byte bit total is reported as `Failure(Truncated)`. The source leaves `totalBits` uninitialised and then stops at the end of the stream.
- Compressor.FileCompressor.FanoSplit: requires the span's symbols to be distinct. The source does not check this, but it always holds for spans of a counted table.
- Compressor.FileCompressor.DoFanoAlgorithm: requires the class invariant (distinct symbols, counts at least 1, `occurSum` equal to the count sum). Counting establishes the invariant and every method keeps it.
- Compressor.FileCompressor.Compress: requires the class invariant, for the same reason.
- Codec.ArchiveRoundTrip: proved only for at most 255 distinct bytes and inputs shorter than 2^56 bytes. With 256 distinct bytes the count byte wraps to 0 and the table is lost (`Archive.FullAlphabetLost`). The 2^56 bound keeps the bit total below 2^64.
- Compressor.CompressDecompress: the same bounds as `Codec.ArchiveRoundTrip`.

/**
 * The compressor object. It keeps the frequency table, the total number of
 * bytes counted, and the code table; compressing counts the input, sorts the
 * table, builds the codes and writes the archive, and decompressing reads the
 * code table back and decodes the payload. File contents are passed in and
 * returned as byte sequences.
 */
module Compressor {
  import opened Bits
  import opened Frequency
  import opened Fano
  import opened Archive
  import opened Payload
  import opened Codec

  /**
   * The bit loop of both writers: sets each bit of `bits` in the buffer, most
   * significant bit first, and emits the buffer to `out` whenever it fills.
   */
  method PushBits(out: seq<byte>, buffer: int, bitPos: nat, ghost written: seq<bool>, bits: seq<bool>)
    returns (out': seq<byte>, buffer': int, bitPos': nat)
    requires Packing(out, buffer, bitPos, written)
    ensures Packing(out', buffer', bitPos', written + bits)
  {
    out', buffer', bitPos' := out, buffer, bitPos;
    var j := 0;
    ghost var seen := written;
    while j < |bits|
      invariant 0 <= j <= |bits|
      invariant seen == written + bits[..j]
      invariant Packing(out', buffer', bitPos', seen)
    {
      PackingPush(out', buffer', bitPos', seen, bits[j]);
      buffer' := buffer' + Shl(BitValue(bits[j]), 7 - bitPos');
      bitPos' := bitPos' + 1;
      if bitPos' == 8 {
        out' := out' + [buffer'];
        buffer' := 0;
        bitPos' := 0;
      }
      assert written + bits[..j + 1] == seen + [bits[j]];
      seen := seen + [bits[j]];
      j := j + 1;
    }
    assert bits[..j] == bits;
  }

  /** The bit loop of the table writer for one code, and the flush of its last byte. */
  method PackCode(bits: seq<bool>) returns (packed: seq<byte>)
    ensures packed == Pack(bits)
  {
    PackingStart();
    var buffer, bitPos;
    packed, buffer, bitPos := PushBits([], 0, 0, [], bits);
    assert [] + bits == bits;
    PackingFlush(packed, buffer, bitPos, bits);
    if bitPos != 0 {
      packed := packed + [buffer];
    }
  }

  /**
   * The bit loop of the table loader for one byte: appends its bits, most
   * significant first, until the byte is used up or `bitCount` bits are read.
   */
  method TakeByteBits(byte: byte, bits: seq<bool>, bitsRead: nat, bitCount: nat)
    returns (bits': seq<bool>, bitsRead': nat)
    requires bitsRead == |bits| < bitCount
    ensures bitsRead' == (if bitsRead + 8 <= bitCount then bitsRead + 8 else bitCount)
    ensures bits' == bits + ByteBits(byte)[..bitsRead' - bitsRead]
  {
    bits', bitsRead' := bits, bitsRead;
    var b := 0;
    while b < 8 && bitsRead' < bitCount
      invariant 0 <= b <= 8
      invariant bitsRead' == bitsRead + b <= bitCount
      invariant bits' == bits + ByteBits(byte)[..b]
    {
      ByteBitsAt(byte, b);
      assert ByteBits(byte)[..b + 1] == ByteBits(byte)[..b] + [BitAt(byte, b)];
      bits' := bits' + [BitAt(byte, b)];
      bitsRead' := bitsRead' + 1;
      b := b + 1;
    }
  }

  /**
   * The code reader of the table loader: takes bytes off `stream` one at a
   * time and their bits, most significant first, until `bitCount` bits are
   * read. Fails when the stream ends first.
   */
  method ReadCodeBits(stream: seq<byte>, bitCount: byte) returns (r: Result<(seq<bool>, seq<byte>)>)
    ensures var size := (bitCount as nat + 7) / 8;
      if |stream| < size then r == Failure(Truncated)
      else r == Success((Unpack(stream[..size])[..bitCount], stream[size..]))
  {
    var bits: seq<bool> := [];
    var bitsRead := 0;
    var rest := stream;
    ghost var size := (bitCount as nat + 7) / 8;
    assert bitCount as nat <= 8 * size < bitCount as nat + 8;
    ghost var nb := 0;
    while bitsRead < bitCount
      invariant 0 <= nb <= |stream| && nb <= size && rest == stream[nb..]
      invariant bitsRead == |bits| <= bitCount
      invariant bitsRead < bitCount ==> bitsRead == 8 * nb
      invariant bitsRead == bitCount as nat ==> nb == size
      invariant bits == Unpack(stream[..nb])[..bitsRead]
    {
      if |rest| == 0 {
        return Failure(Truncated);
      }
      var byte := rest[0];
      rest := rest[1..];
      ghost var before := Unpack(stream[..nb]);
      assert stream[..nb + 1] == stream[..nb] + [byte];
      UnpackAppend(stream[..nb], [byte]);
      UnpackOne(byte);
      nb := nb + 1;
      bits, bitsRead := TakeByteBits(byte, bits, bitsRead, bitCount as nat);
      assert Unpack(stream[..nb])[..bitsRead] == before + ByteBits(byte)[..bitsRead - |before|];
    }
    return Success((bits, rest));
  }

  /**
   * The entry loop of the table writer: for each symbol in `order`, the
   * symbol, the code length as one byte and the packed code.
   */
  method WriteTableEntries(codes: map<byte, seq<bool>>, order: seq<byte>) returns (out: seq<byte>)
    requires forall k :: 0 <= k < |order| ==> order[k] in codes
    ensures out == WriteEntries(EntriesOf(codes, order))
  {
    out := [];
    var k := 0;
    while k < |order|
      invariant 0 <= k <= |order|
      invariant out == WriteEntries(EntriesOf(codes, order)[..k])
    {
      var symbol := order[k];
      var bits := codes[symbol];
      var packed := PackCode(bits);
      WriteTableStep(codes, order, k);
      out := out + ([symbol, |bits| % 256] + packed);
      k := k + 1;
    }
    assert EntriesOf(codes, order)[..k] == EntriesOf(codes, order);
  }

  /**
   * The first loop of the payload writer: looks up the code of every input
   * byte, failing on the first byte without one, and adds up the code
   * lengths modulo 2^64.
   */
  method CountBits(codes: map<byte, seq<bool>>, input: seq<byte>) returns (r: Result<nat>)
    ensures FirstMissing(codes, input) < |input| ==> r == Failure(NoCode(input[FirstMissing(codes, input)]))
    ensures FirstMissing(codes, input) == |input| ==> r == Success(|Encoded(codes, input)| % SizeLimit)
  {
    var totalBits := 0;
    var i := 0;
    while i < |input|
      invariant 0 <= i <= |input|
      invariant forall j :: 0 <= j < i ==> input[j] in codes
      invariant totalBits == |Encoded(codes, input[..i])| % SizeLimit
    {
      var ch := input[i];
      if ch !in codes {
        assert FirstMissing(codes, input) == i;
        return Failure(NoCode(ch));
      }
      assert input[..i + 1] == input[..i] + [ch];
      EncodedSnoc(codes, input[..i], ch);
      WrapAdd(|Encoded(codes, input[..i])|, |codes[ch]|);
      totalBits := (totalBits + |codes[ch]|) % SizeLimit;
      i := i + 1;
    }
    assert input[..i] == input;
    return Success(totalBits);
  }

  /**
   * The second loop of the payload writer: the codes of the input bytes,
   * one after the other, packed into bytes, the last one zero-padded.
   */
  method PackEncoded(codes: map<byte, seq<bool>>, input: seq<byte>) returns (packed: seq<byte>)
    requires forall j :: 0 <= j < |input| ==> input[j] in codes
    ensures packed == Pack(Encoded(codes, input))
  {
    PackingStart();
    var buffer: int, bitPos: nat;
    packed, buffer, bitPos := [], 0, 0;
    var i := 0;
    while i < |input|
      invariant 0 <= i <= |input|
      invariant Packing(packed, buffer, bitPos, Encoded(codes, input[..i]))
    {
      var bits := codes[input[i]];
      packed, buffer, bitPos := PushBits(packed, buffer, bitPos, Encoded(codes, input[..i]), bits);
      assert input[..i + 1] == input[..i] + [input[i]];
      EncodedSnoc(codes, input[..i], input[i]);
      i := i + 1;
    }
    assert input[..i] == input;
    PackingFlush(packed, buffer, bitPos, Encoded(codes, input));
    if bitPos != 0 {
      packed := packed + [buffer];
    }
  }

  /**
   * One entry of the table loader: the symbol byte, the code length byte,
   * then the code's bits. Fails when the stream ends first.
   */
  method ReadEntry(stream: seq<byte>) returns (r: Result<(Entry, seq<byte>)>)
    ensures r == ParseEntry(stream)
  {
    if |stream| < 2 {
      return Failure(Truncated);
    }
    var symbol, bitCount := stream[0], stream[1];
    var read := ReadCodeBits(stream[2..], bitCount);
    if read.Failure? {
      return Failure(Truncated);
    }
    ghost var size := (bitCount as nat + 7) / 8;
    assert stream[2..][..size] == stream[2..2 + size] && stream[2..][size..] == stream[2 + size..];
    return Success((Entry(symbol, read.value.0), read.value.1));
  }

  class FileCompressor {
    /** The frequency table: (symbol, count) rows. */
    var occurrences: seq<Occurrence>
    /** The number of bytes counted. */
    var occurSum: nat
    /** The code of each symbol. */
    var codes: map<byte, seq<bool>>

    /** One row per distinct symbol, each counting at least one byte, adding up to the bytes counted. */
    ghost predicate Valid()
      reads this
    {
      WellFormed(occurrences) && occurSum == SumCounts(occurrences)
    }

    constructor ()
      ensures occurrences == [] && occurSum == 0 && codes == map[]
      ensures Valid()
    {
      occurrences := [];
      occurSum := 0;
      codes := map[];
    }

    // -------------------------------------------------------------------------
    // Compression

    /**
     * Counts the bytes of `input` into the table: a byte already in the table
     * bumps its row, a new byte gets a row with count 1 at the end.
     */
    method CountOccurrences(input: seq<byte>)
      modifies this
      ensures occurrences == Tally(old(occurrences), input)
      ensures occurSum == old(occurSum) + |input|
      ensures codes == old(codes)
      ensures old(Valid()) ==> Valid()
    {
      var i := 0;
      while i < |input|
        invariant 0 <= i <= |input|
        invariant occurrences == Tally(old(occurrences), input[..i])
        invariant occurSum == old(occurSum) + i
        invariant codes == old(codes)
      {
        var character := input[i];
        var j := FindRow(character);
        if j < |occurrences| {
          occurrences := occurrences[j := Occurrence(character, occurrences[j].count + 1)];
        } else {
          occurrences := occurrences + [Occurrence(character, 1)];
        }
        occurSum := occurSum + 1;
        assert input[..i + 1][..i] == input[..i];
        i := i + 1;
      }
      assert input[..i] == input;
      if old(Valid()) {
        TallyFacts(old(occurrences), input);
      }
    }

    /** The `find_if` lookup: the index of the first row for `c`, or the table size when there is none. */
    method FindRow(c: byte) returns (j: nat)
      ensures j == FindSymbol(occurrences, c)
    {
      j := 0;
      while j < |occurrences| && occurrences[j].symbol != c
        invariant 0 <= j <= |occurrences|
        invariant forall k :: 0 <= k < j ==> occurrences[k].symbol != c
      {
        j := j + 1;
      }
    }

    /**
     * Sorts the table by count, most frequent first. Rows with equal counts
     * may end up in any order.
     */
    method SortOccurrences()
      modifies this
      ensures multiset(occurrences) == multiset(old(occurrences))
      ensures NonIncreasing(occurrences)
      ensures Symbols(occurrences) == Symbols(old(occurrences))
      ensures occurSum == old(occurSum) && codes == old(codes)
      ensures old(Valid()) ==> Valid()
    {
      var sorted := SortByCount(occurrences);
      SortPermutes(occurrences);
      if Valid() {
        SortKeepsTable(occurrences);
      }
      PermutationSymbols(occurrences, sorted);
      occurrences := sorted;
    }

    /** Appends `bit` to the code of every row of `span`, creating empty codes first where needed. */
    method SupplementCodes(span: seq<Occurrence>, bit: bool)
      modifies this
      ensures codes == Extend(old(codes), span, Constant(|span|, [bit]))
      ensures occurrences == old(occurrences) && occurSum == old(occurSum)
    {
      var k := 0;
      while k < |span|
        invariant 0 <= k <= |span|
        invariant codes == Extend(old(codes), span[..k], Constant(k, [bit]))
        invariant occurrences == old(occurrences) && occurSum == old(occurSum)
      {
        var symbol := span[k].symbol;
        assert span[..k + 1][..k] == span[..k];
        assert Constant(k + 1, [bit])[..k] == Constant(k, [bit]);
        codes := codes[symbol := Get(codes, symbol) + [bit]];
        k := k + 1;
      }
      assert span[..k] == span;
    }

    /**
     * The greedy scan of one call: takes rows while the running count stays
     * within half of `vecSum`, and yields the cut and the count taken.
     */
    method GreedyCut(span: seq<Occurrence>, vecSum: nat) returns (i: nat, sumCur: nat)
      ensures i == Greedy(span, vecSum) && sumCur == PrefixSum(span, i)
    {
      sumCur := 0;
      i := 0;
      while i < |span| && sumCur + span[i].count <= vecSum / 2
        invariant 0 <= i <= |span|
        invariant sumCur == PrefixSum(span, i) <= vecSum / 2
        invariant GreedyFrom(span, vecSum / 2, i) == Greedy(span, vecSum)
      {
        sumCur := sumCur + span[i].count;
        i := i + 1;
      }
    }

    /**
     * One call on a span with at least one row: with a single row nothing
     * happens; otherwise cut greedily, clamp the cut, append `false` to the
     * left half and `true` to the right half, and recurse on both halves with
     * the sums taken before the clamp. Every row ends up with its path
     * appended.
     */
    method FanoSplit(span: seq<Occurrence>, vecSum: nat)
      requires |span| >= 1 && DistinctSymbols(span)
      modifies this
      ensures codes == Extend(old(codes), span, Paths(span, vecSum))
      ensures occurrences == old(occurrences) && occurSum == old(occurSum)
      decreases |span|
    {
      if |span| == 1 {
        SingleRow(codes, span, vecSum);
        return;
      }
      var i, sumCur := GreedyCut(span, vecSum);
      var leftSum := sumCur;
      var rightSum := vecSum - leftSum;
      assert (leftSum, rightSum) == HalfSums(span, vecSum);
      if i == 0 {
        i := 1;
      }
      if i >= |span| {
        i := |span| - 1;
      }
      assert i == Clamp(Greedy(span, vecSum), |span|);
      DistinctSlice(span, 0, i);
      DistinctSlice(span, i, |span|);
      ghost var start := codes;
      assert |span[..i]| == i && |span[i..]| == |span| - i;
      SupplementCodes(span[..i], false);
      ghost var c1 := codes;
      SupplementCodes(span[i..], true);
      ghost var c2 := codes;
      FanoSplit(span[..i], leftSum);
      ghost var c3 := codes;
      FanoSplit(span[i..], rightSum);
      SplitPasses(start, span, vecSum, c1, c2, c3, codes);
    }

    /**
     * The entry point of the code builder: a table of at most one row gets
     * `false` appended to its code; otherwise the whole table is split with
     * the total count.
     */
    method DoFanoAlgorithm()
      requires Valid()
      modifies this
      ensures codes == Extend(old(codes), occurrences, TopPaths(occurrences, occurSum))
      ensures old(codes) == map[] ==> codes == CodeTable(occurrences, occurSum)
      ensures occurrences == old(occurrences) && occurSum == old(occurSum)
      ensures Valid()
    {
      if |occurrences| <= 1 {
        assert Constant(|occurrences|, [false]) == TopPaths(occurrences, occurSum);
        SupplementCodes(occurrences, false);
        return;
      }
      FanoSplit(occurrences, occurSum);
    }

    /**
     * One iteration order of the code table: the range-for over the hash map
     * visits every key once, in an order the program does not control.
     */
    method IterationOrder() returns (order: seq<byte>)
      ensures IsEnumeration(order, codes.Keys)
    {
      var rest := codes.Keys;
      order := [];
      while rest != {}
        invariant rest <= codes.Keys
        invariant IsEnumeration(order, codes.Keys - rest)
        decreases |rest|
      {
        var s :| s in rest;
        order := order + [s];
        rest := rest - {s};
      }
    }

    // -------------------------------------------------------------------------
    // Writing the archive

    /**
     * The code table: the number of codes as one byte, then for each symbol,
     * in the map's iteration order, the symbol, the code length as one byte
     * and the code packed into bytes, the last one zero-padded.
     */
    method WriteCodeTable() returns (out: seq<byte>, order: seq<byte>)
      ensures IsEnumeration(order, codes.Keys)
      ensures out == TableBytes(codes, order)
    {
      order := IterationOrder();
      var entries := WriteTableEntries(codes, order);
      out := [|codes| % 256] + entries;
    }

    /**
     * The payload: looks up the code of every input byte first, failing on
     * the first byte without one, while adding up the bit total modulo 2^64;
     * then writes the total as 8 little-endian bytes and the codes packed
     * into bytes, the last one zero-padded.
     */
    method WriteEncodedData(input: seq<byte>) returns (r: Result<seq<byte>>)
      ensures r == EncodeData(codes, input)
    {
      var total := CountBits(codes, input);
      if total.Failure? {
        return Failure(total.error);
      }
      var header := LittleEndian(total.value, 8);
      var packed := PackEncoded(codes, input);
      r := Success(header + packed);
    }

    /** The archive: the code table, then the payload. */
    method SaveArchived(input: seq<byte>) returns (r: Result<seq<byte>>, order: seq<byte>)
      ensures IsEnumeration(order, codes.Keys)
      ensures r == ArchiveBytes(codes, order, input)
    {
      var table;
      table, order := WriteCodeTable();
      var data := WriteEncodedData(input);
      if data.Failure? {
        r := Failure(data.error);
      } else {
        r := Success(table + data.value);
      }
    }

    /**
     * Compression: count the input into the table, sort it, build the codes
     * and write the archive.
     */
    method Compress(input: seq<byte>) returns (r: Result<seq<byte>>, order: seq<byte>)
      requires Valid()
      modifies this
      ensures Valid()
      ensures multiset(occurrences) == multiset(Tally(old(occurrences), input))
      ensures NonIncreasing(occurrences)
      ensures Symbols(occurrences) == Symbols(old(occurrences)) + SymbolsIn(input)
      ensures occurSum == old(occurSum) + |input|
      ensures codes == Extend(old(codes), occurrences, TopPaths(occurrences, occurSum))
      ensures IsEnumeration(order, codes.Keys)
      ensures r == ArchiveBytes(codes, order, input)
    {
      TallyFacts(occurrences, input);
      CountOccurrences(input);
      SortOccurrences();
      DoFanoAlgorithm();
      r, order := SaveArchived(input);
    }

    // -------------------------------------------------------------------------
    // Reading the archive

    /**
     * Reads the code table: the count byte, then that many entries, each
     * stored under its symbol (a later entry for the same symbol wins), into
     * an emptied table. Yields what is left of the archive. Fails when the
     * archive ends inside the table.
     */
    method LoadArchived(archive: seq<byte>) returns (r: Result<seq<byte>>)
      modifies this
      ensures ParseTable(archive).Failure? ==> r == Failure(Truncated)
      ensures ParseTable(archive).Success? ==>
        r == Success(ParseTable(archive).value.1) && codes == ParseTable(archive).value.0
      ensures occurrences == old(occurrences) && occurSum == old(occurSum)
    {
      if |archive| == 0 {
        codes := map[];
        return Failure(Truncated);
      }
      var tableSize := archive[0];
      codes := map[];
      var stream := archive[1..];
      ghost var entries: seq<Entry> := [];
      var i := 0;
      while i < tableSize
        invariant 0 <= i <= tableSize
        invariant ParseEntries(archive[1..], i) == Success((entries, stream))
        invariant codes == Store(map[], entries)
        invariant occurrences == old(occurrences) && occurSum == old(occurSum)
      {
        ParseEntriesSnoc(archive[1..], i, entries, stream);
        var entry := ReadEntry(stream);
        if entry.Failure? {
          ParseEntriesFailMore(archive[1..], i + 1, tableSize);
          return Failure(Truncated);
        }
        var e := entry.value.0;
        codes := codes[e.symbol := e.code];
        StoreSnoc(map[], entries, e);
        entries := entries + [e];
        stream := entry.value.1;
        i := i + 1;
      }
      return Success(stream);
    }

    /** The reverse map: for each symbol, in the map's iteration order, its code maps to it. */
    method MakeCodeToSymbolMap() returns (rev: map<seq<bool>, byte>, order: seq<byte>)
      ensures IsEnumeration(order, codes.Keys)
      ensures rev == Reverse(codes, order)
    {
      order := IterationOrder();
      rev := map[];
      var k := 0;
      while k < |order|
        invariant 0 <= k <= |order|
        invariant Invert(rev, codes, order[k..]) == Reverse(codes, order)
      {
        var symbol := order[k];
        assert order[k..][1..] == order[k + 1..];
        rev := rev[codes[symbol] := symbol];
        k := k + 1;
      }
    }

    /**
     * Decodes the payload: reads the bit total, then reads bits one at a
     * time (a new byte whenever the last one is used up) until the total is
     * reached or the payload ends, emitting a symbol and clearing the buffer
     * whenever the buffered bits are a code.
     */
    method DecodeBitstream(payload: seq<byte>) returns (r: Result<seq<byte>>, order: seq<byte>)
      ensures IsEnumeration(order, codes.Keys)
      ensures r == DecodePayload(Reverse(codes, order), payload)
    {
      var rev;
      rev, order := MakeCodeToSymbolMap();
      if |payload| < 8 {
        return Failure(Truncated), order;
      }
      var totalBits := FromLittleEndian(payload[..8]);
      ghost var data := payload[8..];
      ghost var bitsIn := Unpack(data);
      var stream := payload[8..];
      var out: seq<byte> := [];
      var pending: seq<bool> := [];
      var byte: byte := 0;
      var bitPos := 8;
      var bitsRead := 0;
      ghost var nb := 0;
      while bitsRead < totalBits
        invariant 0 <= nb <= |data| && stream == data[nb..]
        invariant 1 <= bitPos <= 8 && 8 * nb == bitsRead + 8 - bitPos
        invariant nb >= 1 ==> byte == data[nb - 1]
        invariant bitsRead <= totalBits
        invariant ScanState(out, pending) == ScanFrom(rev, ScanState([], []), bitsIn[..bitsRead])
      {
        if bitPos == 8 {
          if |stream| == 0 {
            break;
          }
          byte := stream[0];
          stream := stream[1..];
          bitPos := 0;
          nb := nb + 1;
        }
        var bit := BitAt(byte, bitPos);
        ScanNextBit(rev, ScanState([], []), data, nb - 1, bitPos, bitsRead);
        ghost var next := Step(rev, ScanState(out, pending), bit);
        pending := pending + [bit];
        if pending in rev {
          out := out + [rev[pending]];
          pending := [];
        }
        assert ScanState(out, pending) == next;
        bitPos := bitPos + 1;
        bitsRead := bitsRead + 1;
      }
      r := Success(out);
    }

    /** Decompression: load the code table, then decode the payload that follows it. */
    method Decompress(archive: seq<byte>) returns (r: Result<seq<byte>>, order: seq<byte>)
      modifies this
      ensures r == Restore(archive, order)
      ensures ParseTable(archive).Success? ==>
        codes == ParseTable(archive).value.0 && IsEnumeration(order, codes.Keys)
      ensures occurrences == old(occurrences) && occurSum == old(occurSum)
    {
      var rest := LoadArchived(archive);
      if rest.Failure? {
        return Failure(rest.error), [];
      }
      r, order := DecodeBitstream(rest.value);
    }
  }

  /**
   * A fresh compressor's archive of `input`, read by a fresh decompressor,
   * gives `input` back, when the input has at most 255 distinct bytes and
   * fewer than 2^56 bytes.
   */
  method CompressDecompress(input: seq<byte>) returns (restored: Result<seq<byte>>)
    requires |SymbolsIn(input)| <= 255 && |input| < 0x100_0000_0000_0000
    ensures restored == Success(input)
  {
    var compressor := new FileCompressor();
    var archive, order := compressor.Compress(input);
    var occ, occurSum := compressor.occurrences, compressor.occurSum;
    SymbolCount(occ);
    ArchiveTable(input, occ, occurSum, order);
    var decompressor := new FileCompressor();
    var order';
    restored, order' := decompressor.Decompress(archive.value);
    ArchiveRoundTrip(input, occ, occurSum, order, order');
  }
}

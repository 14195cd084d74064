/**
 * The archive as a whole: the code table followed by the payload, and the
 * decompressor's reading of it, with the round trip that ties the two.
 */
module Codec {
  import opened Bits
  import opened Frequency
  import opened Fano
  import opened Archive
  import opened Payload

  /**
   * The archive written for `input` with code table `codes`, visited in
   * `order`. Fails, with no payload, when an input byte has no code.
   */
  function ArchiveBytes(codes: map<byte, seq<bool>>, order: seq<byte>, input: seq<byte>): Result<seq<byte>>
  {
    match EncodeData(codes, input)
    case Failure(e) => Failure(e)
    case Success(payload) => Success(TableBytes(codes, order) + payload)
  }

  /**
   * The decompressed bytes of `archive`: read the table, turn it around
   * (iterating the table read in `order`), decode the payload that follows.
   */
  function Restore(archive: seq<byte>, order: seq<byte>): Result<seq<byte>>
  {
    match ParseTable(archive)
    case Failure(e) => Failure(e)
    case Success((codes, rest)) => DecodePayload(Reverse(codes, order), rest)
  }

  /** The symbols of a table with distinct symbols, listed row by row, enumerate its symbol set. */
  lemma SymbolCount(occ: seq<Occurrence>)
    requires DistinctSymbols(occ)
    ensures |Symbols(occ)| == |occ|
  {
    var order := seq(|occ|, k requires 0 <= k < |occ| => occ[k].symbol);
    assert forall k :: 0 <= k < |occ| ==> order[k] == occ[k].symbol;
    forall s | s in Symbols(occ) ensures s in order {
      var k :| 0 <= k < |occ| && occ[k].symbol == s;
      assert order[k] == s;
    }
    EnumerationSize(order, Symbols(occ));
  }

  /**
   * The archive of `input` under the Shannon-Fano table built from any table
   * of its distinct bytes (at most 255 of them) is written without failure,
   * and reading its code table back gives that table, followed by the payload.
   */
  lemma ArchiveTable(input: seq<byte>, occ: seq<Occurrence>, occurSum: nat, order: seq<byte>)
    requires DistinctSymbols(occ) && Symbols(occ) == SymbolsIn(input) && |occ| <= 255
    requires IsEnumeration(order, CodeTable(occ, occurSum).Keys)
    ensures ArchiveBytes(CodeTable(occ, occurSum), order, input).Success?
    ensures ParseTable(ArchiveBytes(CodeTable(occ, occurSum), order, input).value)
         == Success((CodeTable(occ, occurSum), EncodeData(CodeTable(occ, occurSum), input).value))
  {
    var codes := CodeTable(occ, occurSum);
    CodeTableShape(occ, occurSum);
    SymbolCount(occ);
    assert forall i :: 0 <= i < |input| ==> input[i] in SymbolsIn(input);
    assert FirstMissing(codes, input) == |input|;
    TableRoundTrip(codes, order, EncodeData(codes, input).value);
  }

  /**
   * Compressing `input` with the Shannon-Fano table built from any table of
   * its distinct bytes (in particular the counted table in any order the sort
   * leaves it), then decompressing, gives `input` back, whatever iteration
   * orders the two sides use, provided there are at most 255 distinct bytes
   * and the input is shorter than 2^56 bytes (so the bit total fits in 64 bits).
   */
  lemma ArchiveRoundTrip(input: seq<byte>, occ: seq<Occurrence>, occurSum: nat, order: seq<byte>, order': seq<byte>)
    requires DistinctSymbols(occ) && Symbols(occ) == SymbolsIn(input) && |occ| <= 255
    requires |input| < 0x100_0000_0000_0000
    requires IsEnumeration(order, CodeTable(occ, occurSum).Keys)
    requires IsEnumeration(order', CodeTable(occ, occurSum).Keys)
    ensures ArchiveBytes(CodeTable(occ, occurSum), order, input).Success?
    ensures Restore(ArchiveBytes(CodeTable(occ, occurSum), order, input).value, order') == Success(input)
  {
    var codes := CodeTable(occ, occurSum);
    ArchiveTable(input, occ, occurSum, order);
    CodeTableShape(occ, occurSum);
    CodeTablePrefixFree(occ, occurSum);
    EncodedBound(codes, input);
    ReverseDecodes(codes, order');
    PayloadRoundTrip(Reverse(codes, order'), codes, input);
  }
}

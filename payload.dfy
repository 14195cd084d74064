/**
 * The payload that follows the code table in an archive, and its decoding.
 *
 *   payload = the bit total as an 8-byte little-endian `size_t`, then the
 *             codes of the input bytes, concatenated and packed MSB-first.
 *
 * The decoder turns the code table around into a map from codes to symbols,
 * then consumes the payload one bit at a time, emitting a symbol whenever the
 * bits gathered since the last one form a known code.
 */
module Payload {
  import opened Bits
  import opened Fano
  import opened Archive

  /** 2^64: `size_t` arithmetic wraps modulo this value. */
  const SizeLimit: nat := 0x1_0000_0000_0000_0000

  /** The 8-byte little-endian field holds exactly the values below 2^64. */
  lemma SizeLimitBytes()
    ensures Pow256(8) == SizeLimit
  {
  }

  /** A total below the modulus is unchanged by the wrap-around. */
  lemma ModBelow(n: nat, m: nat)
    requires n < m
    ensures n % m == n
  {
  }

  /** Adding to a wrapped total and wrapping again is wrapping the plain sum. */
  lemma WrapAdd(a: nat, b: nat)
    ensures (a % SizeLimit + b) % SizeLimit == (a + b) % SizeLimit
  {
  }

  // ---------------------------------------------------------------------------
  // Encoding

  /** The codes of the input bytes, one after the other. */
  function Encoded(codes: map<byte, seq<bool>>, input: seq<byte>): seq<bool>
  {
    if input == [] then [] else Get(codes, input[0]) + Encoded(codes, input[1..])
  }

  /** The first input byte without a code, or `|input|` when every byte has one. */
  function FirstMissing(codes: map<byte, seq<bool>>, input: seq<byte>): (i: nat)
    ensures i <= |input|
    ensures i < |input| ==> input[i] !in codes
    ensures forall j :: 0 <= j < i ==> input[j] in codes
  {
    if input == [] then 0
    else if input[0] !in codes then 0
    else 1 + FirstMissing(codes, input[1..])
  }

  /**
   * The payload for `input`: fails on the first byte without a code, as the
   * bounds-checked lookup does before anything is written; otherwise the bit
   * total (modulo 2^64) as 8 little-endian bytes, then the packed codes.
   */
  function EncodeData(codes: map<byte, seq<bool>>, input: seq<byte>): Result<seq<byte>>
  {
    var i := FirstMissing(codes, input);
    if i < |input| then Failure(NoCode(input[i]))
    else
      var bits := Encoded(codes, input);
      Success(LittleEndian(|bits| % SizeLimit, 8) + Pack(bits))
  }

  /** Appending one byte appends its code. */
  lemma {:induction false} EncodedSnoc(codes: map<byte, seq<bool>>, input: seq<byte>, c: byte)
    ensures Encoded(codes, input + [c]) == Encoded(codes, input) + Get(codes, c)
    decreases |input|
  {
    if input == [] {
      assert Encoded(codes, [c]) == Get(codes, c) + Encoded(codes, []);
    } else {
      assert (input + [c])[1..] == input[1..] + [c];
      EncodedSnoc(codes, input[1..], c);
    }
  }

  /** With codes of at most 255 bits, the bit total is at most 255 per input byte. */
  lemma {:induction false} EncodedBound(codes: map<byte, seq<bool>>, input: seq<byte>)
    requires forall s :: s in codes ==> |codes[s]| <= 255
    ensures |Encoded(codes, input)| <= 255 * |input|
    decreases |input|
  {
    if input != [] {
      EncodedBound(codes, input[1..]);
    }
  }

  /**
   * The payload fails exactly when some input byte has no code, and then it
   * names the first such byte; otherwise it is as long as the header and the
   * packed bits.
   */
  lemma EncodeDataOutcome(codes: map<byte, seq<bool>>, input: seq<byte>)
    ensures EncodeData(codes, input).Failure? <==> exists i :: 0 <= i < |input| && input[i] !in codes
    ensures EncodeData(codes, input).Failure? ==>
      var s := EncodeData(codes, input).error.symbol;
      s == input[FirstMissing(codes, input)] && s !in codes && s in input
    ensures EncodeData(codes, input).Success? ==>
      |EncodeData(codes, input).value| == 8 + (|Encoded(codes, input)| + 7) / 8
  {
    var i := FirstMissing(codes, input);
    if i < |input| {
      assert input[i] in input;
    }
  }

  // ---------------------------------------------------------------------------
  // The reverse map

  /**
   * `rev[codes[s]] = s` for each key `s` of `order` in turn, starting from
   * `rev`; a key the table does not hold is skipped. A code shared by two
   * symbols keeps the later one.
   */
  function Invert(rev: map<seq<bool>, byte>, codes: map<byte, seq<bool>>, order: seq<byte>): map<seq<bool>, byte>
    decreases |order|
  {
    if order == [] then rev
    else
      var s := order[0];
      Invert(if s in codes then rev[codes[s] := s] else rev, codes, order[1..])
  }

  /** The reverse map, built by iterating the table in `order`. */
  function Reverse(codes: map<byte, seq<bool>>, order: seq<byte>): map<seq<bool>, byte>
  {
    Invert(map[], codes, order)
  }

  /** Every code found in `rev` is the code of the symbol it maps to. */
  ghost predicate Sound(rev: map<seq<bool>, byte>, codes: map<byte, seq<bool>>)
  {
    forall p :: p in rev ==> rev[p] in codes && codes[rev[p]] == p
  }

  /** No two symbols share a code. */
  ghost predicate Injective(codes: map<byte, seq<bool>>)
  {
    forall s, t :: s in codes && t in codes && codes[s] == codes[t] ==> s == t
  }

  /** `rev` maps the code of `s` back to `s`. */
  ghost predicate Finds(rev: map<seq<bool>, byte>, codes: map<byte, seq<bool>>, s: byte)
    requires s in codes
  {
    codes[s] in rev && rev[codes[s]] == s
  }

  /** Inverting only ever adds pairs `codes[s] -> s`. */
  lemma {:induction false} InvertSound(rev: map<seq<bool>, byte>, codes: map<byte, seq<bool>>, order: seq<byte>)
    requires Sound(rev, codes)
    ensures Sound(Invert(rev, codes, order), codes)
    decreases |order|
  {
    if order != [] {
      var s := order[0];
      InvertSound(if s in codes then rev[codes[s] := s] else rev, codes, order[1..]);
    }
  }

  /** No symbol of `order` other than `s` has the code of `s`. */
  ghost predicate NoRival(codes: map<byte, seq<bool>>, order: seq<byte>, s: byte)
    requires s in codes
  {
    forall m :: 0 <= m < |order| && order[m] in codes && codes[order[m]] == codes[s] ==> order[m] == s
  }

  /** A pair once in place stays in place while no other symbol with that code is visited. */
  lemma {:induction false} InvertKeeps(rev: map<seq<bool>, byte>, codes: map<byte, seq<bool>>, order: seq<byte>, s: byte)
    requires s in codes && Finds(rev, codes, s) && NoRival(codes, order, s)
    ensures Finds(Invert(rev, codes, order), codes, s)
    decreases |order|
  {
    if order != [] {
      var t := order[0];
      assert NoRival(codes, order[1..], s) by {
        forall m | 0 <= m < |order| - 1 ensures order[1..][m] == order[m + 1] {}
      }
      InvertKeeps(if t in codes then rev[codes[t] := t] else rev, codes, order[1..], s);
    }
  }

  /** A key visited is found by its code when no later key of `order` shares that code. */
  lemma {:induction false} InvertFinds(rev: map<seq<bool>, byte>, codes: map<byte, seq<bool>>, order: seq<byte>, k: nat)
    requires k < |order| && order[k] in codes && NoRival(codes, order[k + 1..], order[k])
    ensures Finds(Invert(rev, codes, order), codes, order[k])
    decreases |order|
  {
    var t := order[0];
    var rev' := if t in codes then rev[codes[t] := t] else rev;
    if k == 0 {
      InvertKeeps(rev', codes, order[1..], t);
    } else {
      assert order[1..][k - 1 + 1..] == order[k + 1..];
      InvertFinds(rev', codes, order[1..], k - 1);
    }
  }

  /**
   * Where several symbols share a code, the reverse map keeps the last of
   * them in iteration order: the code of `order[k]` maps to `order[k]` when
   * no later symbol has that code.
   */
  lemma ReverseKeepsLast(codes: map<byte, seq<bool>>, order: seq<byte>, k: nat)
    requires k < |order| && order[k] in codes && NoRival(codes, order[k + 1..], order[k])
    ensures codes[order[k]] in Reverse(codes, order) && Reverse(codes, order)[codes[order[k]]] == order[k]
  {
    InvertFinds(map[], codes, order, k);
  }

  /** Prefix-free codes are pairwise distinct. */
  lemma PrefixFreeInjective(codes: map<byte, seq<bool>>)
    requires PrefixFree(codes)
    ensures Injective(codes)
  {
  }

  /**
   * The reverse map of a table whose codes are pairwise distinct, built in any
   * iteration order of the table, is its inverse: every code maps back to its
   * symbol, and every code in the map is the code of the symbol it maps to.
   */
  lemma ReverseInverts(codes: map<byte, seq<bool>>, order: seq<byte>)
    requires IsEnumeration(order, codes.Keys) && Injective(codes)
    ensures forall s :: s in codes ==> codes[s] in Reverse(codes, order) && Reverse(codes, order)[codes[s]] == s
    ensures forall p :: p in Reverse(codes, order) ==> Reverse(codes, order)[p] in codes && codes[Reverse(codes, order)[p]] == p
  {
    InvertSound(map[], codes, order);
    forall s | s in codes ensures codes[s] in Reverse(codes, order) && Reverse(codes, order)[codes[s]] == s {
      var k :| 0 <= k < |order| && order[k] == s;
      assert NoRival(codes, order[k + 1..], s);
      ReverseKeepsLast(codes, order, k);
    }
  }

  /**
   * What the decoder needs of its map: every code maps back to its symbol,
   * no code is empty, and no code in the map is a proper prefix of a code.
   */
  ghost predicate Decodes(rev: map<seq<bool>, byte>, codes: map<byte, seq<bool>>)
  {
    && (forall s :: s in codes ==> codes[s] != [] && codes[s] in rev && rev[codes[s]] == s)
    && (forall s, p :: s in codes && p in rev ==> !(p < codes[s]))
  }

  /**
   * The reverse map of a prefix-free table with non-empty codes, built in
   * any iteration order of the table, decodes that table.
   */
  lemma ReverseDecodes(codes: map<byte, seq<bool>>, order: seq<byte>)
    requires IsEnumeration(order, codes.Keys)
    requires PrefixFree(codes)
    requires forall s :: s in codes ==> codes[s] != []
    ensures Decodes(Reverse(codes, order), codes)
  {
    var rev := Reverse(codes, order);
    PrefixFreeInjective(codes);
    ReverseInverts(codes, order);
    forall s, p | s in codes && p in rev ensures !(p < codes[s]) {
      var t := rev[p];
      assert codes[t] == p;
      if s != t {
        assert !(codes[t] <= codes[s]);
      }
    }
  }

  // ---------------------------------------------------------------------------
  // Scanning the bitstream

  /** The decoder between two bits: the symbols emitted so far and the bits gathered since. */
  datatype ScanState = ScanState(emitted: seq<byte>, pending: seq<bool>)

  /** One bit: gather it; if the gathered bits form a known code, emit its symbol and start over. */
  function Step(rev: map<seq<bool>, byte>, st: ScanState, bit: bool): ScanState
  {
    var buffer := st.pending + [bit];
    if buffer in rev then ScanState(st.emitted + [rev[buffer]], []) else ScanState(st.emitted, buffer)
  }

  /** The decoder after reading `bits` one at a time from `st`. */
  function ScanFrom(rev: map<seq<bool>, byte>, st: ScanState, bits: seq<bool>): ScanState
    decreases |bits|
  {
    if bits == [] then st else ScanFrom(rev, Step(rev, st, bits[0]), bits[1..])
  }

  /** Scanning two stretches of bits is scanning the first, then the second. */
  lemma {:induction false} ScanFromAppend(rev: map<seq<bool>, byte>, st: ScanState, a: seq<bool>, b: seq<bool>)
    ensures ScanFrom(rev, st, a + b) == ScanFrom(rev, ScanFrom(rev, st, a), b)
    decreases |a|
  {
    if a != [] {
      assert (a + b)[1..] == a[1..] + b;
      ScanFromAppend(rev, Step(rev, st, a[0]), a[1..], b);
    } else {
      assert a + b == b;
    }
  }

  /** Scanning one bit more is one more step. */
  lemma ScanFromSnoc(rev: map<seq<bool>, byte>, st: ScanState, bits: seq<bool>, bit: bool)
    ensures ScanFrom(rev, st, bits + [bit]) == Step(rev, ScanFrom(rev, st, bits), bit)
  {
    ScanFromAppend(rev, st, bits, [bit]);
    var mid := ScanFrom(rev, st, bits);
    assert ScanFrom(rev, mid, [bit]) == ScanFrom(rev, Step(rev, mid, bit), []);
  }

  /** Scanning one bit more of a byte stream is one more step, on that byte's bit. */
  lemma ScanNextBit(rev: map<seq<bool>, byte>, st: ScanState, bytes: seq<byte>, i: nat, j: nat, k: nat)
    requires i < |bytes| && j < 8 && k == 8 * i + j
    ensures ScanFrom(rev, st, Unpack(bytes)[..k + 1])
         == Step(rev, ScanFrom(rev, st, Unpack(bytes)[..k]), BitAt(bytes[i], j))
  {
    var bits := Unpack(bytes);
    NextBit(bytes, i, j);
    assert bits[..k + 1] == bits[..k] + [BitAt(bytes[i], j)];
    ScanFromSnoc(rev, st, bits[..k], BitAt(bytes[i], j));
  }

  /** Scanning the rest of a code, once its first `j` bits are gathered, emits its symbol. */
  lemma {:induction false} ScanCodeFrom(rev: map<seq<bool>, byte>, codes: map<byte, seq<bool>>, s: byte, out: seq<byte>, j: nat)
    requires Decodes(rev, codes) && s in codes && j < |codes[s]|
    ensures ScanFrom(rev, ScanState(out, codes[s][..j]), codes[s][j..]) == ScanState(out + [s], [])
    decreases |codes[s]| - j
  {
    var c := codes[s];
    var buffer := c[..j] + [c[j]];
    assert buffer == c[..j + 1];
    if j + 1 == |c| {
      assert buffer == c;
      assert c[j..][1..] == [];
    } else {
      assert buffer < c;
      assert c[j..][1..] == c[j + 1..];
      ScanCodeFrom(rev, codes, s, out, j + 1);
    }
  }

  /** Scanning the code of one symbol from a clear buffer emits that symbol. */
  lemma ScanCode(rev: map<seq<bool>, byte>, codes: map<byte, seq<bool>>, s: byte, out: seq<byte>)
    requires Decodes(rev, codes) && s in codes
    ensures ScanFrom(rev, ScanState(out, []), codes[s]) == ScanState(out + [s], [])
  {
    ScanCodeFrom(rev, codes, s, out, 0);
    assert codes[s][..0] == [] && codes[s][0..] == codes[s];
  }

  /** One symbol more in front: its code is scanned first and emits it. */
  lemma ScanEncodedStep(rev: map<seq<bool>, byte>, codes: map<byte, seq<bool>>, s: byte, tail: seq<byte>, out: seq<byte>)
    requires s in codes
    requires ScanFrom(rev, ScanState(out, []), codes[s]) == ScanState(out + [s], [])
    requires ScanFrom(rev, ScanState(out + [s], []), Encoded(codes, tail)) == ScanState(out + [s] + tail, [])
    ensures ScanFrom(rev, ScanState(out, []), Encoded(codes, [s] + tail)) == ScanState(out + ([s] + tail), [])
  {
    assert ([s] + tail)[1..] == tail;
    assert Encoded(codes, [s] + tail) == codes[s] + Encoded(codes, tail);
    ScanFromAppend(rev, ScanState(out, []), codes[s], Encoded(codes, tail));
    assert out + [s] + tail == out + ([s] + tail);
  }

  /** Scanning the encoding of `input` emits `input`, and the buffer ends clear. */
  lemma {:induction false} ScanEncoded(rev: map<seq<bool>, byte>, codes: map<byte, seq<bool>>, input: seq<byte>, out: seq<byte>)
    requires Decodes(rev, codes)
    requires forall i :: 0 <= i < |input| ==> input[i] in codes
    ensures ScanFrom(rev, ScanState(out, []), Encoded(codes, input)) == ScanState(out + input, [])
    decreases |input|
  {
    if input != [] {
      var s, tail := input[0], input[1..];
      assert forall i :: 0 <= i < |tail| ==> tail[i] == input[i + 1];
      ScanEncoded(rev, codes, tail, out + [s]);
      ScanCode(rev, codes, s, out);
      ScanEncodedStep(rev, codes, s, tail, out);
      assert [s] + tail == input;
    }
  }

  // ---------------------------------------------------------------------------
  // Decoding the payload

  /**
   * Reads the bit total, then scans at most that many bits of the rest; the
   * scan stops early, silently, where the payload ends. Fails only when the
   * 8-byte bit total itself is cut short.
   */
  function DecodePayload(rev: map<seq<bool>, byte>, payload: seq<byte>): Result<seq<byte>>
  {
    if |payload| < 8 then Failure(Truncated)
    else
      var total := FromLittleEndian(payload[..8]);
      var bits := Unpack(payload[8..]);
      var n := if total < |bits| then total else |bits|;
      Success(ScanFrom(rev, ScanState([], []), bits[..n]).emitted)
  }

  /** The payload header gives back the bit total, and the packed bits start with the codes. */
  lemma PayloadFields(bits: seq<bool>, payload: seq<byte>)
    requires |bits| < SizeLimit
    requires payload == LittleEndian(|bits|, 8) + Pack(bits)
    ensures |payload| >= 8 && FromLittleEndian(payload[..8]) == |bits|
    ensures |Unpack(payload[8..])| >= |bits| && Unpack(payload[8..])[..|bits|] == bits
  {
    assert payload[..8] == LittleEndian(|bits|, 8);
    assert payload[8..] == Pack(bits);
    SizeLimitBytes();
    LittleEndianRoundTrip(|bits|, 8);
    PackRoundTrip(bits);
  }

  /**
   * Decoding the payload written for `input` with a map that decodes the
   * table gives `input` back, as long as the bit total fits in 64 bits.
   */
  lemma PayloadRoundTrip(rev: map<seq<bool>, byte>, codes: map<byte, seq<bool>>, input: seq<byte>)
    requires Decodes(rev, codes)
    requires EncodeData(codes, input).Success?
    requires |Encoded(codes, input)| < SizeLimit
    ensures DecodePayload(rev, EncodeData(codes, input).value) == Success(input)
  {
    var bits := Encoded(codes, input);
    var payload := EncodeData(codes, input).value;
    var total := |bits| % SizeLimit;
    assert payload == LittleEndian(total, 8) + Pack(bits);
    ModBelow(|bits|, SizeLimit);
    PayloadFields(bits, payload);
    ScanEncoded(rev, codes, input, []);
    assert [] + input == input;
  }
}

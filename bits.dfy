/**
 * Bit-level helpers shared by the archive writer and reader: bytes, shifts,
 * packing a sequence of bits into bytes most-significant bit first with zero
 * padding, unpacking bytes back into bits, and the 8-byte little-endian layout
 * of the payload's bit total (a 64-bit `size_t`).
 */
module Bits {

  /** One byte of a file or an archive (`uint8_t`). */
  type byte = x: int | 0 <= x < 256

  /** `v << n` on unbounded integers. */
  function Shl(v: nat, n: nat): nat
  {
    if n == 0 then v else 2 * Shl(v, n - 1)
  }

  /** `v >> n`. */
  function Shr(v: nat, n: nat): nat
  {
    if n == 0 then v else Shr(v / 2, n - 1)
  }

  function BitValue(b: bool): nat
  {
    if b then 1 else 0
  }

  function Zeros(n: nat): (z: seq<bool>)
    ensures |z| == n && forall k :: 0 <= k < n ==> !z[k]
  {
    if n == 0 then [] else Zeros(n - 1) + [false]
  }

  /** The number whose binary digits, most significant first, are `bits`. */
  function Value(bits: seq<bool>): nat
  {
    if bits == [] then 0 else 2 * Value(bits[..|bits| - 1]) + BitValue(bits[|bits| - 1])
  }

  /** The low `n` binary digits of `v`, most significant first. */
  function BitsOf(v: nat, n: nat): (bits: seq<bool>)
    ensures |bits| == n
  {
    if n == 0 then [] else BitsOf(v / 2, n - 1) + [v % 2 == 1]
  }

  /** Bit `k` of a byte, counting from the most significant one: `(byte >> (7 - k)) & 1`. */
  function BitAt(b: byte, k: nat): bool
    requires k < 8
  {
    Shr(b, 7 - k) % 2 == 1
  }

  /** The eight bits of a byte, most significant first. */
  function ByteBits(b: byte): (bits: seq<bool>)
    ensures |bits| == 8
  {
    BitsOf(b, 8)
  }

  /** The byte holding `chunk` in its high bits, the remaining low bits zero. */
  function PackByte(chunk: seq<bool>): (b: byte)
    requires |chunk| <= 8
  {
    ByteBound(chunk);
    Shl(Value(chunk), 8 - |chunk|)
  }

  /** `bits` packed MSB-first into bytes, the last byte zero-padded. */
  function Pack(bits: seq<bool>): (bytes: seq<byte>)
    ensures |bytes| == (|bits| + 7) / 8
    decreases |bits|
  {
    if bits == [] then []
    else if |bits| <= 8 then [PackByte(bits)]
    else [PackByte(bits[..8])] + Pack(bits[8..])
  }

  /** All bits of `bytes`, each byte read most significant bit first. */
  function Unpack(bytes: seq<byte>): (bits: seq<bool>)
    ensures |bits| == 8 * |bytes|
  {
    if bytes == [] then [] else Unpack(bytes[..|bytes| - 1]) + ByteBits(bytes[|bytes| - 1])
  }

  // ---------------------------------------------------------------------------
  // Shifts

  lemma {:induction false} ShlDouble(v: nat, m: nat)
    ensures Shl(2 * v, m) == Shl(v, m + 1)
  {
    if m > 0 {
      ShlDouble(v, m - 1);
    }
  }

  lemma {:induction false} ShlAdd(a: nat, b: nat, m: nat)
    ensures Shl(a + b, m) == Shl(a, m) + Shl(b, m)
  {
    if m > 0 {
      ShlAdd(a, b, m - 1);
    }
  }

  /** Shifting a value with one more low bit appended, stated over plain numbers. */
  lemma ShlStep(p1: nat, p0: nat, v1: nat, v: nat, bit: nat, m: nat)
    requires p1 == Shl(v1, m) && v1 == 2 * v + bit && p0 == Shl(v, m + 1)
    ensures p1 == p0 + Shl(bit, m)
  {
    ShlAdd(2 * v, bit, m);
    ShlDouble(v, m);
  }

  // ---------------------------------------------------------------------------
  // Bits of a number

  /** `n` binary digits hold a value below `1 << n`. */
  lemma {:induction false} ValueBound(bits: seq<bool>)
    ensures Value(bits) < Shl(1, |bits|)
  {
    if bits != [] {
      ValueBound(bits[..|bits| - 1]);
    }
  }

  /** Reading back the binary digits of a value restores them. */
  lemma {:induction false} BitsOfValue(bits: seq<bool>)
    ensures BitsOf(Value(bits), |bits|) == bits
  {
    if bits != [] {
      var init := bits[..|bits| - 1];
      BitsOfValue(init);
      assert Value(bits) / 2 == Value(init);
      assert bits == init + [bits[|bits| - 1]];
    }
  }

  /** Digit `k` of `BitsOf(v, n)` is bit `n - 1 - k` of `v`, by shift and mask. */
  lemma {:induction false} BitsOfAt(v: nat, n: nat, k: nat)
    requires k < n
    ensures BitsOf(v, n)[k] == (Shr(v, n - 1 - k) % 2 == 1)
  {
    if k < n - 1 {
      BitsOfAt(v / 2, n - 1, k);
    }
  }

  /** The source's shift-and-mask extraction reads the bits of a byte MSB-first. */
  lemma ByteBitsAt(b: byte, k: nat)
    requires k < 8
    ensures ByteBits(b)[k] == BitAt(b, k)
  {
    BitsOfAt(b, 8, k);
  }

  /** Appending `m` zero bits shifts the value left by `m`. */
  lemma {:induction false} ValuePadded(s: seq<bool>, m: nat)
    ensures Value(s + Zeros(m)) == Shl(Value(s), m)
  {
    if m > 0 {
      var t := s + Zeros(m);
      assert t[..|t| - 1] == s + Zeros(m - 1);
      ValuePadded(s, m - 1);
    } else {
      assert s + Zeros(m) == s;
    }
  }

  /** A value below `1 << n` shifted left by `m` stays below `1 << (n + m)`. */
  lemma {:induction false} ShlBelow(v: nat, n: nat, m: nat)
    requires v < Shl(1, n)
    ensures Shl(v, m) < Shl(1, n + m)
  {
    if m > 0 {
      ShlBelow(v, n, m - 1);
    }
  }

  /** Shifting left and then right by the same amount gives the value back. */
  lemma {:induction false} ShrShl(v: nat, m: nat)
    ensures Shr(Shl(v, m), m) == v
  {
    if m > 0 {
      ShrShl(v, m - 1);
      assert Shl(v, m) / 2 == Shl(v, m - 1);
    }
  }

  /** At most eight bits, placed at the top of a byte, fit in the byte. */
  lemma ByteBound(chunk: seq<bool>)
    requires |chunk| <= 8
    ensures Shl(Value(chunk), 8 - |chunk|) < 256
  {
    ValueBound(chunk);
    ShlBelow(Value(chunk), |chunk|, 8 - |chunk|);
    assert |chunk| + (8 - |chunk|) == 8;
    assert Shl(1, 8) == 256;
  }

  /**
   * Setting the next free bit of a partly filled byte, `buffer |= bit << (7 -
   * bitPos)`: the last bit of `chunk` lands at position `|chunk| - 1`.
   */
  lemma PackBytePush(chunk: seq<bool>)
    requires 0 < |chunk| <= 8
    ensures PackByte(chunk) == PackByte(chunk[..|chunk| - 1]) + Shl(BitValue(chunk[|chunk| - 1]), 8 - |chunk|)
  {
    var init := chunk[..|chunk| - 1];
    var bit := BitValue(chunk[|chunk| - 1]);
    ShlStep(PackByte(chunk), PackByte(init), Value(chunk), Value(init), bit, 8 - |chunk|);
  }

  // ---------------------------------------------------------------------------
  // Packing and unpacking

  lemma {:induction false} UnpackAppend(a: seq<byte>, b: seq<byte>)
    ensures Unpack(a + b) == Unpack(a) + Unpack(b)
    decreases |b|
  {
    if b != [] {
      var b' := b[..|b| - 1];
      assert (a + b)[..|a + b| - 1] == a + b';
      UnpackAppend(a, b');
    } else {
      assert a + b == a;
    }
  }

  /** Bit `8 * i + j` of the unpacked stream is bit `j` of byte `i`. */
  lemma {:induction false} UnpackAt(bytes: seq<byte>, i: nat, j: nat)
    requires i < |bytes| && j < 8
    ensures Unpack(bytes)[8 * i + j] == ByteBits(bytes[i])[j]
    decreases |bytes|
  {
    if i < |bytes| - 1 {
      UnpackAt(bytes[..|bytes| - 1], i, j);
    }
  }

  /** Packing several whole bytes' worth of bits and then more is packing each part. */
  lemma {:induction false} PackAppend(s: seq<bool>, t: seq<bool>)
    requires |s| % 8 == 0
    ensures Pack(s + t) == Pack(s) + Pack(t)
    decreases |s|
  {
    if t == [] {
      assert s + t == s;
    } else if s != [] {
      assert (s + t)[..8] == s[..8];
      assert (s + t)[8..] == s[8..] + t;
      PackAppend(s[8..], t);
      if |s| == 8 {
        assert s[..8] == s && s[8..] == [];
      }
    } else {
      assert s + t == t;
    }
  }

  /** Reading back a packed byte gives its chunk followed by the zero padding. */
  lemma ByteBitsPack(chunk: seq<bool>)
    requires |chunk| <= 8
    ensures ByteBits(PackByte(chunk)) == chunk + Zeros(8 - |chunk|)
  {
    var padded := chunk + Zeros(8 - |chunk|);
    ValuePadded(chunk, 8 - |chunk|);
    BitsOfValue(padded);
  }

  lemma UnpackOne(b: byte)
    ensures Unpack([b]) == ByteBits(b)
  {
    assert [b][..0] == [];
  }

  /** Unpacking what was packed gives the bits back, followed by the zero padding. */
  lemma {:induction false} UnpackPack(bits: seq<bool>)
    ensures Unpack(Pack(bits)) == bits + Zeros(8 * |Pack(bits)| - |bits|)
    decreases |bits|
  {
    if bits == [] {
    } else if |bits| <= 8 {
      ByteBitsPack(bits);
      UnpackOne(PackByte(bits));
    } else {
      var head := bits[..8];
      var rest := bits[8..];
      ByteBitsPack(head);
      UnpackOne(PackByte(head));
      UnpackPack(rest);
      assert Pack(bits) == [PackByte(head)] + Pack(rest);
      UnpackAppend([PackByte(head)], Pack(rest));
      var pad := 8 * |Pack(rest)| - |rest|;
      assert 8 * |Pack(bits)| - |bits| == pad;
      assert Zeros(0) == [];
      calc {
        Unpack(Pack(bits));
        head + (rest + Zeros(pad));
        { assert bits == head + rest; }
        bits + Zeros(pad);
      }
    }
  }

  /** The first `|bits|` bits of the unpacked packing are exactly `bits`. */
  lemma PackRoundTrip(bits: seq<bool>)
    ensures |Unpack(Pack(bits))| >= |bits| && Unpack(Pack(bits))[..|bits|] == bits
  {
    UnpackPack(bits);
  }

  /** Bit `j` of byte `i` of a byte stream, as the reader extracts it with a shift and a mask. */
  lemma NextBit(bytes: seq<byte>, i: nat, j: nat)
    requires i < |bytes| && j < 8
    ensures Unpack(bytes)[8 * i + j] == BitAt(bytes[i], j)
  {
    UnpackAt(bytes, i, j);
    ByteBitsAt(bytes[i], j);
  }

  // ---------------------------------------------------------------------------
  // The streaming packer of the two writers: `buffer` and `bitPos` hold the bits
  // written since the last full byte; full bytes are already in `out`.

  ghost predicate Packing(out: seq<byte>, buffer: int, bitPos: nat, written: seq<bool>)
  {
    && bitPos < 8
    && |written| == 8 * |out| + bitPos
    && out == Pack(written[..8 * |out|])
    && buffer == PackByte(written[8 * |out|..])
  }

  lemma PackingStart()
    ensures Packing([], 0, 0, [])
  {
    assert Shl(0, 8) == 0;
  }

  /** One iteration of the writer loop: set the bit, and emit the byte when it is full. */
  lemma PackingPush(out: seq<byte>, buffer: int, bitPos: nat, written: seq<bool>, b: bool)
    requires Packing(out, buffer, bitPos, written)
    ensures 0 <= buffer + Shl(BitValue(b), 7 - bitPos) < 256
    ensures var buffer' := buffer + Shl(BitValue(b), 7 - bitPos);
            if bitPos + 1 == 8 then Packing(out + [buffer'], 0, 0, written + [b])
            else Packing(out, buffer', bitPos + 1, written + [b])
  {
    var full := written[..8 * |out|];
    var pending := written[8 * |out|..];
    var buffer' := buffer + Shl(BitValue(b), 7 - bitPos);
    var w := written + [b];
    var chunk := w[8 * |out|..];
    assert w[..8 * |out|] == full;
    assert chunk[..|chunk| - 1] == pending && chunk[|chunk| - 1] == b;
    PackBytePush(chunk);
    if bitPos + 1 == 8 {
      assert w[..8 * |out + [buffer']|] == full + chunk;
      PackAppend(full, chunk);
      assert Pack(chunk) == [PackByte(chunk)];
      PackingStart();
      assert w[8 * |out + [buffer']|..] == [];
    }
  }

  /**
   * The writers set bit `7 - bitPos` of the buffer with an OR. That bit is
   * still clear in the buffer, so the OR sets it and changes no other bit:
   * it is the addition `PackingPush` performs.
   */
  lemma PackingBitClear(out: seq<byte>, buffer: int, bitPos: nat, written: seq<bool>)
    requires Packing(out, buffer, bitPos, written)
    ensures Shr(buffer, 7 - bitPos) % 2 == 0
  {
    var v := Value(written[8 * |out|..]);
    ShlDouble(v, 7 - bitPos);
    ShrShl(2 * v, 7 - bitPos);
  }

  /** After the loop, the partial byte (if any) completes the packing of everything written. */
  lemma PackingFlush(out: seq<byte>, buffer: int, bitPos: nat, written: seq<bool>)
    requires Packing(out, buffer, bitPos, written)
    ensures 0 <= buffer < 256
    ensures (if bitPos != 0 then out + [buffer] else out) == Pack(written)
  {
    var full := written[..8 * |out|];
    var pending := written[8 * |out|..];
    assert written == full + pending;
    PackAppend(full, pending);
    if bitPos == 0 {
      assert pending == [];
    }
  }

  // ---------------------------------------------------------------------------
  // Little-endian integers

  function Pow256(n: nat): (r: nat)
    ensures r >= 1
  {
    if n == 0 then 1 else 256 * Pow256(n - 1)
  }

  /** The low `width` bytes of `n`, least significant first; higher bytes are dropped. */
  function LittleEndian(n: nat, width: nat): (bytes: seq<byte>)
    ensures |bytes| == width
  {
    if width == 0 then [] else [n % 256] + LittleEndian(n / 256, width - 1)
  }

  function FromLittleEndian(bytes: seq<byte>): nat
  {
    if bytes == [] then 0 else bytes[0] + 256 * FromLittleEndian(bytes[1..])
  }

  /** A value that fits in `width` bytes is read back unchanged. */
  lemma {:induction false} LittleEndianRoundTrip(n: nat, width: nat)
    requires n < Pow256(width)
    ensures FromLittleEndian(LittleEndian(n, width)) == n
  {
    if width > 0 {
      assert n / 256 < Pow256(width - 1);
      LittleEndianRoundTrip(n / 256, width - 1);
      assert LittleEndian(n, width)[1..] == LittleEndian(n / 256, width - 1);
    }
  }
}

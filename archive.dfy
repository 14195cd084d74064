/**
 * The code table as it is stored at the head of an archive, and its reading.
 *
 *   table = count byte (number of entries, truncated to 8 bits), then per
 *           entry: symbol byte, length byte (truncated to 8 bits), the code
 *           packed MSB-first into ceil(length / 8) zero-padded bytes.
 *
 * The writer visits the table in the iteration order of the `unordered_map`,
 * which is not specified; here it is a parameter `order` that lists every key
 * once. The reader consumes the archive front to back: each read takes bytes
 * off the front of the remaining stream.
 */
module Archive {
  import opened Bits
  import opened Fano

  datatype Error =
    | Truncated            // the archive ends before a field it must hold
    | NoCode(symbol: byte) // `codes.at` found no code for an input byte

  datatype Result<T> = Success(value: T) | Failure(error: Error)

  // ---------------------------------------------------------------------------
  // Iteration order of the code table

  /** `order` lists every key of the table exactly once: one iteration order of the map. */
  ghost predicate IsEnumeration(order: seq<byte>, keys: set<byte>)
  {
    && (forall i, j :: 0 <= i < j < |order| ==> order[i] != order[j])
    && (forall k :: 0 <= k < |order| ==> order[k] in keys)
    && (forall s :: s in keys ==> s in order)
  }

  /** Without its first key, an iteration order enumerates the other keys. */
  lemma EnumerationTail(order: seq<byte>, keys: set<byte>)
    requires IsEnumeration(order, keys) && order != []
    ensures IsEnumeration(order[1..], keys - {order[0]})
  {
    forall s | s in keys - {order[0]} ensures s in order[1..] {
      var k :| 0 <= k < |order| && order[k] == s;
      assert order[1..][k - 1] == s;
    }
    forall k | 0 <= k < |order| - 1 ensures order[1..][k] in keys - {order[0]} {
      assert order[1..][k] == order[k + 1] != order[0];
    }
  }

  /** An iteration visits as many entries as the map holds. */
  lemma {:induction false} EnumerationSize(order: seq<byte>, keys: set<byte>)
    requires IsEnumeration(order, keys)
    ensures |order| == |keys|
    decreases |order|
  {
    if order == [] {
      assert forall s :: s !in keys;
      assert keys == {};
    } else {
      EnumerationTail(order, keys);
      EnumerationSize(order[1..], keys - {order[0]});
    }
  }

  // ---------------------------------------------------------------------------
  // The code table as written

  /** One entry of the table: a symbol and its code. */
  datatype Entry = Entry(symbol: byte, code: seq<bool>)

  /** One entry as bytes: symbol, length byte, packed code. */
  function EntryBytes(e: Entry): (bytes: seq<byte>)
    ensures |bytes| == 2 + (|e.code| + 7) / 8
  {
    [e.symbol, |e.code| % 256] + Pack(e.code)
  }

  /** The entries the writer emits, visiting the table in `order`. */
  function EntriesOf(codes: map<byte, seq<bool>>, order: seq<byte>): (entries: seq<Entry>)
    ensures |entries| == |order|
  {
    seq(|order|, k requires 0 <= k < |order| => Entry(order[k], Get(codes, order[k])))
  }

  /** The entries, one after the other. */
  function WriteEntries(entries: seq<Entry>): seq<byte>
  {
    if entries == [] then [] else EntryBytes(entries[0]) + WriteEntries(entries[1..])
  }

  /** The whole table: the count byte, then the entries in iteration order. */
  function TableBytes(codes: map<byte, seq<bool>>, order: seq<byte>): seq<byte>
  {
    [|codes| % 256] + WriteEntries(EntriesOf(codes, order))
  }

  // ---------------------------------------------------------------------------
  // Reading the code table back

  /**
   * Reads one entry off the front of `stream`: symbol and length byte, then
   * ceil(length / 8) bytes of which the first `length` bits are the code.
   * Fails when the stream ends before any of these.
   */
  function ParseEntry(stream: seq<byte>): (r: Result<(Entry, seq<byte>)>)
    ensures r.Success? ==> |r.value.1| < |stream|
    ensures r.Failure? ==> r.error == Truncated
  {
    if |stream| < 2 then Failure(Truncated)
    else
      var len: nat := stream[1];
      var size := (len + 7) / 8;
      if |stream| < 2 + size then Failure(Truncated)
      else Success((Entry(stream[0], Unpack(stream[2..2 + size])[..len]), stream[2 + size..]))
  }

  /** Reads `n` entries one after the other. */
  function ParseEntries(stream: seq<byte>, n: nat): (r: Result<(seq<Entry>, seq<byte>)>)
    ensures r.Success? ==> |r.value.0| == n && |r.value.1| <= |stream|
    ensures r.Failure? ==> r.error == Truncated
  {
    if n == 0 then Success(([], stream))
    else
      var first := ParseEntry(stream);
      if first.Failure? then Failure(first.error)
      else
        var more := ParseEntries(first.value.1, n - 1);
        if more.Failure? then Failure(more.error)
        else Success(([first.value.0] + more.value.0, more.value.1))
  }

  /** `codes[symbol] = bits` for each entry in turn: a repeated symbol keeps its last code. */
  function Store(codes: map<byte, seq<bool>>, entries: seq<Entry>): map<byte, seq<bool>>
    decreases |entries|
  {
    if entries == [] then codes else Store(codes[entries[0].symbol := entries[0].code], entries[1..])
  }

  /**
   * Reads the count byte and that many entries into an emptied table; yields
   * the table and the rest of the archive, where the payload starts.
   */
  function ParseTable(archive: seq<byte>): (r: Result<(map<byte, seq<bool>>, seq<byte>)>)
    ensures r.Success? ==> |r.value.1| < |archive|
    ensures r.Failure? ==> r.error == Truncated
  {
    if archive == [] then Failure(Truncated)
    else
      match ParseEntries(archive[1..], archive[0])
      case Failure(e) => Failure(e)
      case Success((entries, rest)) => Success((Store(map[], entries), rest))
  }

  // ---------------------------------------------------------------------------
  // One entry more (the step of the writer's and the reader's loops)

  /** Writing one entry more appends its bytes. */
  lemma {:induction false} WriteEntriesSnoc(entries: seq<Entry>, e: Entry)
    ensures WriteEntries(entries + [e]) == WriteEntries(entries) + EntryBytes(e)
    decreases |entries|
  {
    if entries == [] {
      assert WriteEntries([e]) == EntryBytes(e) + WriteEntries([]);
    } else {
      assert (entries + [e])[1..] == entries[1..] + [e];
      WriteEntriesSnoc(entries[1..], e);
    }
  }

  /** The writer's loop step: the entry of the `k`-th symbol visited comes next. */
  lemma WriteTableStep(codes: map<byte, seq<bool>>, order: seq<byte>, k: nat)
    requires k < |order| && order[k] in codes
    ensures WriteEntries(EntriesOf(codes, order)[..k + 1])
         == WriteEntries(EntriesOf(codes, order)[..k]) + ([order[k], |codes[order[k]]| % 256] + Pack(codes[order[k]]))
  {
    var entries := EntriesOf(codes, order);
    assert entries[..k + 1] == entries[..k] + [Entry(order[k], codes[order[k]])];
    WriteEntriesSnoc(entries[..k], Entry(order[k], codes[order[k]]));
  }

  /** Storing one entry more sets its symbol's code last. */
  lemma {:induction false} StoreSnoc(codes: map<byte, seq<bool>>, entries: seq<Entry>, e: Entry)
    ensures Store(codes, entries + [e]) == Store(codes, entries)[e.symbol := e.code]
    decreases |entries|
  {
    if entries != [] {
      assert (entries + [e])[1..] == entries[1..] + [e];
      StoreSnoc(codes[entries[0].symbol := entries[0].code], entries[1..], e);
    }
  }

  /**
   * Reading one entry more after `n` entries: fails if that entry cannot be
   * read, and otherwise appends it and moves past it.
   */
  lemma {:induction false} ParseEntriesSnoc(stream: seq<byte>, n: nat, entries: seq<Entry>, rest: seq<byte>)
    requires ParseEntries(stream, n) == Success((entries, rest))
    ensures ParseEntry(rest).Failure? ==> ParseEntries(stream, n + 1).Failure?
    ensures ParseEntry(rest).Success? ==>
      ParseEntries(stream, n + 1) == Success((entries + [ParseEntry(rest).value.0], ParseEntry(rest).value.1))
    decreases n
  {
    if n == 0 {
      assert entries == [] && rest == stream;
      var next := ParseEntry(rest);
      if next.Success? {
        assert ParseEntries(next.value.1, 0) == Success(([], next.value.1));
        assert [next.value.0] + [] == entries + [next.value.0];
      }
    } else {
      var first := ParseEntry(stream);
      var more := ParseEntries(first.value.1, n - 1);
      ParseEntriesSnoc(first.value.1, n - 1, more.value.0, rest);
      var next := ParseEntry(rest);
      if next.Success? {
        assert [first.value.0] + (more.value.0 + [next.value.0]) == entries + [next.value.0];
      }
    }
  }

  /** Once the reader fails to read an entry, reading more entries fails too. */
  lemma {:induction false} ParseEntriesFailMore(stream: seq<byte>, n: nat, m: nat)
    requires n <= m && ParseEntries(stream, n).Failure?
    ensures ParseEntries(stream, m).Failure?
    decreases n
  {
    var first := ParseEntry(stream);
    if first.Success? {
      ParseEntriesFailMore(first.value.1, n - 1, m - 1);
    }
  }

  // ---------------------------------------------------------------------------
  // Round trip

  /**
   * An entry is read exactly when its two header bytes and the ceil(length / 8)
   * code bytes its length byte announces are all there, and the code read has
   * the announced length.
   */
  lemma ParseEntryOutcome(stream: seq<byte>)
    ensures ParseEntry(stream).Failure? <==> |stream| < 2 || |stream| < 2 + (stream[1] as nat + 7) / 8
    ensures ParseEntry(stream).Success? ==>
      var (entry, rest) := ParseEntry(stream).value;
      entry.symbol == stream[0] && |entry.code| == stream[1] && |rest| == |stream| - 2 - (stream[1] as nat + 7) / 8
  {
  }

  /** An entry whose code has at most 255 bits is read back as written. */
  lemma ParseEntryRoundTrip(e: Entry, rest: seq<byte>)
    requires |e.code| <= 255
    ensures ParseEntry(EntryBytes(e) + rest) == Success((e, rest))
  {
    var stream := EntryBytes(e) + rest;
    var packed := Pack(e.code);
    var size := (|e.code| + 7) / 8;
    assert stream == [e.symbol, |e.code|] + (packed + rest);
    assert stream[2..2 + size] == packed;
    assert stream[2 + size..] == rest;
    PackRoundTrip(e.code);
  }

  /** Entries whose codes have at most 255 bits are read back as written. */
  lemma {:induction false} ParseEntriesRoundTrip(entries: seq<Entry>, rest: seq<byte>)
    requires forall k :: 0 <= k < |entries| ==> |entries[k].code| <= 255
    ensures ParseEntries(WriteEntries(entries) + rest, |entries|) == Success((entries, rest))
    decreases |entries|
  {
    if entries != [] {
      var e, tail := entries[0], entries[1..];
      var after := WriteEntries(tail) + rest;
      var stream := WriteEntries(entries) + rest;
      assert stream == EntryBytes(e) + after;
      ParseEntryRoundTrip(e, after);
      ParseEntriesRoundTrip(tail, rest);
      assert [e] + tail == entries;
    } else {
      assert WriteEntries(entries) + rest == rest;
    }
  }

  /** The keys of `codes` listed in `order`, with their codes. */
  function Restrict(codes: map<byte, seq<bool>>, order: seq<byte>): map<byte, seq<bool>>
  {
    map s | s in order && s in codes :: codes[s]
  }

  /**
   * Storing the entries written for `order` on top of `acc` gives `acc`
   * overridden by the codes of the keys in `order`.
   */
  lemma {:induction false} StoreEntries(acc: map<byte, seq<bool>>, codes: map<byte, seq<bool>>, order: seq<byte>)
    requires forall k :: 0 <= k < |order| ==> order[k] in codes
    ensures Store(acc, EntriesOf(codes, order)) == acc + Restrict(codes, order)
    decreases |order|
  {
    if order != [] {
      var s := order[0];
      var tail := order[1..];
      assert EntriesOf(codes, order)[1..] == EntriesOf(codes, tail);
      StoreEntries(acc[s := codes[s]], codes, tail);
      RestrictCons(acc, codes, order);
    }
  }

  /** Storing the first key's code, then the rest, overrides `acc` with all of `order`. */
  lemma RestrictCons(acc: map<byte, seq<bool>>, codes: map<byte, seq<bool>>, order: seq<byte>)
    requires order != [] && order[0] in codes
    ensures acc[order[0] := codes[order[0]]] + Restrict(codes, order[1..]) == acc + Restrict(codes, order)
  {
    var s, tail := order[0], order[1..];
    var lhs, rhs := acc[s := codes[s]] + Restrict(codes, tail), acc + Restrict(codes, order);
    forall t ensures t in lhs <==> t in rhs {
      if t != s && t in order {
        var k :| 0 <= k < |order| && order[k] == t;
        assert tail[k - 1] == t;
      }
    }
  }

  /** Storing the entries of an iteration order into an empty table rebuilds the table. */
  lemma StoreRebuilds(codes: map<byte, seq<bool>>, order: seq<byte>)
    requires IsEnumeration(order, codes.Keys)
    ensures Store(map[], EntriesOf(codes, order)) == codes
  {
    StoreEntries(map[], codes, order);
    assert map[] + Restrict(codes, order) == codes;
  }

  /**
   * Reading back the table the writer produced restores the same table, and
   * the payload starts right after it, provided the table has at most 255
   * entries and every code at most 255 bits.
   */
  lemma TableRoundTrip(codes: map<byte, seq<bool>>, order: seq<byte>, rest: seq<byte>)
    requires IsEnumeration(order, codes.Keys)
    requires |codes| <= 255
    requires forall s :: s in codes ==> |codes[s]| <= 255
    ensures ParseTable(TableBytes(codes, order) + rest) == Success((codes, rest))
  {
    var entries := EntriesOf(codes, order);
    var w := WriteEntries(entries);
    var archive := TableBytes(codes, order) + rest;
    EnumerationSize(order, codes.Keys);
    forall k | 0 <= k < |entries| ensures |entries[k].code| <= 255 {
      assert entries[k].code == codes[order[k]];
    }
    assert archive[0] == |entries|;
    assert archive[1..] == w + rest;
    ParseEntriesRoundTrip(entries, rest);
    StoreRebuilds(codes, order);
  }

  /** A set of byte values all below `n` has at most `n` elements. */
  lemma {:induction false} BytesBelow(keys: set<byte>, n: nat)
    requires forall b :: b in keys ==> b < n
    ensures |keys| <= n
    decreases n
  {
    if n == 0 {
      assert keys == {};
    } else {
      var lower := set b | b in keys && b < n - 1;
      BytesBelow(lower, n - 1);
      if top :| top in keys && top == n - 1 {
        assert keys == lower + {top};
      } else {
        assert keys == lower;
      }
    }
  }

  /**
   * A table keyed by bytes has at most 256 codes, so the count byte is the
   * number of codes except for a table of all 256 byte values, where it is 0.
   */
  lemma CountByte(codes: map<byte, seq<bool>>, order: seq<byte>)
    ensures |codes| <= 256
    ensures TableBytes(codes, order)[0] == if |codes| == 256 then 0 else |codes|
  {
    BytesBelow(codes.Keys, 256);
    assert |codes.Keys| == |codes|;
  }

  /**
   * A table with all 256 byte values writes 0 as its count byte, so the
   * reader finds an empty table and takes the first entry for the payload.
   */
  lemma FullAlphabetLost(codes: map<byte, seq<bool>>, order: seq<byte>, rest: seq<byte>)
    requires |codes| == 256
    ensures TableBytes(codes, order)[0] == 0
    ensures ParseTable(TableBytes(codes, order) + rest)
         == Success((map[], WriteEntries(EntriesOf(codes, order)) + rest))
  {
    var archive := TableBytes(codes, order) + rest;
    assert archive[0] == 0;
    assert archive[1..] == WriteEntries(EntriesOf(codes, order)) + rest;
  }
}

/** The superblock metainfo codec of the ReQL B-tree (src/btree/reql_specific.cc).
    The metainfo of a table shard is a list of key/value byte strings packed into one
    buffer: for each pair, a 4-byte length, the key, a 4-byte length, the value.
    The encoder grows the buffer pair by pair; the iterator walks it back, stopping
    cleanly on a truncated or corrupt tail. */
module Metainfo {
  import opened Wrappers
  import opened Bytes

  /** sizeof(sz_t): every length field is a 4-byte unsigned integer. */
  const SzSize: nat := 4

  /** UINT32_MAX; the encoder asserts that every key and value is shorter than this. */
  const UInt32Max: nat := 0xFFFF_FFFF

  /** One key/value pair of the metainfo. */
  datatype KeyValue = KeyValue(key: seq<byte>, value: seq<byte>)

  /** A length that a length field can hold. */
  predicate FitsSz(n: nat) {
    n < Pow256(SzSize)
  }

  /** Parallel lists of keys and values that the encoder can lay out. */
  predicate Representable(keys: seq<seq<byte>>, values: seq<seq<byte>>) {
    && |keys| == |values|
    && forall i :: 0 <= i < |keys| ==> FitsSz(|keys[i]|) && FitsSz(|values[i]|)
  }

  /** The pairs (keys[i], values[i]) in index order. */
  function Zip(keys: seq<seq<byte>>, values: seq<seq<byte>>): (r: seq<KeyValue>)
    requires |keys| == |values|
    ensures |r| == |keys|
  {
    if keys == [] then [] else [KeyValue(keys[0], values[0])] + Zip(keys[1..], values[1..])
  }

  /** The i-th element of Zip is the pair of the i-th key and the i-th value. */
  lemma {:induction false} ZipAt(keys: seq<seq<byte>>, values: seq<seq<byte>>, i: nat)
    requires |keys| == |values| && i < |keys|
    ensures Zip(keys, values)[i] == KeyValue(keys[i], values[i])
  {
    if i > 0 {
      ZipAt(keys[1..], values[1..], i - 1);
    }
  }

  /** The number of bytes the encoding of the pairs takes: 8 + |key| + |value| each. */
  function EncodedSize(keys: seq<seq<byte>>, values: seq<seq<byte>>): nat
    requires |keys| == |values|
  {
    if keys == [] then 0
    else 2 * SzSize + |keys[0]| + |values[0]| + EncodedSize(keys[1..], values[1..])
  }

  // ---------------------------------------------------------------- encoding

  /** One record: length, key, length, value. */
  function EncodeRecord(key: seq<byte>, value: seq<byte>): (r: seq<byte>)
    requires FitsSz(|key|) && FitsSz(|value|)
    ensures |r| == 2 * SzSize + |key| + |value|
  {
    LE(|key|, SzSize) + key + LE(|value|, SzSize) + value
  }

  /** The whole metainfo buffer: the records of the pairs, back to back. */
  function EncodeAll(keys: seq<seq<byte>>, values: seq<seq<byte>>): (r: seq<byte>)
    requires Representable(keys, values)
    ensures |r| == EncodedSize(keys, values)
  {
    if keys == [] then []
    else EncodeRecord(keys[0], values[0]) + EncodeAll(keys[1..], values[1..])
  }

  // ---------------------------------------------------------------- decoding

  /** The two lengths of a record; its key starts SzSize bytes in, its value
      2 * SzSize + keySize bytes in. */
  datatype Record = Record(keySize: nat, valueSize: nat) {
    function Size(): nat {
      2 * SzSize + keySize + valueSize
    }
  }

  /** The record that starts at offset p of buf, if a complete one does; the
      checks are those of `advance`, in its order. */
  function RecordAt(buf: seq<byte>, p: nat): (r: Option<Record>)
    requires p <= |buf|
    ensures r.Some? ==> p + r.value.Size() <= |buf|
    ensures r.Some? ==> FitsSz(r.value.keySize) && FitsSz(r.value.valueSize)
  {
    if p == |buf| || |buf| - p < SzSize then None
    else
      var keySize := FromLE(buf[p .. p + SzSize]);
      if |buf| - (p + SzSize) < keySize then None
      else if |buf| - (p + SzSize + keySize) < SzSize then None
      else
        var valueSize := FromLE(buf[p + SzSize + keySize .. p + 2 * SzSize + keySize]);
        if |buf| - (p + 2 * SzSize + keySize) < valueSize then None
        else Some(Record(keySize, valueSize))
  }

  /** The record at the head of s, if s begins with a complete one. */
  function HeadRecord(s: seq<byte>): Option<Record> {
    RecordAt(s, 0)
  }

  /** Whether a record starts at p depends only on the bytes from p on. */
  lemma RecordAtSuffix(buf: seq<byte>, p: nat)
    requires p <= |buf|
    ensures RecordAt(buf, p) == HeadRecord(buf[p..])
  {
    var s := buf[p..];
    if SzSize <= |s| {
      assert s[0 .. SzSize] == buf[p .. p + SzSize];
      var k := FromLE(buf[p .. p + SzSize]);
      if 2 * SzSize + k <= |s| {
        assert s[SzSize + k .. 2 * SzSize + k] == buf[p + SzSize + k .. p + 2 * SzSize + k];
      }
    }
  }

  /** The key and value bytes of the record r at the head of s. */
  function PairAt(s: seq<byte>, r: Record): KeyValue
    requires r.Size() <= |s|
  {
    KeyValue(s[SzSize .. SzSize + r.keySize], s[2 * SzSize + r.keySize .. r.Size()])
  }

  /** The pairs of all complete records at the front of s, in order. */
  function Parse(s: seq<byte>): (r: seq<KeyValue>)
    decreases |s|
  {
    match HeadRecord(s)
    case None => []
    case Some(rec) => [PairAt(s, rec)] + Parse(s[rec.Size()..])
  }

  /** What is left of s after its complete records: a fragment that is not a record. */
  function Unparsed(s: seq<byte>): seq<byte>
    decreases |s|
  {
    match HeadRecord(s)
    case None => s
    case Some(rec) => Unparsed(s[rec.Size()..])
  }

  // ---------------------------------------------------------------- the iterator

  /** A pointer into the buffer: null, or the offset it points at. */
  datatype Ptr = Null | At(offset: nat)

  /** The fields of a metainfo iterator, as one value. */
  datatype Cursor = Cursor(pos: nat, nextPos: nat, keySize: nat, keyPtr: Ptr, valueSize: nat, valuePtr: Ptr)

  /** The state `advance` leaves when it gives up: both positions at the end,
      both sizes 0, both pointers null. */
  function EndCursor(end: nat): Cursor {
    Cursor(end, end, 0, Null, 0, Null)
  }

  /** The fields `advance(p)` leaves in an iterator over buf. */
  function AdvanceFrom(buf: seq<byte>, p: nat): (c: Cursor)
    requires p <= |buf|
    // either the end state, or a record at p that ends inside the buffer
    ensures || c == EndCursor(|buf|)
            || (&& c.pos == p < c.nextPos <= |buf|
                && c.nextPos == p + 2 * SzSize + c.keySize + c.valueSize
                && c.keyPtr == At(p + SzSize)
                && c.valuePtr == At(p + 2 * SzSize + c.keySize))
    // at the end, or too few bytes for the key's length field
    ensures |buf| - p < SzSize ==> c == EndCursor(|buf|)
    ensures SzSize <= |buf| - p ==>
      var k := FromLE(buf[p .. p + SzSize]);
      // a declared key length longer than the bytes after its length field
      && (|buf| - p - SzSize < k ==> c == EndCursor(|buf|))
      // too few bytes after the key for the value's length field
      && (k <= |buf| - p - SzSize < k + SzSize ==> c == EndCursor(|buf|))
      && (k + SzSize <= |buf| - p - SzSize ==>
            var v := FromLE(buf[p + SzSize + k .. p + 2 * SzSize + k]);
            // a declared value length longer than the bytes after its length field
            && (|buf| - p - 2 * SzSize - k < v ==> c == EndCursor(|buf|))
            // every check passes: the record at p, with the lengths read from it
            && (v <= |buf| - p - 2 * SzSize - k ==>
                  c == Cursor(p, p + 2 * SzSize + k + v, k, At(p + SzSize), v, At(p + 2 * SzSize + k))))
  {
    match RecordAt(buf, p)
    case None => EndCursor(|buf|)
    case Some(r) =>
      Cursor(p, p + r.Size(), r.keySize, At(p + SzSize), r.valueSize, At(p + 2 * SzSize + r.keySize))
  }

  /** An iterator over the metainfo buffer [0, |buf|). */
  class MetainfoIterator {
    const buf: seq<byte>
    var pos: nat
    var nextPos: nat
    var keySize: nat
    var keyPtr: Ptr
    var valueSize: nat
    var valuePtr: Ptr

    function Fields(): Cursor
      reads this
    {
      Cursor(pos, nextPos, keySize, keyPtr, valueSize, valuePtr)
    }

    /** The fields are those that advance(pos) leaves behind. */
    ghost predicate Valid()
      reads this
    {
      pos <= |buf| && Fields() == AdvanceFrom(buf, pos)
    }

    predicate IsEnd()
      reads this
    {
      pos == |buf|
    }

    /** The pairs of the complete records from the current one on. */
    ghost function Remaining(): seq<KeyValue>
      reads this
      requires pos <= |buf|
    {
      Parse(buf[pos..])
    }

    /** The iterator starts on the first record. */
    constructor (buf: seq<byte>)
      ensures this.buf == buf
      ensures Valid() && Fields() == AdvanceFrom(buf, 0)
      ensures Remaining() == Parse(buf)
    {
      this.buf := buf;
      new;
      Advance(0);
      ParseAfterAdvance(buf, 0);
    }

    /** Parses the record at p, or moves to the end state if none is complete there. */
    method Advance(p: nat)
      requires p <= |buf|
      modifies this
      ensures Fields() == AdvanceFrom(buf, p)
      ensures Valid()
    {
      var cur := p;
      label checkFailed: {
        if cur == |buf| {
          break checkFailed;
        }
        if |buf| - cur < SzSize {
          break checkFailed;
        }
        keySize := FromLE(buf[cur .. cur + SzSize]);
        cur := cur + SzSize;

        if |buf| - cur < keySize {
          break checkFailed;
        }
        keyPtr := At(cur);
        cur := cur + keySize;

        if |buf| - cur < SzSize {
          break checkFailed;
        }
        valueSize := FromLE(buf[cur .. cur + SzSize]);
        cur := cur + SzSize;

        if |buf| - cur < valueSize {
          break checkFailed;
        }
        valuePtr := At(cur);
        cur := cur + valueSize;

        pos := p;
        nextPos := cur;
        return;
      }
      pos, nextPos := |buf|, |buf|;
      keySize, valueSize := 0, 0;
      keyPtr, valuePtr := Null, Null;
    }

    /** operator++: moves to the next record; at the end it changes nothing. */
    method Next()
      requires Valid()
      modifies this
      ensures Valid()
      ensures Fields() == if old(IsEnd()) then old(Fields()) else AdvanceFrom(buf, old(nextPos))
      ensures !old(IsEnd()) ==> old(pos) < pos && old(Remaining()) != [] && Remaining() == old(Remaining())[1..]
    {
      if !IsEnd() {
        ParseHead(buf, pos);
        ParseAfterAdvance(buf, nextPos);
        Advance(nextPos);
      }
    }

    /** The bytes of the current key: those of the first remaining pair. */
    method Key() returns (key: seq<byte>)
      requires Valid() && !IsEnd()
      ensures Remaining() != [] && key == Remaining()[0].key
    {
      key := buf[keyPtr.offset .. keyPtr.offset + keySize];
      ParseHead(buf, pos);
    }

    /** The bytes of the current value: those of the first remaining pair. */
    method Value() returns (value: seq<byte>)
      requires Valid() && !IsEnd()
      ensures Remaining() != [] && value == Remaining()[0].value
    {
      value := buf[valuePtr.offset .. valuePtr.offset + valueSize];
      ParseHead(buf, pos);
    }
  }

  /** When a record is found at p, the first pair that Parse yields from p is the
      one the iterator's pointers and sizes delimit, and the rest is parsed from
      the record's end. */
  lemma ParseHead(buf: seq<byte>, p: nat)
    requires p <= |buf|
    requires AdvanceFrom(buf, p).pos == p < |buf|
    ensures var c := AdvanceFrom(buf, p);
      && Parse(buf[p..]) != []
      && Parse(buf[p..])[0] == KeyValue(buf[c.keyPtr.offset .. c.keyPtr.offset + c.keySize],
                                        buf[c.valuePtr.offset .. c.valuePtr.offset + c.valueSize])
      && Parse(buf[p..])[1..] == Parse(buf[c.nextPos..])
  {
    RecordAtSuffix(buf, p);
    var r := HeadRecord(buf[p..]).value;
    assert buf[p..][r.Size()..] == buf[p + r.Size()..];
  }

  /** Parsing from where the iterator lands after advance(p) yields what parsing
      from p yields when advance(p) found nothing. */
  lemma ParseAfterAdvance(buf: seq<byte>, p: nat)
    requires p <= |buf|
    ensures Parse(buf[AdvanceFrom(buf, p).pos..]) == Parse(buf[p..])
  {
    RecordAtSuffix(buf, p);
    if HeadRecord(buf[p..]).None? {
      assert buf[|buf|..] == [];
    }
  }

  /** get_superblock_metainfo: drains an iterator over the buffer, pushing every
      pair onto kvPairs. */
  method GetSuperblockMetainfo(metainfo: seq<byte>, kvPairs: seq<KeyValue>)
    returns (kvPairsOut: seq<KeyValue>)
    ensures kvPairsOut == kvPairs + Parse(metainfo)
  {
    kvPairsOut := kvPairs;
    var iter := new MetainfoIterator(metainfo);
    while !iter.IsEnd()
      invariant iter.Valid()
      invariant kvPairsOut + iter.Remaining() == kvPairs + Parse(metainfo)
      decreases |iter.buf| - iter.pos
    {
      ghost var remaining := iter.Remaining();
      var key := iter.Key();
      var value := iter.Value();
      kvPairsOut := kvPairsOut + [KeyValue(key, value)];
      iter.Next();
      assert kvPairsOut + iter.Remaining() == kvPairs + Parse(metainfo) by {
        assert iter.Remaining() == remaining[1..];
        assert remaining == [KeyValue(key, value)] + remaining[1..];
      }
    }
    assert iter.buf[iter.pos..] == [];
  }

  /** set_superblock_metainfo, list form: the buffer it builds and writes. */
  method SetSuperblockMetainfo(keys: seq<seq<byte>>, values: seq<seq<byte>>)
    returns (metainfo: seq<byte>)
    requires |keys| == |values|
    requires forall i :: 0 <= i < |keys| ==> |keys[i]| < UInt32Max && |values[i]| < UInt32Max
    ensures Representable(keys, values)
    ensures metainfo == EncodeAll(keys, values)
    ensures |metainfo| == EncodedSize(keys, values)
    ensures Parse(metainfo) == Zip(keys, values)
  {
    metainfo := [];
    var i := 0;
    while i < |keys|
      invariant 0 <= i <= |keys|
      invariant metainfo == EncodeAll(keys[..i], values[..i])
    {
      metainfo := metainfo + LE(|keys[i]|, SzSize);
      metainfo := metainfo + keys[i];
      metainfo := metainfo + LE(|values[i]|, SzSize);
      metainfo := metainfo + values[i];
      EncodeAllSnoc(keys[..i], values[..i], keys[i], values[i]);
      assert keys[..i + 1] == keys[..i] + [keys[i]];
      assert values[..i + 1] == values[..i] + [values[i]];
      i := i + 1;
    }
    assert keys[..i] == keys && values[..i] == values;
    MetainfoRoundTrip(keys, values);
  }

  /** set_superblock_metainfo, single-pair form: the list form on one-element lists. */
  method SetSuperblockMetainfoPair(key: seq<byte>, value: seq<byte>)
    returns (metainfo: seq<byte>)
    requires |key| < UInt32Max && |value| < UInt32Max
    ensures metainfo == EncodeRecord(key, value)
    ensures Parse(metainfo) == [KeyValue(key, value)]
  {
    metainfo := SetSuperblockMetainfo([key], [value]);
    assert EncodeAll([key], [value]) == EncodeRecord(key, value) + EncodeAll([], []);
  }

  // ---------------------------------------------------------------- lemmas

  /** One step of Parse and Unparsed on a buffer that starts with a record. */
  lemma ParseStep(s: seq<byte>)
    requires HeadRecord(s).Some?
    ensures var r := HeadRecord(s).value;
      && Parse(s) == [PairAt(s, r)] + Parse(s[r.Size()..])
      && Unparsed(s) == Unparsed(s[r.Size()..])
  {
  }

  /** Appending one pair to the lists appends its record to the buffer. */
  lemma {:induction false} EncodeAllSnoc(keys: seq<seq<byte>>, values: seq<seq<byte>>,
                                         key: seq<byte>, value: seq<byte>)
    requires Representable(keys, values) && FitsSz(|key|) && FitsSz(|value|)
    ensures Representable(keys + [key], values + [value])
    ensures EncodeAll(keys + [key], values + [value]) == EncodeAll(keys, values) + EncodeRecord(key, value)
  {
    if keys != [] {
      assert (keys + [key])[1..] == keys[1..] + [key];
      assert (values + [value])[1..] == values[1..] + [value];
      EncodeAllSnoc(keys[1..], values[1..], key, value);
    }
  }

  /** An encoded record at the front of a buffer parses back to its key and value,
      whatever follows it. */
  lemma HeadRecordOfEncoded(key: seq<byte>, value: seq<byte>, rest: seq<byte>)
    requires FitsSz(|key|) && FitsSz(|value|)
    ensures var s := EncodeRecord(key, value) + rest;
      && HeadRecord(s) == Some(Record(|key|, |value|))
      && PairAt(s, Record(|key|, |value|)) == KeyValue(key, value)
  {
    var s := EncodeRecord(key, value) + rest;
    var k := |key|;
    assert s[..SzSize] == LE(k, SzSize);
    FromLEOfLE(k, SzSize);
    assert s[SzSize + k .. 2 * SzSize + k] == LE(|value|, SzSize);
    FromLEOfLE(|value|, SzSize);
    assert s[SzSize .. SzSize + k] == key;
    assert s[2 * SzSize + k .. 2 * SzSize + k + |value|] == value;
  }

  /** Conversely, a record found at the head of s is the encoding of the pair it
      yields: the parser accepts exactly what the encoder writes. */
  lemma HeadRecordIsEncoded(s: seq<byte>)
    requires HeadRecord(s).Some?
    ensures var r := HeadRecord(s).value;
      var kv := PairAt(s, r);
      && FitsSz(|kv.key|) && FitsSz(|kv.value|)
      && s == EncodeRecord(kv.key, kv.value) + s[r.Size()..]
  {
    var r := HeadRecord(s).value;
    var kv := PairAt(s, r);
    LEOfFromLE(s[..SzSize]);
    LEOfFromLE(s[SzSize + r.keySize .. 2 * SzSize + r.keySize]);
    assert s == s[..SzSize] + s[SzSize .. SzSize + r.keySize]
              + s[SzSize + r.keySize .. 2 * SzSize + r.keySize]
              + s[2 * SzSize + r.keySize .. r.Size()] + s[r.Size()..];
  }

  /** Parsing one encoded record followed by any tail yields its pair, then
      whatever the tail yields. */
  lemma ParseRecordThen(key: seq<byte>, value: seq<byte>, rest: seq<byte>)
    requires FitsSz(|key|) && FitsSz(|value|)
    ensures Parse(EncodeRecord(key, value) + rest) == [KeyValue(key, value)] + Parse(rest)
  {
    var s := EncodeRecord(key, value) + rest;
    HeadRecordOfEncoded(key, value, rest);
    ParseStep(s);
    assert s[Record(|key|, |value|).Size()..] == rest;
  }

  /** Parsing the encoding of the pairs followed by any tail yields the pairs, in
      order, then whatever the tail yields. */
  lemma {:induction false} ParseEncodedThen(keys: seq<seq<byte>>, values: seq<seq<byte>>, tail: seq<byte>)
    requires Representable(keys, values)
    ensures Parse(EncodeAll(keys, values) + tail) == Zip(keys, values) + Parse(tail)
  {
    if keys == [] {
      assert EncodeAll(keys, values) + tail == tail;
    } else {
      var kv := KeyValue(keys[0], values[0]);
      var keys', values' := keys[1..], values[1..];
      assert Representable(keys', values');
      var rest := EncodeAll(keys', values') + tail;
      calc {
        Parse(EncodeAll(keys, values) + tail);
        { assert EncodeAll(keys, values) + tail == EncodeRecord(keys[0], values[0]) + rest; }
        Parse(EncodeRecord(keys[0], values[0]) + rest);
        { ParseRecordThen(keys[0], values[0], rest); }
        [kv] + Parse(rest);
        { ParseEncodedThen(keys', values', tail); }
        [kv] + (Zip(keys', values') + Parse(tail));
        ([kv] + Zip(keys', values')) + Parse(tail);
        Zip(keys, values) + Parse(tail);
      }
    }
  }

  /** Iterating over the buffer built from keys and values yields exactly the
      pairs (keys[i], values[i]) in index order. */
  lemma MetainfoRoundTrip(keys: seq<seq<byte>>, values: seq<seq<byte>>)
    requires Representable(keys, values)
    ensures Parse(EncodeAll(keys, values)) == Zip(keys, values)
  {
    ParseEncodedThen(keys, values, []);
    assert EncodeAll(keys, values) + [] == EncodeAll(keys, values);
  }

  /** A trailing fragment that is not a complete record is dropped silently, and
      every complete record before it is still returned. */
  lemma TrailingFragmentDropped(keys: seq<seq<byte>>, values: seq<seq<byte>>, tail: seq<byte>)
    requires Representable(keys, values)
    requires HeadRecord(tail).None?
    ensures Parse(EncodeAll(keys, values) + tail) == Zip(keys, values)
  {
    ParseEncodedThen(keys, values, tail);
  }

  /** Fewer bytes than one length field, or than the two length fields of an
      empty record, can never hold a record. */
  lemma ShortFragmentIsNotRecord(tail: seq<byte>)
    requires |tail| < 2 * SzSize
    ensures HeadRecord(tail).None?
  {
  }

  /** Every buffer is the encoding of some keys and values, followed by a fragment
      that is not a complete record, and Parse yields exactly those pairs. */
  lemma {:induction false} ParseDecomposes(s: seq<byte>)
    returns (keys: seq<seq<byte>>, values: seq<seq<byte>>)
    ensures Representable(keys, values)
    ensures Parse(s) == Zip(keys, values)
    ensures s == EncodeAll(keys, values) + Unparsed(s)
    ensures HeadRecord(Unparsed(s)).None?
  {
    if HeadRecord(s).None? {
      keys, values := [], [];
      assert Parse(s) == [] && Unparsed(s) == s;
    } else {
      var r := HeadRecord(s).value;
      var rest := s[r.Size()..];
      var kv := PairAt(s, r);
      ParseStep(s);
      var keys', values' := ParseDecomposes(rest);
      HeadRecordIsEncoded(s);
      keys, values := [kv.key] + keys', [kv.value] + values';
      assert keys[1..] == keys' && values[1..] == values';
      assert Representable(keys, values) by {
        forall i | 0 <= i < |keys|
          ensures FitsSz(|keys[i]|) && FitsSz(|values[i]|)
        {
          if i > 0 {
            assert keys[i] == keys'[i - 1] && values[i] == values'[i - 1];
          }
        }
      }
      calc {
        EncodeAll(keys, values) + Unparsed(s);
        (EncodeRecord(kv.key, kv.value) + EncodeAll(keys', values')) + Unparsed(rest);
        EncodeRecord(kv.key, kv.value) + (EncodeAll(keys', values') + Unparsed(rest));
        EncodeRecord(kv.key, kv.value) + rest;
        s;
      }
    }
  }
}

/** The metadata file of a server (src/clustering/administration/persist/file.cc):
    the on-disk metadata superblock with its version magic and its root and stat
    block ids, and the key handling of its read and write transactions. */
module PersistFile {
  import opened Wrappers
  import opened Bytes

  // ---------------------------------------------------------------- versions

  /** The cluster versions whose metadata files can be opened, oldest first. */
  datatype ClusterVersion = V1_14 | V1_15 | V1_16 | V2_0 | V2_1 | V2_2 | V2_3 | V2_4

  /** The position of a version in cluster_version_t's order. */
  function VersionOrdinal(v: ClusterVersion): nat {
    match v
    case V1_14 => 0
    case V1_15 => 1
    case V1_16 => 2
    case V2_0 => 3
    case V2_1 => 4
    case V2_2 => 5
    case V2_3 => 6
    case V2_4 => 7
  }

  const TooOldMessage: string :=
    "This version of RethinkDB cannot migrate in-place from databases created by versions older than RethinkDB 1.14."
  const LaterVersionMessage: string :=
    "You're trying to use an earlier version of RethinkDB to open a database created by a later version of RethinkDB."

  /** The byte of an ASCII character. */
  function Ch(c: char): byte
    requires c as int < 256
  {
    c as int as byte
  }

  /** block_magic_t: four bytes. */
  type Magic = m: seq<byte> | |m| == 4 witness [0, 0, 0, 0]

  /** The magic this version writes: 'RDml'. Version 1.13 wrote 'RDmd', and every
      version since has incremented the last letter. */
  const MetadataSbMagic: Magic := [Ch('R'), Ch('D'), Ch('m'), Ch('l')]

  /** The last letter of the magic that a version's metadata carries. */
  function VersionLetter(v: ClusterVersion): char {
    ('e' as int + VersionOrdinal(v)) as char
  }

  /** The magic that a version's metadata carries. */
  function VersionMagic(v: ClusterVersion): Magic {
    [Ch('R'), Ch('D'), Ch('m'), Ch(VersionLetter(v))]
  }

  /** magic_to_version. */
  function MagicToVersion(magic: Magic): (r: Result<ClusterVersion, Failure>)
    // a guarantee fails exactly when the magic does not start with 'RDm'
    ensures r == Err(GuaranteeFailed("")) <==> magic[..3] != MetadataSbMagic[..3]
    // an accepted magic ends in a letter from 'e' to 'l'
    ensures r.Ok? ==> Ch('e') <= magic[3] <= Ch('l')
    // every other magic is a user error
    ensures r.Err? && magic[..3] == MetadataSbMagic[..3] ==> r.error.UserError?
  {
    if magic[0] != MetadataSbMagic[0] then Err(GuaranteeFailed(""))
    else if magic[1] != MetadataSbMagic[1] then Err(GuaranteeFailed(""))
    else if magic[2] != MetadataSbMagic[2] then Err(GuaranteeFailed(""))
    else if magic[3] == Ch('d') then Err(UserError(TooOldMessage))
    else if magic[3] == Ch('e') then Ok(V1_14)
    else if magic[3] == Ch('f') then Ok(V1_15)
    else if magic[3] == Ch('g') then Ok(V1_16)
    else if magic[3] == Ch('h') then Ok(V2_0)
    else if magic[3] == Ch('i') then Ok(V2_1)
    else if magic[3] == Ch('j') then Ok(V2_2)
    else if magic[3] == Ch('k') then Ok(V2_3)
    else if magic[3] == Ch('l') then Ok(V2_4)
    else Err(UserError(LaterVersionMessage))
  }

  /** Every version's magic is recognised as that version. */
  lemma MagicOfVersionRecognised(v: ClusterVersion)
    ensures MagicToVersion(VersionMagic(v)) == Ok(v)
  {
  }

  /** Conversely, a recognised magic is exactly the magic of the version it yields:
      'R', 'D', 'm', then the version's letter. */
  lemma RecognisedMagicIsVersionMagic(magic: Magic)
    requires MagicToVersion(magic).Ok?
    ensures magic == VersionMagic(MagicToVersion(magic).value)
  {
  }

  /** The magic this version writes is that of the latest version, 2.4. */
  lemma CurrentMagicIsLatest()
    ensures MagicToVersion(MetadataSbMagic) == Ok(V2_4)
    ensures forall v: ClusterVersion :: VersionOrdinal(v) <= VersionOrdinal(V2_4)
  {
  }

  /** Of two recognised magics, the one with the later letter names the later
      version, and distinct letters name distinct versions. */
  lemma VersionFollowsLetter(m1: Magic, m2: Magic)
    requires MagicToVersion(m1).Ok? && MagicToVersion(m2).Ok?
    ensures m1[3] < m2[3] <==> VersionOrdinal(MagicToVersion(m1).value) < VersionOrdinal(MagicToVersion(m2).value)
    ensures m1[3] == m2[3] <==> MagicToVersion(m1).value == MagicToVersion(m2).value
  {
    RecognisedMagicIsVersionMagic(m1);
    RecognisedMagicIsVersionMagic(m2);
  }

  /** The three ways a magic is refused: a wrong 'RDm' prefix fails a guarantee;
      'RDmd' (version 1.13) is too old to migrate; any other letter outside
      'e'..'l' is taken for a later version. */
  lemma MagicRejections(magic: Magic)
    ensures magic[..3] != MetadataSbMagic[..3] ==> MagicToVersion(magic) == Err(GuaranteeFailed(""))
    ensures magic[..3] == MetadataSbMagic[..3] && magic[3] == Ch('d') ==>
      MagicToVersion(magic) == Err(UserError(TooOldMessage))
    ensures magic[..3] == MetadataSbMagic[..3] && !(Ch('d') <= magic[3] <= Ch('l')) ==>
      MagicToVersion(magic) == Err(UserError(LaterVersionMessage))
  {
    if magic[..3] != MetadataSbMagic[..3] {
      // two sequences of length 3 that differ, differ at an index
      assert !(magic[0] == MetadataSbMagic[0] && magic[1] == MetadataSbMagic[1] && magic[2] == MetadataSbMagic[2]);
    }
  }

  // ---------------------------------------------------------------- the superblock image

  /** metadata_disk_superblock_t, packed: the magic, the root block id, the stat
      block id; block ids in the model's (little-endian) byte order. */
  const RootOffset: nat := 4
  const StatOffset: nat := 12
  const BlockIdSize: nat := 8
  const SuperblockSize: nat := 20

  /** NULL_BLOCK_ID: the all-ones block id. */
  const NullBlockId: BlockId := 0xFFFF_FFFF_FFFF_FFFF

  function MagicOf(img: seq<byte>): Magic
    requires |img| >= SuperblockSize
  {
    img[..RootOffset]
  }

  function RootOf(img: seq<byte>): nat
    requires |img| >= SuperblockSize
  {
    FromLE(img[RootOffset .. StatOffset])
  }

  function StatOf(img: seq<byte>): nat
    requires |img| >= SuperblockSize
  {
    FromLE(img[StatOffset .. SuperblockSize])
  }

  /** The image with its magic field overwritten. */
  function WithMagic(img: seq<byte>, magic: Magic): (r: seq<byte>)
    requires |img| >= SuperblockSize
    ensures |r| == |img|
  {
    magic + img[RootOffset..]
  }

  /** The image with its root block id field overwritten. */
  function WithRoot(img: seq<byte>, b: BlockId): (r: seq<byte>)
    requires |img| >= SuperblockSize
    ensures |r| == |img|
  {
    Pow256Of8();
    img[..RootOffset] + LE(b, BlockIdSize) + img[StatOffset..]
  }

  /** The image with its stat block id field overwritten. */
  function WithStat(img: seq<byte>, b: BlockId): (r: seq<byte>)
    requires |img| >= SuperblockSize
    ensures |r| == |img|
  {
    Pow256Of8();
    img[..StatOffset] + LE(b, BlockIdSize) + img[SuperblockSize..]
  }

  function Zeros(n: nat): (r: seq<byte>)
    ensures |r| == n
  {
    seq(n, _ => 0)
  }

  /** The block init_metadata_superblock leaves: zeroed, then the current magic
      and null root and stat block ids written over it. */
  function InitialImage(blockSize: nat): (r: seq<byte>)
    requires blockSize >= SuperblockSize
    ensures |r| == blockSize
  {
    WithStat(WithRoot(WithMagic(Zeros(blockSize), MetadataSbMagic), NullBlockId), NullBlockId)
  }

  /** Writing the root block id: a later read of it gives b, and the magic, the
      stat block id and the rest of the block are unchanged. */
  lemma SetRootThenGet(img: seq<byte>, b: BlockId)
    requires |img| >= SuperblockSize
    ensures RootOf(WithRoot(img, b)) == b
    ensures StatOf(WithRoot(img, b)) == StatOf(img)
    ensures MagicOf(WithRoot(img, b)) == MagicOf(img)
    ensures WithRoot(img, b)[SuperblockSize..] == img[SuperblockSize..]
  {
    Pow256Of8();
    var r := WithRoot(img, b);
    assert r[RootOffset .. StatOffset] == LE(b, BlockIdSize);
    FromLEOfLE(b, BlockIdSize);
    assert r[StatOffset .. SuperblockSize] == img[StatOffset .. SuperblockSize];
  }

  /** Writing the stat block id: a later read of it gives b, and the magic, the
      root block id and the rest of the block are unchanged. */
  lemma SetStatThenGet(img: seq<byte>, b: BlockId)
    requires |img| >= SuperblockSize
    ensures StatOf(WithStat(img, b)) == b
    ensures RootOf(WithStat(img, b)) == RootOf(img)
    ensures MagicOf(WithStat(img, b)) == MagicOf(img)
    ensures WithStat(img, b)[SuperblockSize..] == img[SuperblockSize..]
  {
    Pow256Of8();
    var r := WithStat(img, b);
    assert r[StatOffset .. SuperblockSize] == LE(b, BlockIdSize);
    FromLEOfLE(b, BlockIdSize);
    assert r[RootOffset .. StatOffset] == img[RootOffset .. StatOffset];
  }

  /** update_metadata_superblock_version rewrites only the magic: afterwards the
      block reads as the latest version, with its root and stat block ids and the
      rest of the block as they were. */
  lemma UpdateVersionKeepsBlocks(img: seq<byte>)
    requires |img| >= SuperblockSize
    ensures MagicToVersion(MagicOf(WithMagic(img, MetadataSbMagic))) == Ok(V2_4)
    ensures RootOf(WithMagic(img, MetadataSbMagic)) == RootOf(img)
    ensures StatOf(WithMagic(img, MetadataSbMagic)) == StatOf(img)
    ensures WithMagic(img, MetadataSbMagic)[SuperblockSize..] == img[SuperblockSize..]
  {
    var r := WithMagic(img, MetadataSbMagic);
    assert MagicOf(r) == MetadataSbMagic;
    assert r[RootOffset .. StatOffset] == img[RootOffset .. StatOffset];
    assert r[StatOffset .. SuperblockSize] == img[StatOffset .. SuperblockSize];
  }

  /** A freshly initialised superblock is of the latest version, has null root
      and stat block ids, and is zero past the superblock fields. */
  lemma InitialImageFields(blockSize: nat)
    requires blockSize >= SuperblockSize
    ensures MagicToVersion(MagicOf(InitialImage(blockSize))) == Ok(V2_4)
    ensures RootOf(InitialImage(blockSize)) == NullBlockId
    ensures StatOf(InitialImage(blockSize)) == NullBlockId
    ensures forall i :: SuperblockSize <= i < blockSize ==> InitialImage(blockSize)[i] == 0
  {
    var z := Zeros(blockSize);
    var m := WithMagic(z, MetadataSbMagic);
    var r := WithRoot(m, NullBlockId);
    UpdateVersionKeepsBlocks(z);
    SetRootThenGet(m, NullBlockId);
    SetStatThenGet(r, NullBlockId);
    assert InitialImage(blockSize)[SuperblockSize..] == z[SuperblockSize..];
    forall i | SuperblockSize <= i < blockSize
      ensures InitialImage(blockSize)[i] == 0
    {
      assert InitialImage(blockSize)[i] == InitialImage(blockSize)[SuperblockSize..][i - SuperblockSize];
    }
  }

  // ---------------------------------------------------------------- the buffer, in place

  /** Copies bytes into a at offset off. */
  method WriteBytes(a: array<byte>, off: nat, bytes: seq<byte>)
    requires off + |bytes| <= a.Length
    modifies a
    ensures a[..] == old(a[..off]) + bytes + old(a[off + |bytes|..])
  {
    for i := 0 to |bytes|
      invariant forall j :: 0 <= j < a.Length ==>
        a[j] == if off <= j < off + i then bytes[j - off] else old(a[j])
    {
      a[off + i] := bytes[i];
    }
    assert a[..] == old(a[..off]) + bytes + old(a[off + |bytes|..]);
  }

  /** Reads the n-byte unsigned integer stored at offset off of a. */
  method ReadLE(a: array<byte>, off: nat, n: nat) returns (v: nat)
    requires off + n <= a.Length
    ensures v == FromLE(a[off .. off + n])
  {
    v := 0;
    var i := n;
    while i > 0
      invariant 0 <= i <= n
      invariant v == FromLE(a[off + i .. off + n])
    {
      i := i - 1;
      assert a[off + i .. off + n][1..] == a[off + i + 1 .. off + n];
      v := a[off + i] as nat + 256 * v;
    }
  }

  /** init_metadata_superblock: zeroes the first blockSize bytes of the buffer,
      then writes the current magic and null root and stat block ids. */
  method InitMetadataSuperblock(sb: array<byte>, blockSize: nat)
    requires SuperblockSize <= blockSize <= sb.Length
    modifies sb
    ensures sb[..blockSize] == InitialImage(blockSize)
    ensures sb[blockSize..] == old(sb[blockSize..])
  {
    for i := 0 to blockSize
      invariant forall j :: 0 <= j < i ==> sb[j] == 0
      invariant sb[blockSize..] == old(sb[blockSize..])
    {
      sb[i] := 0;
    }
    assert sb[..blockSize] == Zeros(blockSize);
    Pow256Of8();
    ghost var img := sb[..blockSize];
    ghost var whole := sb[..];
    WriteBytes(sb, 0, MetadataSbMagic);
    SplicePrefix(whole, 0, MetadataSbMagic, blockSize);
    assert sb[..blockSize] == WithMagic(img, MetadataSbMagic);
    img, whole := sb[..blockSize], sb[..];
    WriteBytes(sb, RootOffset, LE(NullBlockId, BlockIdSize));
    SplicePrefix(whole, RootOffset, LE(NullBlockId, BlockIdSize), blockSize);
    assert sb[..blockSize] == WithRoot(img, NullBlockId);
    img, whole := sb[..blockSize], sb[..];
    WriteBytes(sb, StatOffset, LE(NullBlockId, BlockIdSize));
    SplicePrefix(whole, StatOffset, LE(NullBlockId, BlockIdSize), blockSize);
    assert sb[..blockSize] == WithStat(img, NullBlockId);
  }

  /** Overwriting bytes inside the first m bytes of x, seen through those m bytes. */
  lemma SplicePrefix(x: seq<byte>, off: nat, bytes: seq<byte>, m: nat)
    requires off + |bytes| <= m <= |x|
    ensures (x[..off] + bytes + x[off + |bytes|..])[..m] == x[..m][..off] + bytes + x[..m][off + |bytes|..]
    ensures (x[..off] + bytes + x[off + |bytes|..])[m..] == x[m..]
  {
  }

  /** update_metadata_superblock_version: rewrites the magic to the current one. */
  method UpdateMetadataSuperblockVersion(sb: array<byte>)
    requires SuperblockSize <= sb.Length
    modifies sb
    ensures sb[..] == WithMagic(old(sb[..]), MetadataSbMagic)
  {
    WriteBytes(sb, 0, MetadataSbMagic);
  }

  /** metadata_superblock_t: the root and stat block ids of the superblock buffer it holds. */
  class MetadataSuperblock {
    const buf: array<byte>

    ghost predicate Valid()
      reads this
    {
      buf.Length >= SuperblockSize
    }

    constructor (buf: array<byte>)
      requires buf.Length >= SuperblockSize
      ensures this.buf == buf && Valid()
    {
      this.buf := buf;
    }

    method GetRootBlockId() returns (b: nat)
      requires Valid()
      ensures b == RootOf(buf[..])
    {
      b := ReadLE(buf, RootOffset, BlockIdSize);
      assert buf[..][RootOffset .. StatOffset] == buf[RootOffset .. StatOffset];
    }

    method SetRootBlockId(newRootBlock: BlockId)
      requires Valid()
      modifies buf
      ensures buf[..] == WithRoot(old(buf[..]), newRootBlock)
    {
      Pow256Of8();
      WriteBytes(buf, RootOffset, LE(newRootBlock, BlockIdSize));
    }

    method GetStatBlockId() returns (b: nat)
      requires Valid()
      ensures b == StatOf(buf[..])
    {
      b := ReadLE(buf, StatOffset, BlockIdSize);
      assert buf[..][StatOffset .. SuperblockSize] == buf[StatOffset .. SuperblockSize];
    }

    method SetStatBlockId(newStatBlock: BlockId)
      requires Valid()
      modifies buf
      ensures buf[..] == WithStat(old(buf[..]), newStatBlock)
    {
      Pow256Of8();
      WriteBytes(buf, StatOffset, LE(newStatBlock, BlockIdSize));
    }
  }

  // ---------------------------------------------------------------- keys of the metadata store

  /** Every metadata key is stored under this prefix in the key-value store. */
  const MetadataPrefix: string := "rethinkdb/metadata/"

  /** A key and its stored bytes. */
  datatype Entry = Entry(key: string, value: seq<byte>)

  /** read_many_bin: for each entry read under the prefix, in the order given,
      checks that its key starts with keyPrefix and calls back with the rest of
      the key. calls lists the callbacks made; crashed says that a check failed,
      which ends the process at the first offending entry. */
  method ReadManyBin(keyPrefix: string, all: seq<Entry>) returns (calls: seq<Entry>, crashed: bool)
    ensures |calls| <= |all|
    ensures forall i :: 0 <= i < |calls| ==>
      keyPrefix + calls[i].key == all[i].key && calls[i].value == all[i].value
    ensures crashed <==> exists i :: 0 <= i < |all| && !(keyPrefix <= all[i].key)
    ensures crashed ==> !(keyPrefix <= all[|calls|].key)
    ensures !crashed ==> |calls| == |all|
  {
    var prefixSize := |keyPrefix|;
    calls := [];
    for i := 0 to |all|
      invariant |calls| == i
      invariant forall j :: 0 <= j < i ==> keyPrefix <= all[j].key
      invariant forall j :: 0 <= j < i ==>
        keyPrefix + calls[j].key == all[j].key && calls[j].value == all[j].value
    {
      var p := all[i];
      if !(|p.key| >= prefixSize) || p.key[..prefixSize] != keyPrefix {
        crashed := true;
        return;
      }
      var suffix := p.key[prefixSize..];
      assert keyPrefix + suffix == p.key;
      calls := calls + [Entry(suffix, p.value)];
    }
    crashed := false;
  }

  /** One operation of a write batch. */
  datatype BatchOp = Put(key: string, value: seq<byte>) | Delete(key: string)

  /** The operation write_bin adds for key: a Delete when there is no message, a
      Put of the serialised message otherwise, both under the metadata prefix. */
  function WriteBinOp(key: string, msg: Option<seq<byte>>): BatchOp {
    match msg
    case None => Delete(MetadataPrefix + key)
    case Some(bytes) => Put(MetadataPrefix + key, bytes)
  }

  /** The store after applying ops in order. */
  function ApplyBatch(store: map<string, seq<byte>>, ops: seq<BatchOp>): map<string, seq<byte>> {
    if ops == [] then store
    else
      var before := ApplyBatch(store, ops[..|ops| - 1]);
      match ops[|ops| - 1]
      case Put(k, v) => before[k := v]
      case Delete(k) => before - {k}
  }

  /** read_bin: the bytes stored under the metadata key, if any. */
  function ReadBin(store: map<string, seq<byte>>, key: string): (r: Option<seq<byte>>)
    ensures r.Some? <==> MetadataPrefix + key in store
    ensures r.Some? ==> r.value == store[MetadataPrefix + key]
  {
    if MetadataPrefix + key in store then Some(store[MetadataPrefix + key]) else None
  }

  /** A write transaction: the batch of operations it will commit. */
  class WriteTxn {
    var batch: seq<BatchOp>

    constructor ()
      ensures batch == []
    {
      batch := [];
    }

    /** write_bin: appends a Delete (no message) or a Put of the serialised message. */
    method WriteBin(key: string, msg: Option<seq<byte>>)
      modifies this
      ensures batch == old(batch) + [WriteBinOp(key, msg)]
    {
      var rocksKey := MetadataPrefix + key;
      if msg.None? {
        batch := batch + [Delete(rocksKey)];
      } else {
        batch := batch + [Put(rocksKey, msg.value)];
      }
    }
  }

  /** After write_bin, reading the same key back gives the message written, or
      nothing when it was a delete; every other key reads as before. */
  lemma WriteBinThenRead(store: map<string, seq<byte>>, ops: seq<BatchOp>, key: string,
                         msg: Option<seq<byte>>, other: string)
    requires other != key
    ensures ReadBin(ApplyBatch(store, ops + [WriteBinOp(key, msg)]), key) == msg
    ensures ReadBin(ApplyBatch(store, ops + [WriteBinOp(key, msg)]), other)
         == ReadBin(ApplyBatch(store, ops), other)
  {
    var all := ops + [WriteBinOp(key, msg)];
    assert all[..|all| - 1] == ops;
    assert (MetadataPrefix + other)[|MetadataPrefix|..] == other;
    assert (MetadataPrefix + key)[|MetadataPrefix|..] == key;
  }
}

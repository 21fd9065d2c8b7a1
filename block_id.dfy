/** The secondary-index block id of a table shard, stored as a decimal string
    (set_rocks_sindex_block_id / get_rocks_sindex_block_id in
    src/btree/reql_specific.cc). */
module SindexBlockId {
  import opened Wrappers
  import opened Bytes

  /** block_id_t is an unsigned 64-bit integer. */
  const BlockIdLimit: nat := 0x1_0000_0000_0000_0000

  const InvalidBlockIdMessage: string := "rocks sindex block id invalid"

  predicate IsDigit(c: char) {
    '0' <= c <= '9'
  }

  predicate AllDigits(s: string) {
    forall i :: 0 <= i < |s| ==> IsDigit(s[i])
  }

  function DigitChar(d: nat): (c: char)
    requires d < 10
    ensures IsDigit(c)
  {
    ('0' as int + d) as char
  }

  function DigitValue(c: char): (d: nat)
    requires IsDigit(c)
    ensures d < 10 && DigitChar(d) == c
  {
    c as int - '0' as int
  }

  /** The decimal rendering of n: digits only, most significant first, no
      leading zero (the unsigned printf conversion). */
  function RenderDecimal(n: nat): (s: string)
    ensures |s| >= 1 && AllDigits(s)
    ensures s[0] == '0' ==> n == 0 && |s| == 1
  {
    if n < 10 then [DigitChar(n)] else RenderDecimal(n / 10) + [DigitChar(n % 10)]
  }

  /** The value of a string of decimal digits, most significant first. */
  function DecimalValue(s: string): nat
    requires AllDigits(s)
  {
    if s == [] then 0 else 10 * DecimalValue(s[..|s| - 1]) + DigitValue(s[|s| - 1])
  }

  /** The strict unsigned parse in base 10: at least one character, nothing but
      decimal digits, and a value that fits 64 bits; anything else is refused. */
  function ParseDecimalStrict(s: string): (r: Option<BlockId>)
    ensures r.Some? ==> s != [] && AllDigits(s)
  {
    if s != [] && AllDigits(s) && DecimalValue(s) < BlockIdLimit then Some(DecimalValue(s)) else None
  }

  /** set_rocks_sindex_block_id: the value written under the shard's key. */
  function SindexBlockIdValue(id: BlockId): (s: string)
    ensures s != [] && AllDigits(s) && DecimalValue(s) == id
    ensures s[0] == '0' ==> s == "0"
  {
    DecimalValueOfRender(id);
    RenderDecimal(id)
  }

  /** get_rocks_sindex_block_id, on the value read under the shard's key. */
  function GetRocksSindexBlockId(value: string): (r: Result<BlockId, Failure>)
    ensures r.Ok? <==> value != [] && AllDigits(value) && DecimalValue(value) < BlockIdLimit
    ensures r.Ok? ==> r.value == DecimalValue(value)
    ensures r.Err? ==> r.error == GuaranteeFailed(InvalidBlockIdMessage)
  {
    match ParseDecimalStrict(value)
    case Some(id) => Ok(id)
    case None => Err(GuaranteeFailed(InvalidBlockIdMessage))
  }

  /** Parsing the rendering of n gives n back. */
  lemma {:induction false} DecimalValueOfRender(n: nat)
    ensures DecimalValue(RenderDecimal(n)) == n
  {
    if n >= 10 {
      DecimalValueOfRender(n / 10);
      var s := RenderDecimal(n);
      assert s[..|s| - 1] == RenderDecimal(n / 10);
    }
  }

  /** Reading back a block id that was written gives that block id. */
  lemma SindexBlockIdRoundTrip(id: BlockId)
    ensures GetRocksSindexBlockId(SindexBlockIdValue(id)) == Ok(id)
  {
    DecimalValueOfRender(id);
  }

  /** A digit string that does not start with '0' has a positive value. */
  lemma {:induction false} LeadingNonZeroPositive(s: string)
    requires s != [] && AllDigits(s) && s[0] != '0'
    ensures DecimalValue(s) > 0
  {
    if |s| > 1 {
      LeadingNonZeroPositive(s[..|s| - 1]);
    }
  }

  /** A digit string without a leading zero is the rendering of its value. */
  lemma {:induction false} RenderOfDecimalValue(s: string)
    requires s != [] && AllDigits(s) && (s[0] != '0' || |s| == 1)
    ensures RenderDecimal(DecimalValue(s)) == s
  {
    var n := DecimalValue(s);
    var init, last := s[..|s| - 1], s[|s| - 1];
    if init == [] {
      assert s == [last];
    } else {
      LeadingNonZeroPositive(init);
      RenderOfDecimalValue(init);
      assert n / 10 == DecimalValue(init) && n % 10 == DigitValue(last);
      assert s == init + [last];
    }
  }

  /** A stored value that is accepted and has no leading zero is exactly what
      set_rocks_sindex_block_id writes for that id: the written form of an id is
      unique. */
  lemma AcceptedValueIsRendering(value: string)
    requires GetRocksSindexBlockId(value).Ok?
    requires value[0] != '0' || |value| == 1
    ensures value == SindexBlockIdValue(GetRocksSindexBlockId(value).value)
  {
    RenderOfDecimalValue(value);
  }

  /** The stored value is refused when it is empty, holds a character that is not
      a decimal digit, or denotes a number of 2^64 or more. */
  lemma RejectedValues(value: string)
    ensures GetRocksSindexBlockId(value).Err? <==>
      || value == []
      || (exists i :: 0 <= i < |value| && !IsDigit(value[i]))
      || (AllDigits(value) && DecimalValue(value) >= BlockIdLimit)
  {
  }
}

/** One stored list entry for an account: the value type kept under each
    variant slot of the registry. */
module Records {
  import opened ListTypes

  /** Upload instants, totally ordered; `isAfter` is `>`. */
  type Timestamp = int

  predicate IsAfter(t: Timestamp, u: Timestamp) {
    t > u
  }

  datatype Record = Record(
    accountId: string,
    listType: ListType,
    uploadTimestamp: Timestamp,
    reason: string,
    active: bool)

  /** The four-argument constructor: stores its arguments and starts active. */
  function NewRecord(accountId: string, listType: ListType, uploadTimestamp: Timestamp, reason: string): (r: Record)
    ensures r.accountId == accountId && r.listType == listType
    ensures r.uploadTimestamp == uploadTimestamp && r.reason == reason
    ensures r.active
  {
    Record(accountId, listType, uploadTimestamp, reason, true)
  }

  /** `setActive`: a copy that differs at most in the active flag. */
  function SetActive(rec: Record, active: bool): (r: Record)
    ensures r.active == active
    ensures r.accountId == rec.accountId && r.listType == rec.listType
    ensures r.uploadTimestamp == rec.uploadTimestamp && r.reason == rec.reason
  {
    rec.(active := active)
  }

  /** `equals`: identity is (account, variant, timestamp); reason and the
      active flag are ignored. */
  predicate SameRecord(x: Record, y: Record) {
    x.accountId == y.accountId && x.listType == y.listType && x.uploadTimestamp == y.uploadTimestamp
  }

  /** `equals` is an equivalence relation that does not see the reason or the
      active flag. */
  lemma SameRecordIsEquivalence(x: Record, y: Record, z: Record, b: bool, why: string)
    ensures SameRecord(x, x)
    ensures SameRecord(x, y) ==> SameRecord(y, x)
    ensures SameRecord(x, y) && SameRecord(y, z) ==> SameRecord(x, z)
    ensures SameRecord(x, SetActive(x, b))
    ensures SameRecord(x, x.(reason := why))
    ensures SameRecord(x, y) <==> (x.accountId, x.listType, x.uploadTimestamp) == (y.accountId, y.listType, y.uploadTimestamp)
  {
  }

  const TwoTo31: int := 0x8000_0000
  const TwoTo32: int := 0x1_0000_0000

  /** Java `int` arithmetic: reduce modulo 2^32 into the signed range. */
  function Wrap32(x: int): (r: int)
    ensures -TwoTo31 <= r < TwoTo31
    ensures (r - x) % TwoTo32 == 0
  {
    (x + TwoTo31) % TwoTo32 - TwoTo31
  }

  /** The UTF-16 code units Java stores for one character: the character
      itself up to U+FFFF, a surrogate pair above it. */
  function CodeUnits(c: char): (units: seq<int>)
    ensures |units| == (if c as int < 0x1_0000 then 1 else 2)
    ensures forall k :: 0 <= k < |units| ==> 0 <= units[k] < 0x1_0000
  {
    if c as int < 0x1_0000 then [c as int]
    else
      var v := c as int - 0x1_0000;
      [0xD800 + v / 0x400, 0xDC00 + v % 0x400]
  }

  /** A surrogate pair decodes back to the character it encodes; a unit
      below U+10000 is the character itself. */
  lemma CodeUnitsRoundTrip(c: char)
    ensures var units := CodeUnits(c);
      if |units| == 1 then units[0] == c as int
      else && 0xD800 <= units[0] < 0xDC00
           && 0xDC00 <= units[1] < 0xE000
           && 0x1_0000 + (units[0] - 0xD800) * 0x400 + (units[1] - 0xDC00) == c as int
  {
  }

  /** The UTF-16 code units of a string, in order. */
  function Utf16(s: string): seq<int> {
    if s == [] then [] else Utf16(s[..|s| - 1]) + CodeUnits(s[|s| - 1])
  }

  /** Java's polynomial hash: h = 31 * h + x over `xs` from `seed`, with
      `int` wrap-around. */
  function Polynomial31(seed: int, xs: seq<int>): (h: int)
    ensures xs == [] ==> h == seed
    ensures xs != [] ==> -TwoTo31 <= h < TwoTo31
  {
    if xs == [] then seed else Wrap32(31 * Polynomial31(seed, xs[..|xs| - 1]) + xs[|xs| - 1])
  }

  /** `String.hashCode`: the polynomial hash from 0 over the UTF-16 code units. */
  function StringHash(s: string): (h: int)
    ensures -TwoTo31 <= h < TwoTo31
  {
    Polynomial31(0, Utf16(s))
  }

  /** A character above U+FFFF hashes as its surrogate pair: the high
      surrogate, then the low one. */
  lemma StringHashOfSupplementary(c: char)
    requires c as int >= 0x1_0000
    ensures var v := c as int - 0x1_0000;
      StringHash([c]) == 31 * (0xD800 + v / 0x400) + (0xDC00 + v % 0x400)
  {
    var v := c as int - 0x1_0000;
    var hi, lo := 0xD800 + v / 0x400, 0xDC00 + v % 0x400;
    assert [c][..0] == [];
    assert Utf16([c]) == [hi, lo];
    assert [hi, lo][..1] == [hi];
    assert Polynomial31(0, [hi]) == hi;
    assert Polynomial31(0, [hi, lo]) == Wrap32(31 * hi + lo);
  }

  /** `Objects.hash` of component hashes: the polynomial hash from 1. */
  function CombineHashes(hs: seq<int>): (h: int)
    ensures hs == [] ==> h == 1
    ensures hs != [] ==> -TwoTo31 <= h < TwoTo31
  {
    Polynomial31(1, hs)
  }

  /** `hashCode` over the same three fields `equals` compares. */
  function HashCode(r: Record): (h: int)
    ensures -TwoTo31 <= h < TwoTo31
  {
    CombineHashes([StringHash(r.accountId), r.listType.Ordinal(), Wrap32(r.uploadTimestamp)])
  }

  /** Equal records hash equally. */
  lemma EqualRecordsHashEqually(x: Record, y: Record)
    requires SameRecord(x, y)
    ensures HashCode(x) == HashCode(y)
  {
  }
}

/** What the ziplist operations do to the sequence of strings a ziplist holds. */
module ZipTexts {
  import opened Bytes
  import opened Options

  /** A push at the head or the tail. */
  function ZlPush(zl: seq<Octets>, v: Octets, head: bool): seq<Octets> { if head then [v] + zl else zl + [v] }

  /** The entry an index names; a negative one counts from the end. */
  function ZlIndex(zl: seq<Octets>, index: int): Option<nat>
  {
    var i := if index >= 0 then index else |zl| + index;
    if 0 <= i < |zl| then Some(i) else None
  }

  /** Deletion of `num` entries from an index on. */
  function ZlDeleteRange(zl: seq<Octets>, index: int, num: nat): seq<Octets>
  {
    var i := if index >= 0 then index else |zl| + index;
    if 0 <= i < |zl| then zl[..i] + zl[if i + num <= |zl| then i + num else |zl|..] else zl
  }
}

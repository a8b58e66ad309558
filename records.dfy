/**
 * The part of hickory-proto's resource records that the cache and the
 * request handler touch: a record has an owner name, a type, a TTL in
 * seconds and optional data; a query asks for a name and a type.
 */
module Records {
  import opened Wrappers
  import opened Net
  import opened DnsName
  import opened Text

  /** `RecordType`, with the types the resolver distinguishes named and every other one kept by its code. */
  datatype RecordType = A | AAAA | PTR | CNAME | SOA | OtherType(code: nat)

  /** `RData`, with the variants the resolver reads or prints. */
  datatype RData =
    | AData(v4: U32)
    | AAAAData(v6: U128)
    | PtrData(ptr: Name)
    | CnameData(cname: Name)
    | SoaData(mname: Name, rname: Name, serial: U32, refresh: I32, retry: I32, expire: I32, minimum: U32)
    | OtherData

  /** An `i32`, the type of the SOA's refresh, retry and expire intervals. */
  type I32 = x: int | -0x8000_0000 <= x < 0x8000_0000

  /** `Display` of a signed integer: a '-' before the magnitude when negative. */
  function IntText(x: int): (r: string)
    ensures ' ' !in r
  {
    var m: nat := if x < 0 then -x else x;
    var digits := NatToString(m);
    assert forall i :: 0 <= i < |digits| ==> digits[i] != ' ';
    if x < 0 then "-" + digits else digits
  }

  /** The seven fields of an SOA record in the order its `Display` writes them. */
  function SoaFields(d: RData): seq<string>
    requires d.SoaData?
  {
    [ToUtf8(d.mname), ToUtf8(d.rname), NatToString(d.serial), IntText(d.refresh),
     IntText(d.retry), IntText(d.expire), NatToString(d.minimum)]
  }

  /** `Display` of `rdata::SOA`: its fields separated by single spaces. */
  function SoaText(d: RData): string
    requires d.SoaData?
  {
    Join(SoaFields(d), ' ')
  }

  /**
   * When neither name's text holds a space, splitting the SOA text at the
   * spaces gives back its seven fields, and the serial and minimum read back
   * as their values.
   */
  lemma SoaTextFields(d: RData)
    requires d.SoaData? && ' ' !in ToUtf8(d.mname) && ' ' !in ToUtf8(d.rname)
    ensures Split(SoaText(d), ' ') == SoaFields(d)
    ensures |SoaFields(d)| == 7
    ensures ParseUnsigned(Split(SoaText(d), ' ')[2], 10, U32_MAX) == Some(d.serial)
    ensures ParseUnsigned(Split(SoaText(d), ' ')[6], 10, U32_MAX) == Some(d.minimum)
  {
    var f := SoaFields(d);
    forall i | 2 <= i < 7
      ensures ' ' !in f[i]
    {
      assert forall j :: 0 <= j < |NatToString(d.serial)| ==> NatToString(d.serial)[j] != ' ';
      assert forall j :: 0 <= j < |NatToString(d.minimum)| ==> NatToString(d.minimum)[j] != ' ';
    }
    SplitJoin(f, ' ');
    NatToStringParses(d.serial, U32_MAX);
    NatToStringParses(d.minimum, U32_MAX);
  }

  /** `Record`: name, type, TTL (a `u32`) and data. */
  datatype Record = Record(name: Name, rtype: RecordType, ttl: U32, data: Option<RData>)

  /** `Query`: a name and the type asked for. */
  datatype Query = Query(name: Name, qtype: RecordType)

  /** `Message`, reduced to what the handler reads and writes. */
  datatype Message = Message(isResponse: bool, queries: seq<Query>, answers: seq<Record>)
}

/**
 * The ICMP helpers of `src/ping.rs`: the Internet checksum of RFC 1071, the
 * echo request the prober sends, the check that a received packet is the
 * matching echo reply, and the wrapping sequence counter.
 */
module Ping {
  import opened Wrappers
  import opened Text
  import opened Net

  /** The number of 16-bit words `chunks(2)` yields: an odd trailing byte makes one more. */
  function Chunks(p: seq<byte>): nat {
    (|p| + 1) / 2
  }

  /** Word `k`, big-endian; a trailing odd byte is the high byte of its word (section 4.1 of RFC 1071). */
  function Word(p: seq<byte>, k: nat): nat
    requires k < Chunks(p)
  {
    (p[2 * k] as int) * 0x100 + (if 2 * k + 1 < |p| then p[2 * k + 1] as int else 0)
  }

  /** The sum of the first `n` words. */
  function WordSum(p: seq<byte>, n: nat): nat
    requires n <= Chunks(p)
  {
    if n == 0 then 0 else WordSum(p, n - 1) + Word(p, n - 1)
  }

  /**
   * Adding the carries back in (`sum = (sum & 0xFFFF) + (sum >> 16)`) until
   * the sum fits in 16 bits.
   */
  function Fold(x: nat): (r: nat)
    ensures r < 0x10000
    decreases x
  {
    if x < 0x10000 then x
    else
      FoldShrinks(x);
      Fold(x % 0x10000 + x / 0x10000)
  }

  lemma FoldShrinks(x: nat)
    requires x >= 0x10000
    ensures x % 0x10000 + x / 0x10000 < x
  {
    assert x == x / 0x10000 * 0x10000 + x % 0x10000;
  }

  /** One folding step keeps the value modulo 0xFFFF and keeps a positive value positive. */
  lemma FoldStep(x: nat)
    ensures (x % 0x10000 + x / 0x10000) % 0xFFFF == x % 0xFFFF
    ensures x > 0 ==> x % 0x10000 + x / 0x10000 > 0
  {
    var hi, lo := x / 0x10000, x % 0x10000;
    assert x == hi * 0xFFFF + (hi + lo);
  }

  /** Folding keeps the value modulo 0xFFFF, and a positive sum folds to 1..0xFFFF. */
  lemma {:induction false} FoldCongruent(x: nat)
    ensures Fold(x) % 0xFFFF == x % 0xFFFF
    ensures x > 0 ==> 0 < Fold(x)
    decreases x
  {
    if x >= 0x10000 {
      FoldShrinks(x);
      FoldStep(x);
      FoldCongruent(x % 0x10000 + x / 0x10000);
    }
  }

  /** The one's complement of the folded sum: what goes into bytes 2 and 3. */
  function Checksum(p: seq<byte>): (c: nat)
    ensures c <= 0xFFFF
  {
    0xFFFF - Fold(WordSum(p, Chunks(p)))
  }

  /** The packet with the checksum written big-endian into bytes 2 and 3. */
  function WithChecksum(p: seq<byte>): seq<byte>
    requires |p| >= 4
  {
    var c := Checksum(p);
    p[2 := c / 0x100][3 := c % 0x100]
  }

  /** Only bytes 2 and 3 change, and they read back as the checksum. */
  lemma WithChecksumChanges(p: seq<byte>)
    requires |p| >= 4
    ensures var q := WithChecksum(p);
      |q| == |p| && (forall i :: 0 <= i < |p| && i != 2 && i != 3 ==> q[i] == p[i])
      && (q[2] as int) * 0x100 + q[3] as int == Checksum(p)
  {
  }

  /** Replacing word 1 (bytes 2 and 3) changes every sum that includes it by the difference. */
  lemma {:induction false} WordSumReplace(p: seq<byte>, q: seq<byte>, n: nat)
    requires |p| == |q| >= 4 && n <= Chunks(p)
    requires forall i :: 0 <= i < |p| && i != 2 && i != 3 ==> q[i] == p[i]
    ensures WordSum(q, n) + (if n > 1 then Word(p, 1) else 0) == WordSum(p, n) + (if n > 1 then Word(q, 1) else 0)
  {
    if n > 0 {
      WordSumReplace(p, q, n - 1);
      if n - 1 != 1 {
        assert Word(q, n - 1) == Word(p, n - 1);
      }
    }
  }

  /**
   * The check of section 1 of RFC 1071: when the checksum field was zero,
   * summing the finished packet folds to all ones.
   */
  lemma ChecksumVerifies(p: seq<byte>)
    requires |p| >= 4 && p[2] == 0 && p[3] == 0
    ensures var q := WithChecksum(p); Fold(WordSum(q, Chunks(q))) == 0xFFFF
  {
    var q := WithChecksum(p);
    var s := WordSum(p, Chunks(p));
    var c := Checksum(p);
    WithChecksumChanges(p);
    WordSumReplace(p, q, Chunks(p));
    assert Word(p, 1) == 0 && Word(q, 1) == c;
    assert WordSum(q, Chunks(q)) == s + c;
    ComplementMultiple(s);
    FoldAllOnes(s + c);
  }

  /** A positive multiple of 0xFFFF folds to all ones. */
  lemma FoldAllOnes(x: nat)
    requires x > 0 && x % 0xFFFF == 0
    ensures Fold(x) == 0xFFFF
  {
    FoldCongruent(x);
  }

  /** A sum plus the complement of its fold is a positive multiple of 0xFFFF. */
  lemma ComplementMultiple(s: nat)
    ensures (s + (0xFFFF - Fold(s))) % 0xFFFF == 0 && s + (0xFFFF - Fold(s)) > 0
  {
    FoldCongruent(s);
    var f := Fold(s);
    var r := s % 0xFFFF;
    assert s == s / 0xFFFF * 0xFFFF + r;
    assert f == f / 0xFFFF * 0xFFFF + r;
    assert s + (0xFFFF - f) == (s / 0xFFFF - f / 0xFFFF + 1) * 0xFFFF;
  }

  /** `calculate_checksum`: sums the words, folds the carries, then writes the complement into bytes 2 and 3. */
  method CalculateChecksum(packet: array<byte>)
    requires packet.Length >= 4
    modifies packet
    ensures packet[..] == WithChecksum(old(packet[..]))
  {
    ghost var orig: seq<byte> := packet[..];
    var sum: nat := 0;
    var k := 0;
    var n := (packet.Length + 1) / 2;
    while k < n
      invariant packet[..] == orig
      invariant 0 <= k <= n && n == Chunks(packet[..])
      invariant sum == WordSum(packet[..], k)
    {
      var word: nat := if 2 * k + 1 < packet.Length then (packet[2 * k] as int) * 0x100 + packet[2 * k + 1] as int else (packet[2 * k] as int) * 0x100;
      sum := sum + word;
      k := k + 1;
    }
    ghost var total := sum;
    while sum >= 0x10000
      invariant packet[..] == orig
      invariant Fold(sum) == Fold(total)
      decreases sum
    {
      FoldShrinks(sum);
      sum := sum % 0x10000 + sum / 0x10000;
    }
    var checksum: nat := 0xFFFF - sum;
    assert checksum == Checksum(orig);
    var hi: byte, lo: byte := checksum / 0x100, checksum % 0x100;
    packet[2] := hi;
    packet[3] := lo;
    assert packet[..] == orig[2 := hi][3 := lo];
  }

  /** `u16::MAX - 1`: the last sequence number before the counter wraps back to 1. */
  const LAST_SEQ: nat := 0xFFFE

  /** The counter after handing out `n`. */
  function NextSeq(n: nat): nat {
    if n == LAST_SEQ then 1 else n + 1
  }

  /** The counter after `k` calls, starting from 1. */
  function SeqAfter(k: nat): nat {
    if k == 0 then 1 else NextSeq(SeqAfter(k - 1))
  }

  /** The remainder of `q * 65534 + r` by 65534 is `r`. */
  lemma ModOfMultiple(q: nat, r: nat)
    requires r < LAST_SEQ
    ensures (q * LAST_SEQ + r) % LAST_SEQ == r
  {
  }

  /** Counting up by one steps the remainder by 65534 on by one, wrapping to 0. */
  lemma ModSucc(n: nat)
    ensures (n + 1) % LAST_SEQ == if n % LAST_SEQ + 1 == LAST_SEQ then 0 else n % LAST_SEQ + 1
  {
    var q, r := n / LAST_SEQ, n % LAST_SEQ;
    if r + 1 == LAST_SEQ {
      ModOfMultiple(q + 1, 0);
    } else {
      ModOfMultiple(q, r + 1);
    }
  }

  /** The `k`-th call (from 0) hands out `k mod 65534 + 1`: the numbers stay in 1..65534 and cycle. */
  lemma {:induction false} SeqAfterValue(k: nat)
    ensures SeqAfter(k) == k % LAST_SEQ + 1
    ensures 1 <= SeqAfter(k) <= LAST_SEQ
  {
    if k > 0 {
      SeqAfterValue(k - 1);
      ModSucc(k - 1);
    }
  }

  /** The shared counter behind `acc_seq`. */
  class SeqCounter {
    var next: nat
    ghost var calls: nat

    ghost predicate Valid()
      reads this
    {
      next == SeqAfter(calls)
    }

    /** The counter starts at 1. */
    constructor()
      ensures Valid() && calls == 0 && next == 1
    {
      next := 1;
      calls := 0;
    }

    /** `acc_seq`: hands out the current number, then advances it, wrapping 65534 to 1. */
    method Acc() returns (sn: nat)
      requires Valid()
      modifies this
      ensures Valid() && calls == old(calls) + 1
      ensures sn == old(next) == SeqAfter(old(calls)) && next == NextSeq(sn)
    {
      sn := next;
      if next == LAST_SEQ {
        next := 1;
      } else {
        next := next + 1;
      }
      calls := calls + 1;
    }
  }

  /** `(std::process::id() % 0xFF) as u16`, big-endian. */
  function Identifier(pid: nat): seq<byte> {
    var id := pid % 0xFF;
    [id / 0x100, id % 0x100]
  }

  /** The 32 payload bytes: `abcdefghijklmnopqrstuvwabcdefghi`. */
  const PAYLOAD: seq<byte> := [
    0x61, 0x62, 0x63, 0x64, 0x65, 0x66, 0x67, 0x68, 0x69, 0x6a, 0x6b, 0x6c, 0x6d, 0x6e,
    0x6f, 0x70, 0x71, 0x72, 0x73, 0x74, 0x75, 0x76, 0x77, 0x61, 0x62, 0x63, 0x64, 0x65,
    0x66, 0x67, 0x68, 0x69]

  const ECHO_REQUEST_V4: byte := 8
  const ECHO_REQUEST_V6: byte := 0x80
  const ECHO_REPLY_V4: byte := 0
  const ECHO_REPLY_V6: byte := 0x81

  /** The big-endian bytes of a `u16`. */
  function BigEndian(v: nat): seq<byte>
    requires v <= 0xFFFF
  {
    [v / 0x100, v % 0x100]
  }

  /**
   * The echo request of `ping_with_timeout`, before its checksum: type 8
   * (RFC 792) or 128 (section 4.1 of RFC 4443), code 0, a zero checksum,
   * the identifier, the sequence number and the payload.
   */
  function EchoRequest(addr: IpAddr, pid: nat, sn: nat): (p: seq<byte>)
    requires sn <= 0xFFFF
  {
    [if addr.V4? then ECHO_REQUEST_V4 else ECHO_REQUEST_V6, 0, 0, 0] + Identifier(pid) + BigEndian(sn) + PAYLOAD
  }

  /** The request is 40 bytes; its identifier's high byte is always 0; bytes 4..8 carry the identifier and the sequence number. */
  lemma EchoRequestLayout(addr: IpAddr, pid: nat, sn: nat)
    requires sn <= 0xFFFF
    ensures var p := EchoRequest(addr, pid, sn);
      |p| == 40 && p[1] == 0 && p[2] == 0 && p[3] == 0
      && p[0] == (if addr.V4? then 8 else 128)
      && p[4] == 0 && p[4..6] == Identifier(pid) && p[5] == pid % 0xFF
      && (p[6] as int) * 0x100 + p[7] as int == sn
      && p[8..] == PAYLOAD
  {
  }

  /**
   * `is_icmp_echo_reply` with a length guard that covers every byte it
   * reads: an echo reply (type 0 or 129), code 0, with the identifier in
   * bytes 4..6 and the sequence number in bytes 6..8.
   */
  predicate IsEchoReply(packet: seq<byte>, id: seq<byte>, req: seq<byte>)
    requires |id| == 2 && |req| == 2
  {
    |packet| >= 8
    && (packet[0] == ECHO_REPLY_V4 || packet[0] == ECHO_REPLY_V6)
    && packet[1] == 0
    && packet[4] == id[0] && packet[5] == id[1]
    && packet[6] == req[0] && packet[7] == req[1]
  }

  /**
   * `is_icmp_echo_reply` as written: the guard checks only `len >= 4`, so a
   * packet of 4 to 7 bytes that passes the type and code checks reads past
   * its end; `None` is that panic.
   */
  function EchoReplyAsWritten(packet: seq<byte>, id: seq<byte>, req: seq<byte>): Option<bool>
    requires |id| == 2 && |req| == 2
  {
    if !(|packet| >= 4) then Some(false)
    else if !(packet[0] == ECHO_REPLY_V4 || packet[0] == ECHO_REPLY_V6) then Some(false)
    else if packet[1] != 0 then Some(false)
    else if |packet| <= 4 then None
    else if packet[4] != id[0] then Some(false)
    else if |packet| <= 5 then None
    else if packet[5] != id[1] then Some(false)
    else if |packet| <= 6 then None
    else if packet[6] != req[0] then Some(false)
    else if |packet| <= 7 then None
    else Some(packet[7] == req[1])
  }

  /** A 4-byte echo reply header makes the check as written index out of bounds. */
  lemma ShortReplyPanics()
    ensures EchoReplyAsWritten([0, 0, 0, 0], [0, 1], [0, 1]).None?
  {
  }

  /** Where the check as written does not panic, it agrees with the guarded check. */
  lemma AsWrittenAgrees(packet: seq<byte>, id: seq<byte>, req: seq<byte>)
    requires |id| == 2 && |req| == 2
    ensures EchoReplyAsWritten(packet, id, req).Some? ==> EchoReplyAsWritten(packet, id, req).value == IsEchoReply(packet, id, req)
    ensures |packet| >= 8 ==> EchoReplyAsWritten(packet, id, req) == Some(IsEchoReply(packet, id, req))
  {
  }

  /** The reply a host sends to an echo request: the same bytes with the reply type and a fresh checksum. */
  function ReplyTo(request: seq<byte>, addr: IpAddr): seq<byte>
    requires |request| >= 4
  {
    WithChecksum(request[0 := if addr.V4? then ECHO_REPLY_V4 else ECHO_REPLY_V6][2 := 0][3 := 0])
  }

  /** The reply to our own request passes the check, for the identifier and sequence number we sent. */
  lemma OwnReplyAccepted(addr: IpAddr, pid: nat, sn: nat)
    requires sn <= 0xFFFF
    ensures IsEchoReply(ReplyTo(WithChecksum(EchoRequest(addr, pid, sn)), addr), Identifier(pid), BigEndian(sn))
  {
    var p := EchoRequest(addr, pid, sn);
    EchoRequestLayout(addr, pid, sn);
    WithChecksumChanges(p);
    var q := WithChecksum(p);
    var r := q[0 := if addr.V4? then ECHO_REPLY_V4 else ECHO_REPLY_V6][2 := 0][3 := 0];
    WithChecksumChanges(r);
  }
}

/** The Ethernet header rewrite done by translate_frame: the destination
    address (octets 0..5) and the source address (octets 6..11) of the MAC
    frame layout of IEEE 802.3 clause 3.1.1 are overwritten with two fixed
    addresses. */
module Ether {

  newtype byte = x: int | 0 <= x < 0x100

  const MacLen: int := 6
  /** Octets covered by the two addresses. */
  const AddrLen: int := 12

  /** "F5:0:0:0:0:2", written into h_dest. */
  const DestMac: seq<byte> := [0xF5, 0x00, 0x00, 0x00, 0x00, 0x02]
  /** "F5:0:0:0:0:1", written into h_source. */
  const SourceMac: seq<byte> := [0xF5, 0x00, 0x00, 0x00, 0x00, 0x01]

  /** The value of octet `i` of the rewritten address block. */
  function AddrOctet(i: int): (b: byte)
    requires 0 <= i < AddrLen
    ensures i < MacLen ==> b == DestMac[i]
    ensures MacLen <= i ==> b == SourceMac[i - MacLen]
  {
    (DestMac + SourceMac)[i]
  }

  /** translate_frame on a buffer of at least the two addresses. */
  function Translate(buf: seq<byte>): (r: seq<byte>)
    requires |buf| >= AddrLen
    ensures |r| == |buf|
    ensures r[..MacLen] == DestMac && r[MacLen..AddrLen] == SourceMac
    ensures forall i :: AddrLen <= i < |buf| ==> r[i] == buf[i]
  {
    DestMac + SourceMac + buf[AddrLen..]
  }

  /** The rewrite does not depend on what the addresses were. */
  lemma TranslateIgnoresOldAddresses(a: seq<byte>, b: seq<byte>)
    requires |a| >= AddrLen && |b| >= AddrLen
    requires a[AddrLen..] == b[AddrLen..]
    ensures Translate(a) == Translate(b)
  {
  }

  /** Rewriting twice is rewriting once. */
  lemma TranslateIdempotent(buf: seq<byte>)
    requires |buf| >= AddrLen
    ensures Translate(Translate(buf)) == Translate(buf)
  {
  }

  /** The bytes that end up queued for a capture of `bytes`: each of the
      first twelve octets is the fixed address octet, every later octet is
      the captured one. A capture shorter than twelve octets yields a
      prefix of the address block. */
  function Payload(bytes: seq<byte>): (p: seq<byte>)
    ensures |p| == |bytes|
    ensures forall i :: 0 <= i < |p| ==>
              p[i] == if i < AddrLen then AddrOctet(i) else bytes[i]
  {
    if |bytes| >= AddrLen then Translate(bytes)
    else (DestMac + SourceMac)[..|bytes|]
  }

  /** The relay reads `bytes` into the front of a buffer whose remaining
      octets are `stale` (left over from earlier reads), rewrites the
      buffer's header and keeps the first |bytes| octets. The result is
      Payload(bytes): nothing of the stale part leaks into a frame, even
      when the capture is shorter than the address block. */
  lemma CapturedPayload(bytes: seq<byte>, stale: seq<byte>)
    requires |bytes| + |stale| >= AddrLen
    ensures Translate(bytes + stale)[..|bytes|] == Payload(bytes)
  {
    var t := Translate(bytes + stale);
    forall i | 0 <= i < |bytes|
      ensures t[..|bytes|][i] == Payload(bytes)[i]
    {
      if i < MacLen {
        assert t[..MacLen][i] == DestMac[i];
      } else if i < AddrLen {
        assert t[MacLen..AddrLen][i - MacLen] == SourceMac[i - MacLen];
      } else {
        assert (bytes + stale)[i] == bytes[i];
      }
    }
  }
}

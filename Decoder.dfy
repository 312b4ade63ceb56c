/** The frame decoder of `packet_handler`: the fixed Ethernet II link header, the IPv4 header fields the
    handler reads (RFC 791 section 3.1), the first four bytes of the transport header (the two ports,
    which open both the RFC 768 UDP header and the RFC 793 section 3.1 TCP header) and the fixed-offset
    payload window the login correlator scans. */
module Decoder {
  import opened Common

  /** Length of the Ethernet II header: destination MAC, source MAC, EtherType. */
  const ETHER_HEADER_LEN: nat := 14
  /** Offsets, within the IPv4 header, of the fields the handler reads. */
  const IP_TLEN: nat := 2
  const IP_SADDR: nat := 12
  const IP_DADDR: nat := 16
  /** The captured bytes the network-header reads need: the link header and the IPv4 header up to the
      end of the destination address. */
  const HEADERS_LEN: nat := ETHER_HEADER_LEN + 20
  /** The payload window: it starts at the fixed frame offset 14 + 20 + 20 whatever the IHL, and the
      handler copies it into a 100-byte stack buffer. */
  const PAYLOAD_OFFSET: nat := 54
  const WINDOW_LEN: nat := 100

  /** A 4-byte IPv4 address, first byte as it appears on the wire. */
  datatype IPv4 = IPv4(b1: byte, b2: byte, b3: byte, b4: byte)

  /** The all-zero address; a flow table slot holding it is empty. */
  const ANY := IPv4(0, 0, 0, 0)
  /** The host whose peers the two flow tables record. */
  const WATCHED := IPv4(192, 168, 1, 108)

  /** The header fields `packet_handler` takes from a frame, ports and length in host order. */
  datatype Headers = Headers(tlen: u16, saddr: IPv4, daddr: IPv4, sport: u16, dport: u16)

  /** Direction of a frame relative to the watched host (`req` = 0, 1, -1 in the source). */
  datatype Direction = Inbound | Outbound | Unwatched

  /** Header length in bytes from the version/IHL byte: the low nibble counts 32-bit words. */
  function IpHeaderLength(verIhl: byte): (n: nat)
    ensures n % 4 == 0 && n <= 60
  {
    (verIhl % 16) as nat * 4
  }

  function AddrAt(s: seq<byte>, i: nat): IPv4
    requires i + 4 <= |s|
  {
    IPv4(s[i], s[i + 1], s[i + 2], s[i + 3])
  }

  function AddrBytes(a: IPv4): (r: seq<byte>)
    ensures |r| == 4 && AddrAt(r, 0) == a
  {
    [a.b1, a.b2, a.b3, a.b4]
  }

  /** Decodes the headers of an Ethernet II frame `f` of captured length |f|. The IPv4 header starts right
      after the 14-byte link header; the transport header starts IHL * 4 bytes after that. The source
      reads these fields without looking at the captured length; here a frame too short for any of the
      reads is reported as truncated (None). */
  function Decode(f: seq<byte>): (r: Option<Headers>)
    ensures r.Some? <==> |f| >= HEADERS_LEN && ETHER_HEADER_LEN + 4 * (f[14] as int % 16) + 4 <= |f|
    ensures r.Some? ==>
              && r.value.tlen as int == f[16] as int * 256 + f[17] as int
              && r.value.saddr == IPv4(f[26], f[27], f[28], f[29])
              && r.value.daddr == IPv4(f[30], f[31], f[32], f[33])
              && var t := ETHER_HEADER_LEN + 4 * (f[14] as int % 16);
                 && r.value.sport as int == f[t] as int * 256 + f[t + 1] as int
                 && r.value.dport as int == f[t + 2] as int * 256 + f[t + 3] as int
  {
    if |f| < HEADERS_LEN then None
    else
      var ip := f[ETHER_HEADER_LEN..];
      var ihl := IpHeaderLength(ip[0]);
      if |ip| < ihl + 4 then None
      else
        var tp := ip[ihl..];
        Some(Headers(Ntohs(ip[IP_TLEN], ip[IP_TLEN + 1]), AddrAt(ip, IP_SADDR), AddrAt(ip, IP_DADDR),
                     Ntohs(tp[0], tp[1]), Ntohs(tp[2], tp[3])))
  }

  /** Classifies a frame as the handler routes it: traffic to the watched host first, then traffic
      from it. */
  function Route(h: Headers): (r: Direction)
    ensures r == Inbound <==> h.daddr == WATCHED
    ensures r == Outbound <==> h.saddr == WATCHED && h.daddr != WATCHED
  {
    if h.daddr == WATCHED then Inbound
    else if h.saddr == WATCHED then Outbound
    else Unwatched
  }

  function U16Bytes(v: u16): (r: seq<byte>)
    ensures |r| == 2
  {
    [Htons(v).0, Htons(v).1]
  }

  /** A synthetic Ethernet II / IPv4 / TCP frame carrying `h` and `payload`: zero MAC addresses,
      EtherType 0x0800, a 20-byte IPv4 header (version 4, IHL 5, TTL 64, protocol 6) and a 20-byte TCP
      header whose fields after the ports are zero. */
  function BuildFrame(h: Headers, payload: seq<byte>): (f: seq<byte>)
    ensures |f| == PAYLOAD_OFFSET + |payload|
  {
    var link := Zeros(12) + [0x08, 0x00];
    var ip := [0x45, 0x00] + U16Bytes(h.tlen) + [0, 0, 0, 0, 64, 6, 0, 0] + AddrBytes(h.saddr) + AddrBytes(h.daddr);
    var tcp := U16Bytes(h.sport) + U16Bytes(h.dport) + Zeros(16);
    link + ip + tcp + payload
  }

  /** Decoding a frame built from a header tuple gives back exactly that tuple. */
  lemma DecodeBuildFrame(h: Headers, payload: seq<byte>)
    ensures Decode(BuildFrame(h, payload)) == Some(h)
  {
    var f := BuildFrame(h, payload);
    assert f[14] == 0x45;
    NtohsHtons(h.tlen);
    NtohsHtons(h.sport);
    NtohsHtons(h.dport);
    assert f[16] == Htons(h.tlen).0 && f[17] == Htons(h.tlen).1;
    assert f[34] == Htons(h.sport).0 && f[35] == Htons(h.sport).1;
    assert f[36] == Htons(h.dport).0 && f[37] == Htons(h.dport).1;
    assert f[26..30] == AddrBytes(h.saddr) && f[30..34] == AddrBytes(h.daddr);
  }

  /** The 100-byte window `cop` the login correlator scans: frame bytes from offset 54 on, zero where the
      frame has ended. The source copies every byte from offset 54 to the captured length into the
      100-byte buffer, so the copy stays inside it only for frames of at most 154 bytes. */
  function WindowOf(f: seq<byte>): (w: seq<byte>)
    requires |f| <= PAYLOAD_OFFSET + WINDOW_LEN
    ensures |w| == WINDOW_LEN
    ensures forall k :: 0 <= k < WINDOW_LEN ==> w[k] == if PAYLOAD_OFFSET + k < |f| then f[PAYLOAD_OFFSET + k] else 0
  {
    var tail := if |f| > PAYLOAD_OFFSET then f[PAYLOAD_OFFSET..] else [];
    tail + Zeros(WINDOW_LEN - |tail|)
  }

  /** The window of a frame built from a payload of at most 100 bytes is that payload, zero-padded. */
  lemma WindowOfBuildFrame(h: Headers, payload: seq<byte>)
    requires |payload| <= WINDOW_LEN
    ensures WindowOf(BuildFrame(h, payload)) == payload + Zeros(WINDOW_LEN - |payload|)
  {
    var f := BuildFrame(h, payload);
    var w := WindowOf(f);
    var e := payload + Zeros(WINDOW_LEN - |payload|);
    forall k | 0 <= k < WINDOW_LEN
      ensures w[k] == e[k]
    {
      if k < |payload| {
        assert f[PAYLOAD_OFFSET + k] == payload[k];
      }
    }
  }

  /** The copy loop of the handler: a counter runs from 55 up to the captured length, and each step
      copies the frame byte just before the counter into the window, 55 places lower. */
  method Window(frame: seq<byte>) returns (w: seq<byte>)
    requires |frame| <= PAYLOAD_OFFSET + WINDOW_LEN
    ensures w == WindowOf(frame)
  {
    var cop := new byte[WINDOW_LEN](_ => 0);
    var i := PAYLOAD_OFFSET + 1;
    while i < |frame| + 1
      invariant PAYLOAD_OFFSET + 1 <= i && (i <= |frame| + 1 || i == PAYLOAD_OFFSET + 1)
      invariant forall k :: 0 <= k < WINDOW_LEN ==>
                  cop[k] == if k < i - (PAYLOAD_OFFSET + 1) then frame[PAYLOAD_OFFSET + k] else 0
    {
      cop[i - (PAYLOAD_OFFSET + 1)] := frame[i - 1];
      i := i + 1;
    }
    w := cop[..];
  }
}

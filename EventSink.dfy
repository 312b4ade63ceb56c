/** The login record `packet_handler` formats with `sprintf` and appends with `fwrite`:
    `FTP:,<ip>,USER:<user>,PAS:<pass>,STA:<OK|FAILED>\n`, the IP address in dotted decimal, written as the
    whole zero-filled 110-byte buffer `Buff`. */
module EventSink {
  import opened Common
  import opened Decoder

  /** Size of `Buff`; `fwrite` writes all of it. */
  const RECORD_BUF_LEN: nat := 110

  const DOT: byte := 0x2e
  const COMMA: byte := 0x2c
  const NEWLINE: byte := 0x0a
  const TAG_FTP: seq<byte> := [0x46, 0x54, 0x50, 0x3a, 0x2c]        // "FTP:,"
  const TAG_USER: seq<byte> := [0x2c, 0x55, 0x53, 0x45, 0x52, 0x3a]  // ",USER:"
  const TAG_PAS: seq<byte> := [0x2c, 0x50, 0x41, 0x53, 0x3a]         // ",PAS:"
  const TAG_STA: seq<byte> := [0x2c, 0x53, 0x54, 0x41, 0x3a]         // ",STA:"
  const STATUS_OK: seq<byte> := [0x4f, 0x4b]                         // "OK"
  const STATUS_FAILED: seq<byte> := [0x46, 0x41, 0x49, 0x4c, 0x45, 0x44]  // "FAILED"

  predicate IsDigit(b: byte)
  {
    0x30 <= b <= 0x39
  }

  function Digit(d: int): (b: byte)
    requires 0 <= d < 10
    ensures IsDigit(b)
  {
    (0x30 + d) as byte
  }

  /** `%d` of a byte value: its decimal digits, most significant first, with no leading zero. */
  function Decimal(n: byte): (r: seq<byte>)
    ensures 1 <= |r| <= 3
    ensures forall i :: 0 <= i < |r| ==> IsDigit(r[i])
    ensures |r| > 1 ==> r[0] != 0x30
  {
    var v := n as int;
    if v < 10 then [Digit(v)]
    else if v < 100 then [Digit(v / 10), Digit(v % 10)]
    else [Digit(v / 100), Digit(v / 10 % 10), Digit(v % 10)]
  }

  /** The number a string of decimal digits denotes. */
  function DigitsValue(ds: seq<byte>): int
    decreases |ds|
  {
    if ds == [] then 0 else DigitsValue(ds[..|ds| - 1]) * 10 + (ds[|ds| - 1] as int - 0x30)
  }

  /** Reading back the digits `%d` prints gives the value. */
  lemma DecimalRoundTrip(n: byte)
    ensures DigitsValue(Decimal(n)) == n as int
  {
    var v := n as int;
    var d := Decimal(n);
    if v >= 100 {
      assert d[..2] == [Digit(v / 100), Digit(v / 10 % 10)];
      assert d[..2][..1] == [Digit(v / 100)];
      assert DigitsValue(d[..2][..1]) == v / 100;
      assert DigitsValue(d[..2]) == (v / 100) * 10 + v / 10 % 10;
      assert v == (v / 100) * 100 + (v / 10 % 10) * 10 + v % 10;
    } else if v >= 10 {
      assert d[..1] == [Digit(v / 10)];
      assert DigitsValue(d[..1]) == v / 10;
      assert v == (v / 10) * 10 + v % 10;
    }
  }

  /** `%d.%d.%d.%d` of an address. */
  function Dotted(a: IPv4): (r: seq<byte>)
    ensures 7 <= |r| <= 15
    ensures COMMA !in r && 0 !in r
  {
    Decimal(a.b1) + ([DOT] + (Decimal(a.b2) + ([DOT] + (Decimal(a.b3) + ([DOT] + Decimal(a.b4))))))
  }

  /** Two strings each followed by the same separator that neither contains split the same way. */
  lemma SplitAtSeparator(x1: seq<byte>, r1: seq<byte>, x2: seq<byte>, r2: seq<byte>, sep: byte)
    requires sep !in x1 && sep !in x2
    requires x1 + ([sep] + r1) == x2 + ([sep] + r2)
    ensures x1 == x2 && r1 == r2
  {
    var s := x1 + ([sep] + r1);
    assert s[|x1|] == sep && s[|x2|] == sep;
    assert forall i :: 0 <= i < |x1| ==> s[i] == x1[i];
    assert forall i :: 0 <= i < |x2| ==> s[i] == x2[i];
    assert x1 == s[..|x1|] && x2 == s[..|x2|];
    assert r1 == s[|x1| + 1..];
  }

  lemma DecimalInjective(m: byte, n: byte)
    requires Decimal(m) == Decimal(n)
    ensures m == n
  {
    DecimalRoundTrip(m);
    DecimalRoundTrip(n);
  }

  /** Different addresses print differently, so the dotted text determines the address. */
  lemma DottedInjective(a: IPv4, b: IPv4)
    requires Dotted(a) == Dotted(b)
    ensures a == b
  {
    var a3 := Decimal(a.b3) + ([DOT] + Decimal(a.b4));
    var b3 := Decimal(b.b3) + ([DOT] + Decimal(b.b4));
    var a2 := Decimal(a.b2) + ([DOT] + a3);
    var b2 := Decimal(b.b2) + ([DOT] + b3);
    SplitAtSeparator(Decimal(a.b1), a2, Decimal(b.b1), b2, DOT);
    SplitAtSeparator(Decimal(a.b2), a3, Decimal(b.b2), b3, DOT);
    SplitAtSeparator(Decimal(a.b3), Decimal(a.b4), Decimal(b.b3), Decimal(b.b4), DOT);
    DecimalInjective(a.b1, b.b1);
    DecimalInjective(a.b2, b.b2);
    DecimalInjective(a.b3, b.b3);
    DecimalInjective(a.b4, b.b4);
  }

  /** The status `%s` prints: OK for 1, FAILED for any other value. */
  function StatusText(sta: int): (r: seq<byte>)
    ensures r == STATUS_OK <==> sta == 1
    ensures r != STATUS_OK ==> r == STATUS_FAILED
  {
    if sta == 1 then STATUS_OK else STATUS_FAILED
  }

  /** The text `sprintf` puts in `Buff` for a finished login: host `dead`, user name, password, and the
      status `sta` (1 is success). */
  function Record(dead: seq<byte>, user: seq<byte>, pass: seq<byte>, sta: int): (r: seq<byte>)
    ensures |r| == |dead| + |user| + |pass| + (if sta == 1 then 24 else 28)
  {
    TAG_FTP + (dead + (TAG_USER + (user + (TAG_PAS + (pass + (TAG_STA + (StatusText(sta) + [NEWLINE])))))))
  }

  /** A record built from NUL-free strings holds no NUL, so `sprintf` ends it where the record ends. */
  lemma RecordHasNoNul(dead: seq<byte>, user: seq<byte>, pass: seq<byte>, sta: int)
    requires 0 !in dead && 0 !in user && 0 !in pass
    ensures 0 !in Record(dead, user, pass, sta)
  {
  }

  /** The record opens with `FTP:,` and the host, and ends in `OK\n` exactly when the status is 1, and in
      `FAILED\n` otherwise. */
  lemma RecordStatus(dead: seq<byte>, user: seq<byte>, pass: seq<byte>, sta: int)
    ensures var r := Record(dead, user, pass, sta);
            && r[..|TAG_FTP|] == TAG_FTP && r[|TAG_FTP|..|TAG_FTP| + |dead|] == dead
            && (r[|r| - 3..] == STATUS_OK + [NEWLINE] <==> sta == 1)
            && (sta != 1 ==> r[|r| - 7..] == STATUS_FAILED + [NEWLINE])
  {
    var r := Record(dead, user, pass, sta);
    var tail := StatusText(sta) + [NEWLINE];
    assert r[|r| - |tail|..] == tail;
    if sta != 1 {
      assert r[|r| - 3..] == tail[4..];
      assert r[|r| - 3..][0] != (STATUS_OK + [NEWLINE])[0];
    }
  }

  /** What follows the comma after the host: the rest of the record. */
  function AfterHost(user: seq<byte>, pass: seq<byte>, sta: int): seq<byte>
  {
    TAG_USER[1..] + (user + (TAG_PAS + (pass + (TAG_STA + (StatusText(sta) + [NEWLINE])))))
  }

  /** After `FTP:,` the record holds the host, then a comma. */
  lemma HostThenComma(dead: seq<byte>, user: seq<byte>, pass: seq<byte>, sta: int)
    ensures Record(dead, user, pass, sta)[|TAG_FTP|..] == dead + ([COMMA] + AfterHost(user, pass, sta))
  {
    var tail := user + (TAG_PAS + (pass + (TAG_STA + (StatusText(sta) + [NEWLINE]))));
    assert TAG_USER == [COMMA] + TAG_USER[1..];
    assert TAG_USER + tail == [COMMA] + AfterHost(user, pass, sta);
    assert Record(dead, user, pass, sta) == TAG_FTP + (dead + (TAG_USER + tail));
  }

  /** The host field is the dotted text up to the first comma after `FTP:,`, so a record names exactly
      one host. */
  lemma RecordNamesHost(a: IPv4, u1: seq<byte>, p1: seq<byte>, s1: int,
                        b: IPv4, u2: seq<byte>, p2: seq<byte>, s2: int)
    requires Record(Dotted(a), u1, p1, s1) == Record(Dotted(b), u2, p2, s2)
    ensures a == b
  {
    HostThenComma(Dotted(a), u1, p1, s1);
    HostThenComma(Dotted(b), u2, p2, s2);
    SplitAtSeparator(Dotted(a), AfterHost(u1, p1, s1), Dotted(b), AfterHost(u2, p2, s2), COMMA);
    DottedInjective(a, b);
  }

  /** `Buff` after `sprintf`: the record text, then zeros up to 110 bytes; `fwrite` writes all 110. */
  function Buffer(text: seq<byte>): (r: seq<byte>)
    requires |text| < RECORD_BUF_LEN
    ensures |r| == RECORD_BUF_LEN
  {
    text + Zeros(RECORD_BUF_LEN - |text|)
  }

  /** Read back as a C string, the written buffer is the record text. */
  lemma BufferHoldsRecord(text: seq<byte>)
    requires |text| < RECORD_BUF_LEN && 0 !in text
    ensures CStr(Buffer(text)) == text
  {
    var z := Zeros(RECORD_BUF_LEN - |text|);
    assert z == [0] + z[1..];
    assert Buffer(text) == text + [0] + z[1..];
    CStrTerminated(text, z[1..]);
  }
}

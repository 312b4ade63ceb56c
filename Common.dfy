/** Machine types shared by the frame decoder, the flow tables and the login correlator. */
module Common {

  /** An unsigned 8-bit value: one byte of a captured frame (`u_char`). */
  newtype byte = x: int | 0 <= x < 0x100

  /** An unsigned 16-bit value (`u_short`). */
  newtype u16 = x: int | 0 <= x < 0x1_0000

  datatype Option<T> = None | Some(value: T)

  /** The zero- or one-element sequence an optional event contributes to an output log. */
  function Emitted<T>(o: Option<T>): (r: seq<T>)
    ensures |r| <= 1
    ensures o.Some? ==> r == [o.value]
    ensures o.None? ==> r == []
  {
    match o
    case None => []
    case Some(v) => [v]
  }

  /** `ntohs` of a 16-bit field stored as the two bytes `hi`, `lo`: network byte order is big-endian,
      so the first byte on the wire is the high half of the value. */
  function Ntohs(hi: byte, lo: byte): (r: u16)
    ensures r as int / 0x100 == hi as int && r as int % 0x100 == lo as int
  {
    (hi as int * 0x100 + lo as int) as u16
  }

  /** The two bytes, high half first, that put `v` on the wire in network byte order. */
  function Htons(v: u16): (r: (byte, byte))
  {
    ((v as int / 0x100) as byte, (v as int % 0x100) as byte)
  }

  lemma NtohsHtons(v: u16)
    ensures Ntohs(Htons(v).0, Htons(v).1) == v
  {
  }

  lemma HtonsNtohs(hi: byte, lo: byte)
    ensures Htons(Ntohs(hi, lo)) == (hi, lo)
  {
    var n := hi as int * 0x100 + lo as int;
    assert n / 0x100 == hi as int && n % 0x100 == lo as int by {
      assert n == 0x100 * hi as int + lo as int && 0 <= lo as int < 0x100;
    }
  }

  /** `n` zero bytes, the value of a zero-initialised C buffer. */
  function Zeros(n: nat): (r: seq<byte>)
    ensures |r| == n
    ensures forall k :: 0 <= k < n ==> r[k] == 0
  {
    seq(n, _ => 0)
  }

  /** The C string a NUL-terminated buffer holds: its bytes up to, not including, the first zero byte. */
  function CStr(s: seq<byte>): (r: seq<byte>)
    ensures |r| <= |s| && r == s[..|r|]
    ensures 0 !in r
    ensures |r| < |s| ==> s[|r|] == 0
  {
    if s == [] then []
    else if s[0] == 0 then []
    else [s[0]] + CStr(s[1..])
  }

  /** A string without NUL is its own C string. */
  lemma {:induction false} CStrOfNulFree(t: seq<byte>)
    requires 0 !in t
    ensures CStr(t) == t
    decreases |t|
  {
    if t != [] {
      CStrOfNulFree(t[1..]);
    }
  }

  /** A string without NUL followed by a NUL reads back as itself, whatever comes after the NUL. */
  lemma CStrTerminated(t: seq<byte>, rest: seq<byte>)
    requires 0 !in t
    ensures CStr(t + [0] + rest) == t
  {
    var s := t + [0] + rest;
    assert s[|t|] == 0;
  }
}

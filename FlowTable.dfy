/** The two flow tables of `packet_handler` (`srcadd`/`srcc` for peers sending to the watched host,
    `dstadd`/`dstc` for peers it sends to). Each is a 100-slot array of addresses beside a parallel array
    of byte counters; the all-zero address marks an empty slot. A frame's length is credited by a linear
    probe that stops at the first slot that is empty or already holds the peer. */
module FlowTable {
  import opened Common
  import opened Decoder

  const CAPACITY: nat := 100

  /** The shape every table keeps: used slots form a prefix and hold distinct addresses. */
  ghost predicate TableOk(s: seq<IPv4>)
  {
    && (forall i, j :: 0 <= i < j < |s| && s[i] == ANY ==> s[j] == ANY)
    && (forall i, j :: 0 <= i < j < |s| && s[i] != ANY ==> s[i] != s[j])
  }

  /** The probe from slot `i` on: the first slot that is empty or holds `peer`. */
  function SlotFrom(s: seq<IPv4>, peer: IPv4, i: nat): (r: Option<nat>)
    decreases |s| - i
    ensures r.Some? ==> i <= r.value < |s| && (s[r.value] == ANY || s[r.value] == peer)
    ensures r.Some? ==> forall k :: i <= k < r.value ==> s[k] != ANY && s[k] != peer
    ensures r.None? ==> forall k :: i <= k < |s| ==> s[k] != ANY && s[k] != peer
  {
    if i >= |s| then None
    else if s[i] == ANY || s[i] == peer then Some(i)
    else SlotFrom(s, peer, i + 1)
  }

  /** The slot the handler's probe stops at, if any: the first one that is empty or holds `peer`.
      There is none exactly when every slot holds some other address. */
  function Slot(s: seq<IPv4>, peer: IPv4): (r: Option<nat>)
    ensures r.Some? ==> r.value < |s| && (s[r.value] == ANY || s[r.value] == peer)
    ensures r.Some? ==> forall k :: 0 <= k < r.value ==> s[k] != ANY && s[k] != peer
    ensures r.None? <==> forall k :: 0 <= k < |s| ==> s[k] != ANY && s[k] != peer
  {
    SlotFrom(s, peer, 0)
  }

  /** The table after crediting `len` bytes to `peer`: the probed slot stores the peer and its counter
      grows by `len`; when the probe finds no slot the table is left as it is. */
  function Claim(s: seq<IPv4>, c: seq<int>, peer: IPv4, len: int): (r: (seq<IPv4>, seq<int>))
    requires |s| == |c|
    ensures |r.0| == |s| && |r.1| == |c|
  {
    match Slot(s, peer)
    case None => (s, c)
    case Some(i) => (s[i := peer], c[i := c[i] + len])
  }

  /** The byte count recorded for `q`, zero when `q` holds no slot. */
  function CountOf(s: seq<IPv4>, c: seq<int>, q: IPv4): int
    requires |s| == |c|
  {
    match Slot(s, q)
    case None => 0
    case Some(i) => if s[i] == q then c[i] else 0
  }

  /** In a well-formed table the probe for a recorded address stops at that address's own slot. */
  lemma SlotOfRecorded(s: seq<IPv4>, peer: IPv4, k: nat)
    requires TableOk(s) && k < |s| && s[k] == peer && peer != ANY
    ensures Slot(s, peer) == Some(k)
  {
  }

  /** A recorded peer: its own counter grows by `len`; no address and no other counter changes. */
  lemma ClaimRecorded(s: seq<IPv4>, c: seq<int>, peer: IPv4, len: int, k: nat)
    requires |s| == |c| && TableOk(s) && k < |s| && s[k] == peer && peer != ANY
    ensures Claim(s, c, peer, len) == (s, c[k := c[k] + len])
  {
    SlotOfRecorded(s, peer, k);
    assert s[k := peer] == s;
  }

  /** A new peer while a slot is free: the first empty slot now stores it and its counter grows by
      `len`; nothing else changes. */
  lemma ClaimNew(s: seq<IPv4>, c: seq<int>, peer: IPv4, len: int, k: nat)
    requires |s| == |c| && TableOk(s) && peer !in s
    requires k < |s| && s[k] == ANY && (k == 0 || s[k - 1] != ANY)
    ensures Claim(s, c, peer, len) == (s[k := peer], c[k := c[k] + len])
  {
  }

  /** A full table and a new peer: the frame's bytes are dropped and the table does not change. */
  lemma ClaimFull(s: seq<IPv4>, c: seq<int>, peer: IPv4, len: int)
    requires |s| == |c| && peer !in s
    requires forall k :: 0 <= k < |s| ==> s[k] != ANY
    ensures Claim(s, c, peer, len) == (s, c)
  {
  }

  /** Crediting keeps used slots a prefix of distinct addresses. */
  lemma {:induction false} ClaimKeepsTable(s: seq<IPv4>, c: seq<int>, peer: IPv4, len: int)
    requires |s| == |c| && TableOk(s)
    ensures TableOk(Claim(s, c, peer, len).0)
  {
    match Slot(s, peer)
    case None =>
    case Some(i) =>
      var t := s[i := peer];
      if s[i] != peer {
        assert s[i] == ANY;
        forall a, b | 0 <= a < b < |t| && t[a] == ANY
          ensures t[b] == ANY
        {
          assert a != i && a > i;
        }
        forall a, b | 0 <= a < b < |t| && t[a] != ANY
          ensures t[a] != t[b]
        {
          if a == i {
            assert s[b] == ANY;
          } else if b == i {
            assert a < i;
          }
        }
      } else {
        assert t == s;
      }
  }

  /** The folded effect of a sequence of (peer, length) credits, oldest first. */
  function ClaimAll(s: seq<IPv4>, c: seq<int>, credits: seq<(IPv4, int)>): (r: (seq<IPv4>, seq<int>))
    requires |s| == |c|
    ensures |r.0| == |s| && |r.1| == |c|
    decreases |credits|
  {
    if credits == [] then (s, c)
    else
      var prev := ClaimAll(s, c, credits[..|credits| - 1]);
      var last := credits[|credits| - 1];
      Claim(prev.0, prev.1, last.0, last.1)
  }

  /** The total length credited to `q` by a sequence of credits. */
  function SumFor(credits: seq<(IPv4, int)>, q: IPv4): int
    decreases |credits|
  {
    if credits == [] then 0
    else
      var last := credits[|credits| - 1];
      SumFor(credits[..|credits| - 1], q) + (if last.0 == q then last.1 else 0)
  }

  /** A recorded peer keeps its slot and accumulates exactly the lengths credited to it, whatever other
      peers are credited in between and whether or not the table fills up. */
  lemma {:induction false} ClaimAllRecorded(s: seq<IPv4>, c: seq<int>, credits: seq<(IPv4, int)>, q: IPv4, k: nat)
    requires |s| == |c| && TableOk(s) && q != ANY && k < |s| && s[k] == q
    ensures var r := ClaimAll(s, c, credits);
            && TableOk(r.0) && r.0[k] == q
            && CountOf(r.0, r.1, q) == CountOf(s, c, q) + SumFor(credits, q)
    decreases |credits|
  {
    SlotOfRecorded(s, q, k);
    if credits != [] {
      var init := credits[..|credits| - 1];
      var (p, len) := credits[|credits| - 1];
      ClaimAllRecorded(s, c, init, q, k);
      var prev := ClaimAll(s, c, init);
      ClaimKeepsTable(prev.0, prev.1, p, len);
      SlotOfRecorded(prev.0, q, k);
      var next := Claim(prev.0, prev.1, p, len);
      if p == q {
        ClaimRecorded(prev.0, prev.1, p, len, k);
      } else {
        match Slot(prev.0, p)
        case None =>
        case Some(i) =>
          assert i != k;
      }
      SlotOfRecorded(next.0, q, k);
    }
  }

  /** Empty slots hold no bytes: true of the zero-initialised tables, and kept by every credit to an
      address other than 0.0.0.0. */
  ghost predicate EmptyHoldsZero(s: seq<IPv4>, c: seq<int>)
    requires |s| == |c|
  {
    forall k :: 0 <= k < |s| && s[k] == ANY ==> c[k] == 0
  }

  /** A frame whose peer is 0.0.0.0: the probe stops at the first empty slot, which stays empty while
      its counter grows by `len`. */
  lemma ClaimAny(s: seq<IPv4>, c: seq<int>, len: int, k: nat)
    requires |s| == |c| && k < |s| && s[k] == ANY && forall j :: 0 <= j < k ==> s[j] != ANY
    ensures Claim(s, c, ANY, len) == (s, c[k := c[k] + len])
  {
    assert s[k := ANY] == s;
  }

  /** Bytes credited to 0.0.0.0 are inherited by the next new peer, which takes the same slot. */
  lemma AnyBytesInherited(s: seq<IPv4>, c: seq<int>, len0: int, peer: IPv4, len: int, k: nat)
    requires |s| == |c| && TableOk(s) && peer !in s
    requires k < |s| && s[k] == ANY && forall j :: 0 <= j < k ==> s[j] != ANY
    ensures var t := Claim(s, c, ANY, len0);
            Claim(t.0, t.1, peer, len) == (s[k := peer], c[k := c[k] + len0 + len])
  {
    ClaimAny(s, c, len0, k);
    var c0 := c[k := c[k] + len0];
    ClaimNew(s, c0, peer, len, k);
    assert c0[k := c0[k] + len] == c[k := c[k] + len0 + len];
  }

  /** One credit to an address other than 0.0.0.0, seen from any other address `q`: the table stays
      well formed with its empty slots at zero; a recorded `q` stays recorded and gains exactly the
      length when it is the one credited; a `q` that enters the table enters with exactly the length
      into a table that had room; a table with room after the credit had room before; and a table with
      room does not leave the credited peer out. */
  lemma ClaimCounts(s: seq<IPv4>, c: seq<int>, p: IPv4, len: int, q: IPv4)
    requires |s| == |c| && TableOk(s) && EmptyHoldsZero(s, c) && p != ANY && q != ANY
    ensures var r := Claim(s, c, p, len);
            && TableOk(r.0) && EmptyHoldsZero(r.0, r.1)
            && (q in s ==> q in r.0 && CountOf(r.0, r.1, q) == CountOf(s, c, q) + (if p == q then len else 0))
            && (q !in s && q in r.0 ==> p == q && ANY in s && CountOf(r.0, r.1, q) == len)
            && (ANY in r.0 ==> ANY in s)
            && (ANY in s ==> p in r.0)
  {
    ClaimKeepsTable(s, c, p, len);
    match Slot(s, p)
    case None =>
    case Some(i) =>
      var t := s[i := p];
      var d := c[i := c[i] + len];
      assert t[i] == p;
      if q in s {
        var k :| 0 <= k < |s| && s[k] == q;
        SlotOfRecorded(s, q, k);
        assert t[k] == q;
        SlotOfRecorded(t, q, k);
        if p == q {
          SlotOfRecorded(s, p, k);
        }
      } else if q in t {
        var k :| 0 <= k < |t| && t[k] == q;
        assert k == i && s[i] == ANY;
        SlotOfRecorded(t, q, i);
      }
      if ANY in t {
        var k :| 0 <= k < |t| && t[k] == ANY;
        assert s[k] == ANY;
      }
  }

  /** The per-peer totals the tables promise, for every peer, including one first seen during the run:
      starting from a well-formed table whose empty slots hold no bytes, and crediting only addresses
      other than 0.0.0.0, every peer that holds a slot at the end counts its starting bytes plus exactly
      the lengths credited to it. A peer still without a slot while the table has room was never
      credited. */
  lemma {:induction false} ClaimAllTotals(s: seq<IPv4>, c: seq<int>, credits: seq<(IPv4, int)>, q: IPv4)
    requires |s| == |c| && TableOk(s) && EmptyHoldsZero(s, c) && q != ANY
    requires forall i :: 0 <= i < |credits| ==> credits[i].0 != ANY
    ensures var r := ClaimAll(s, c, credits);
            && TableOk(r.0) && EmptyHoldsZero(r.0, r.1)
            && (q in r.0 ==> CountOf(r.0, r.1, q) == CountOf(s, c, q) + SumFor(credits, q))
            && (q !in r.0 && ANY in r.0 ==> q !in s && SumFor(credits, q) == 0)
    decreases |credits|
  {
    if credits != [] {
      var init := credits[..|credits| - 1];
      var (p, len) := credits[|credits| - 1];
      assert forall i :: 0 <= i < |init| ==> init[i] == credits[i];
      ClaimAllTotals(s, c, init, q);
      var prev := ClaimAll(s, c, init);
      ClaimCounts(prev.0, prev.1, p, len, q);
    }
  }

  /** The handler's probe loop over one table (`pft`/`srcc` or `pft`/`dstc`): the first slot that is
      empty is claimed for `peer`, the first slot that holds it is credited; a full table is left as it
      is. */
  method Account(addrs: array<IPv4>, counts: array<int>, peer: IPv4, len: int)
    requires addrs.Length == counts.Length
    modifies addrs, counts
    ensures (addrs[..], counts[..]) == Claim(old(addrs[..]), old(counts[..]), peer, len)
  {
    var i := 0;
    while i < addrs.Length
      invariant 0 <= i <= addrs.Length
      invariant addrs[..] == old(addrs[..]) && counts[..] == old(counts[..])
      invariant SlotFrom(addrs[..], peer, i) == Slot(addrs[..], peer)
    {
      if addrs[i] == ANY {
        addrs[i] := peer;
        counts[i] := counts[i] + len;
        return;
      }
      if addrs[i] == peer {
        counts[i] := counts[i] + len;
        assert addrs[..] == addrs[..][i := peer];
        return;
      }
      i := i + 1;
    }
  }
}

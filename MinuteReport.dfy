/** The per-minute traffic counters of `packet_handler`: `countrec` and `countsend` add up the IPv4 total
    lengths of the frames a second watched host receives and sends; when a frame's minute differs from
    the last reported one (`seclast`, initially 0), both totals are reported and reset. */
module MinuteReport {
  import opened Common
  import opened Decoder

  /** The host whose traffic volume is reported once a minute. */
  const RATE_WATCHED := IPv4(192, 168, 1, 109)

  /** `seclast`, `countrec`, `countsend`. */
  datatype Minutes = Minutes(seclast: int, countrec: int, countsend: int)

  /** One report: the bytes received and sent since the previous one (the source prints them divided
      by 1024 as KB). */
  datatype Report = Report(received: int, sent: int)

  /** The static initial values: no bytes counted, last minute 0. */
  const INITIAL := Minutes(0, 0, 0)

  /** The length a frame adds to `countrec`. */
  function Received(h: Headers): (r: nat)
    ensures r < 0x1_0000
    ensures h.daddr == RATE_WATCHED ==> r == h.tlen as nat
    ensures h.daddr != RATE_WATCHED ==> r == 0
  {
    if h.daddr == RATE_WATCHED then h.tlen as nat else 0
  }

  /** The length a frame adds to `countsend`. */
  function Sent(h: Headers): (r: nat)
    ensures r < 0x1_0000
    ensures h.saddr == RATE_WATCHED ==> r == h.tlen as nat
    ensures h.saddr != RATE_WATCHED ==> r == 0
  {
    if h.saddr == RATE_WATCHED then h.tlen as nat else 0
  }

  /** One frame at `minute`: the frame's bytes are counted first; then, if the minute changed, both
      totals are reported and reset to zero. */
  function MinuteStep(m: Minutes, h: Headers, minute: int): (r: (Minutes, Option<Report>))
    ensures r.1.Some? <==> minute != m.seclast
    ensures r.0.seclast == minute
    ensures r.1.Some? ==> r.0.countrec == 0 && r.0.countsend == 0
  {
    var rec := m.countrec + Received(h);
    var send := m.countsend + Sent(h);
    if m.seclast == minute then (Minutes(m.seclast, rec, send), None)
    else (Minutes(minute, 0, 0), Some(Report(rec, send)))
  }

  /** A sequence of (headers, minute) frames, oldest first: the final counters and the reports made. */
  function MinuteRun(m: Minutes, frames: seq<(Headers, int)>): (r: (Minutes, seq<Report>))
    ensures |r.1| <= |frames|
    ensures frames != [] ==> r.0.seclast == frames[|frames| - 1].1
    ensures frames == [] ==> r == (m, [])
    decreases |frames|
  {
    if frames == [] then (m, [])
    else
      var prev := MinuteRun(m, frames[..|frames| - 1]);
      var (h, minute) := frames[|frames| - 1];
      var step := MinuteStep(prev.0, h, minute);
      (step.0, prev.1 + Emitted(step.1))
  }

  function SumReceived(frames: seq<(Headers, int)>): nat
    decreases |frames|
  {
    if frames == [] then 0 else SumReceived(frames[..|frames| - 1]) + Received(frames[|frames| - 1].0)
  }

  function SumSent(frames: seq<(Headers, int)>): nat
    decreases |frames|
  {
    if frames == [] then 0 else SumSent(frames[..|frames| - 1]) + Sent(frames[|frames| - 1].0)
  }

  /** Frames within the last reported minute report nothing and add their lengths to the totals. */
  lemma {:induction false} QuietMinute(m: Minutes, frames: seq<(Headers, int)>)
    requires forall i :: 0 <= i < |frames| ==> frames[i].1 == m.seclast
    ensures MinuteRun(m, frames)
            == (Minutes(m.seclast, m.countrec + SumReceived(frames), m.countsend + SumSent(frames)), [])
    decreases |frames|
  {
    if frames != [] {
      var init := frames[..|frames| - 1];
      QuietMinute(m, init);
      var (h, minute) := frames[|frames| - 1];
      assert minute == m.seclast;
      var prev := MinuteRun(m, init);
      var step := MinuteStep(prev.0, h, minute);
      assert step.1 == None;
      assert prev.1 + Emitted(step.1) == [];
    }
  }

  /** The first frame of a new minute makes exactly one report, holding everything counted since the
      previous report together with that frame's own bytes, and leaves both totals at zero. */
  lemma Rollover(m: Minutes, frames: seq<(Headers, int)>, h: Headers, minute: int)
    requires forall i :: 0 <= i < |frames| ==> frames[i].1 == m.seclast
    requires minute != m.seclast
    ensures var all := frames + [(h, minute)];
            MinuteRun(m, all)
            == (Minutes(minute, 0, 0),
                [Report(m.countrec + SumReceived(all), m.countsend + SumSent(all))])
  {
    var all := frames + [(h, minute)];
    assert all[..|all| - 1] == frames;
    QuietMinute(m, frames);
    var prev := MinuteRun(m, frames);
    var step := MinuteStep(prev.0, h, minute);
    assert prev.1 + Emitted(step.1) == [step.1.value];
  }

  /** Because `seclast` starts at 0, the very first frame reports unless its minute is 0; it reports
      its own bytes only. */
  lemma FirstFrame(h: Headers, minute: int)
    ensures MinuteStep(INITIAL, h, minute).1.Some? <==> minute != 0
    ensures minute != 0 ==> MinuteStep(INITIAL, h, minute).1 == Some(Report(Received(h), Sent(h)))
  {
  }
}

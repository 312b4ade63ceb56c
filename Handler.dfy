/** `packet_handler` as one object: its static locals become the fields of `Monitor`, and one call of
    the callback becomes `HandleFrame`. The console reports and the lines appended to the record file
    are kept as the output sequences `reports` and `records`. */
module Handler {
  import opened Common
  import opened Decoder
  import opened FlowTable
  import opened MinuteReport
  import opened EventSink
  import opened Login

  /** The frames the handler can take without undefined behaviour: the header reads stay inside the
      captured bytes, the payload copy stays inside the 100-byte window, and an outbound `USER` or `PASS`
      line has a space, a terminator and an argument that fits its slot. */
  predicate Handleable(frame: seq<byte>)
  {
    && Decode(frame).Some?
    && |frame| <= PAYLOAD_OFFSET + WINDOW_LEN
    && (Route(Decode(frame).value) == Outbound ==> Scannable(WindowOf(frame)))
  }

  class Monitor {
    /** The inbound table, keyed by source address, and its counters. */
    const srcadd: array<IPv4>
    const srcc: array<int>
    /** The outbound table, keyed by destination address, and its counters. */
    const dstadd: array<IPv4>
    const dstc: array<int>
    /** Slot 0 of `user[100][20]` and `pass[100][20]`. */
    const user: array<byte>
    const pass: array<byte>
    var seclast: int
    var countrec: int
    var countsend: int
    var passget: int
    /** The C string in `dead[0]`: the destination of the latest outbound frame. */
    var dead: seq<byte>
    var sta: int
    /** The per-minute reports printed so far, oldest first. */
    var reports: seq<Report>
    /** The 110-byte buffers appended to the record file so far, oldest first. */
    var records: seq<seq<byte>>

    ghost predicate Valid()
      reads this, srcadd, dstadd, user, pass
    {
      && srcadd.Length == CAPACITY && srcc.Length == CAPACITY
      && dstadd.Length == CAPACITY && dstc.Length == CAPACITY
      && srcadd != dstadd && srcc != dstc && user != pass
      && user.Length == SLOT_LEN && pass.Length == SLOT_LEN
      && TableOk(srcadd[..]) && TableOk(dstadd[..])
      && LoginOk(Correlator())
    }

    function Minute(): Minutes
      reads this
    {
      Minutes(seclast, countrec, countsend)
    }

    function Correlator(): LoginState
      reads this, user, pass
    {
      LoginState(passget, CStr(user[..]), CStr(pass[..]), dead, sta)
    }

    /** The zero-initialised statics before the first frame. */
    constructor ()
      ensures Valid()
      ensures fresh(srcadd) && fresh(srcc) && fresh(dstadd) && fresh(dstc) && fresh(user) && fresh(pass)
      ensures srcadd[..] == seq(CAPACITY, _ => ANY) && dstadd[..] == seq(CAPACITY, _ => ANY)
      ensures srcc[..] == seq(CAPACITY, _ => 0) && dstc[..] == seq(CAPACITY, _ => 0)
      ensures Minute() == INITIAL && Correlator() == IDLE
      ensures reports == [] && records == []
    {
      srcadd := new IPv4[CAPACITY](_ => ANY);
      srcc := new int[CAPACITY](_ => 0);
      dstadd := new IPv4[CAPACITY](_ => ANY);
      dstc := new int[CAPACITY](_ => 0);
      user := new byte[SLOT_LEN](_ => 0);
      pass := new byte[SLOT_LEN](_ => 0);
      seclast, countrec, countsend := 0, 0, 0;
      passget, dead, sta := 0, [], 0;
      reports, records := [], [];
      new;
      assert CStr(user[..]) == [] by { assert user[..][0] == 0; }
      assert CStr(pass[..]) == [] by { assert pass[..][0] == 0; }
      assert srcadd[..] == seq(CAPACITY, _ => ANY) && dstadd[..] == seq(CAPACITY, _ => ANY);
      assert TableOk(srcadd[..]) && TableOk(dstadd[..]);
    }

    /** One call of the callback on a captured frame whose timestamp falls in minute `minute`. The frame
        credits the table of its direction, feeds the per-minute counters and drives the login
        correlator with its payload window; nothing else changes. */
    method HandleFrame(frame: seq<byte>, minute: int)
      requires Valid() && Handleable(frame)
      modifies this, srcadd, srcc, dstadd, dstc, user, pass
      ensures Valid()
      ensures var h := Decode(frame).value;
              && (Route(h) == Inbound ==>
                    (srcadd[..], srcc[..]) == Claim(old(srcadd[..]), old(srcc[..]), h.saddr, h.tlen as int))
              && (Route(h) != Inbound ==> srcadd[..] == old(srcadd[..]) && srcc[..] == old(srcc[..]))
              && (Route(h) == Outbound ==>
                    (dstadd[..], dstc[..]) == Claim(old(dstadd[..]), old(dstc[..]), h.daddr, h.tlen as int))
              && (Route(h) != Outbound ==> dstadd[..] == old(dstadd[..]) && dstc[..] == old(dstc[..]))
      ensures var step := MinuteStep(old(Minute()), Decode(frame).value, minute);
              Minute() == step.0 && reports == old(reports) + Emitted(step.1)
      ensures var h := Decode(frame).value;
              var step := LoginStep(old(Correlator()), Route(h), h.daddr, WindowOf(frame));
              Correlator() == step.0 && records == old(records) + Emitted(step.1)
    {
      var h := Decode(frame).value;
      var dir := Route(h);
      Credit(dir, h);
      CountMinute(h, minute);
      var cop := Window(frame);
      Correlate(dir, h.daddr, cop);
    }

    /** The correlator's part of the callback: the checks of the frame's direction on the window `cop`,
        then `passget` returns to 0 if it reached 4. */
    method Correlate(dir: Direction, daddr: IPv4, cop: seq<byte>)
      requires Valid() && (dir == Outbound ==> Scannable(cop))
      modifies this, user, pass
      ensures Valid()
      ensures var step := LoginStep(old(Correlator()), dir, daddr, cop);
              Correlator() == step.0 && records == old(records) + Emitted(step.1)
      ensures Minute() == old(Minute()) && reports == old(reports)
    {
      CheckDirection(dir, daddr, cop);
      if passget == 4 {
        passget := 0;
      }
    }

    /** The checks of the frame's direction: the outbound ones or the inbound ones. */
    method CheckDirection(dir: Direction, daddr: IPv4, cop: seq<byte>)
      requires Valid() && (dir == Outbound ==> Scannable(cop))
      modifies this, user, pass
      ensures var c := Checks(old(Correlator()), dir, daddr, cop);
              Correlator() == c.0 && records == old(records) + Emitted(c.1)
      ensures Minute() == old(Minute()) && reports == old(reports)
    {
      if dir == Outbound {
        Command(daddr, cop);
      } else if dir == Inbound {
        Reply(cop);
      }
    }

    /** The probe loop of the frame's direction: the inbound table is keyed by the source, the outbound
        table by the destination; a frame that neither comes from nor goes to the watched host credits
        neither. */
    method Credit(dir: Direction, h: Headers)
      requires Valid() && dir == Route(h)
      modifies srcadd, srcc, dstadd, dstc
      ensures Valid()
      ensures dir == Inbound ==> (srcadd[..], srcc[..]) == Claim(old(srcadd[..]), old(srcc[..]), h.saddr, h.tlen as int)
      ensures dir != Inbound ==> srcadd[..] == old(srcadd[..]) && srcc[..] == old(srcc[..])
      ensures dir == Outbound ==> (dstadd[..], dstc[..]) == Claim(old(dstadd[..]), old(dstc[..]), h.daddr, h.tlen as int)
      ensures dir != Outbound ==> dstadd[..] == old(dstadd[..]) && dstc[..] == old(dstc[..])
    {
      var len := h.tlen as int;
      if dir == Inbound {
        ClaimKeepsTable(srcadd[..], srcc[..], h.saddr, len);
        Account(srcadd, srcc, h.saddr, len);
      } else if dir == Outbound {
        ClaimKeepsTable(dstadd[..], dstc[..], h.daddr, len);
        Account(dstadd, dstc, h.daddr, len);
      }
    }

    /** The per-minute counters: both totals may grow, then a new minute reports and resets them. */
    method CountMinute(h: Headers, minute: int)
      modifies this
      ensures var step := MinuteStep(old(Minute()), h, minute);
              Minute() == step.0 && reports == old(reports) + Emitted(step.1)
      ensures passget == old(passget) && dead == old(dead) && sta == old(sta) && records == old(records)
    {
      if h.daddr == RATE_WATCHED {
        countrec := countrec + h.tlen as int;
      }
      if h.saddr == RATE_WATCHED {
        countsend := countsend + h.tlen as int;
      }
      if seclast != minute {
        seclast := minute;
        reports := reports + [Report(countrec, countsend)];
        countrec := 0;
        countsend := 0;
      }
    }

    /** The checks on an outbound window: record the destination, then scan a `USER` or `PASS` argument
        into its slot. */
    method Command(daddr: IPv4, cop: seq<byte>)
      requires user.Length == SLOT_LEN && pass.Length == SLOT_LEN && user != pass && Scannable(cop)
      modifies this, user, pass
      ensures Correlator() == Commands(old(Correlator()), daddr, cop)
      ensures Minute() == old(Minute()) && reports == old(reports) && records == old(records)
    {
      ghost var s0 := old(Correlator()).(dead := Dotted(daddr));
      dead := Dotted(daddr);
      assert Correlator() == s0;
      ghost var s1 := if StartsWith(cop, CMD_USER) then s0.(passget := s0.passget + 1, user := CStr(Field(cop).value)) else s0;
      if StartsWith(cop, CMD_USER) {
        passget := passget + 1;
        ghost var before := user[..];
        ScanField(cop, user);
        StoredHoldsField(before, Field(cop).value);
      }
      assert Correlator() == s1;
      if StartsWith(cop, CMD_PASS) {
        passget := passget + 1;
        ghost var before := pass[..];
        ScanField(cop, pass);
        StoredHoldsField(before, Field(cop).value);
      }
    }

    /** The checks on an inbound window: 331 at 1, then 530 or 230 at 3 write the finished login. */
    method Reply(cop: seq<byte>)
      requires LoginOk(Correlator())
      modifies this
      ensures var step := Replies(old(Correlator()), cop);
              Correlator() == step.0 && records == old(records) + Emitted(step.1)
      ensures Minute() == old(Minute()) && reports == old(reports)
    {
      if StartsWith(cop, REPLY_331) && passget == 1 {
        passget := passget + 1;
      }
      if StartsWith(cop, REPLY_530) && passget == 3 {
        passget := passget + 1;
        sta := 0;
        RecordFits(Correlator());
        records := records + [Buffer(Record(dead, CStr(user[..]), CStr(pass[..]), sta))];
      }
      if StartsWith(cop, REPLY_230) && passget == 3 {
        passget := passget + 1;
        sta := 1;
        RecordFits(Correlator());
        records := records + [Buffer(Record(dead, CStr(user[..]), CStr(pass[..]), sta))];
      }
    }
  }
}

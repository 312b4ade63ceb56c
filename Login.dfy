/** The FTP login correlator of `packet_handler`. It looks at the 100-byte payload window: on frames the
    watched host sends, a `USER` or `PASS` command (RFC 959 section 4.1.1) advances the counter
    `passget` and its argument is copied into a 20-byte slot; on frames it receives, reply code 331
    (RFC 959 section 4.2) advances the counter from 1 to 2, and 230 or 530 at 3 finish the login and
    emit one record. The counter returns to 0 when it reaches 4. Only slot 0 is ever used, because
    `countuser` is never incremented. */
module Login {
  import opened Common
  import opened Decoder
  import opened EventSink

  const SP: byte := 0x20
  const CR: byte := 0x0d
  const LF: byte := 0x0a
  /** Size of one `user`/`pass` slot. */
  const SLOT_LEN: nat := 20

  const CMD_USER: seq<byte> := [0x55, 0x53, 0x45, 0x52]  // "USER"
  const CMD_PASS: seq<byte> := [0x50, 0x41, 0x53, 0x53]  // "PASS"
  const REPLY_331: seq<byte> := [0x33, 0x33, 0x31]      // "331" user name okay, need password
  const REPLY_530: seq<byte> := [0x35, 0x33, 0x30]      // "530" not logged in
  const REPLY_230: seq<byte> := [0x32, 0x33, 0x30]      // "230" user logged in

  predicate StartsWith(w: seq<byte>, p: seq<byte>)
  {
    |p| <= |w| && w[..|p|] == p
  }

  /** The first space at or after `i`. */
  function SpaceFrom(w: seq<byte>, i: nat): (r: Option<nat>)
    decreases |w| - i
    ensures r.Some? ==> i <= r.value < |w| && w[r.value] == SP
    ensures r.Some? ==> forall k :: i <= k < r.value ==> w[k] != SP
    ensures r.None? ==> forall k :: i <= k < |w| ==> w[k] != SP
  {
    if i >= |w| then None
    else if w[i] == SP then Some(i)
    else SpaceFrom(w, i + 1)
  }

  /** Where the argument scan started at `j` stops: the first position that holds CR or is followed
      by LF. None when there is no such position the scan can reach without reading past the window. */
  function FieldEndFrom(w: seq<byte>, j: nat): (r: Option<nat>)
    decreases |w| - j
    ensures r.Some? ==> j <= r.value < |w| && (w[r.value] == CR || (r.value + 1 < |w| && w[r.value + 1] == LF))
    ensures r.Some? ==> (forall k :: j <= k < r.value ==> w[k] != CR) && (forall k :: j < k <= r.value ==> w[k] != LF)
    ensures r.None? ==> (forall k :: j <= k < |w| ==> w[k] != CR) && (forall k :: j < k < |w| ==> w[k] != LF)
  {
    if j >= |w| then None
    else if w[j] == CR then Some(j)
    else if j + 1 >= |w| then None
    else if w[j + 1] == LF then Some(j)
    else FieldEndFrom(w, j + 1)
  }

  /** The argument of a command line in the window: the bytes after the first space up to where the
      scan stops. None when either scan would run off the window. */
  function Field(w: seq<byte>): (r: Option<seq<byte>>)
    ensures r.Some? ==> |r.value| < |w| && CR !in r.value
    ensures r.Some? ==> forall k :: 1 <= k < |r.value| ==> r.value[k] != LF
    ensures r.None? <==> SpaceFrom(w, 0).None? || FieldEndFrom(w, SpaceFrom(w, 0).value + 1).None?
  {
    match SpaceFrom(w, 0)
    case None => None
    case Some(sp) =>
      match FieldEndFrom(w, sp + 1)
      case None => None
      case Some(e) => Some(w[sp + 1..e])
  }

  /** A command word without spaces, one space, an argument, then CR: the argument is extracted
      exactly, provided it holds no CR and no LF after its first byte. */
  lemma FieldOfLine(cmd: seq<byte>, arg: seq<byte>, rest: seq<byte>)
    requires SP !in cmd && CR !in arg
    requires forall k :: 1 <= k < |arg| ==> arg[k] != LF
    ensures Field(cmd + [SP] + arg + [CR] + rest) == Some(arg)
  {
    var w := cmd + [SP] + arg + [CR] + rest;
    var sp := |cmd|;
    var e := sp + 1 + |arg|;
    assert w[sp] == SP && w[e] == CR;
    assert forall k :: 0 <= k < sp ==> w[k] == cmd[k];
    assert forall k :: sp + 1 <= k < e ==> w[k] == arg[k - sp - 1];
    assert SpaceFrom(w, 0) == Some(sp);
    assert FieldEndFrom(w, sp + 1) == Some(e);
    assert w[sp + 1..e] == arg;
  }

  /** A line ended by a bare LF loses its last byte: the scan stops at the position followed by LF. */
  lemma FieldBeforeBareLineFeed(cmd: seq<byte>, arg: seq<byte>, rest: seq<byte>)
    requires SP !in cmd && CR !in arg && |arg| >= 1
    requires forall k :: 1 <= k < |arg| ==> arg[k] != LF
    ensures Field(cmd + [SP] + arg + [LF] + rest) == Some(arg[..|arg| - 1])
  {
    var w := cmd + [SP] + arg + [LF] + rest;
    var sp := |cmd|;
    var e := sp + |arg|;
    assert w[sp] == SP && w[e + 1] == LF;
    assert forall k :: 0 <= k < sp ==> w[k] == cmd[k];
    assert forall k :: sp + 1 <= k <= e ==> w[k] == arg[k - sp - 1];
    assert SpaceFrom(w, 0) == Some(sp);
    assert FieldEndFrom(w, sp + 1) == Some(e);
    assert w[sp + 1..e] == arg[..|arg| - 1];
  }

  /** A slot after a field has been copied into it and NUL-terminated; bytes after the NUL are old. */
  function Stored(slot: seq<byte>, field: seq<byte>): (r: seq<byte>)
    requires |field| < |slot|
    ensures |r| == |slot|
  {
    field + [0] + slot[|field| + 1..]
  }

  /** The string a stored slot holds is the field read as a C string. */
  lemma {:induction false} StoredHoldsField(slot: seq<byte>, field: seq<byte>)
    requires |field| < |slot|
    ensures CStr(Stored(slot, field)) == CStr(field)
    decreases |field|
  {
    var rest := slot[|field| + 1..];
    if field != [] && field[0] != 0 {
      var slot' := slot[1..];
      StoredHoldsField(slot', field[1..]);
      assert slot'[|field[1..]| + 1..] == rest;
      assert Stored(slot, field)[1..] == Stored(slot', field[1..]);
    }
  }

  /** The first scan loop: the index of the first space in the window. */
  method FindSpace(w: seq<byte>) returns (tx: nat)
    requires SpaceFrom(w, 0).Some?
    ensures tx < |w| && w[tx] == SP && forall k :: 0 <= k < tx ==> w[k] != SP
    ensures SpaceFrom(w, 0) == Some(tx)
  {
    tx := 0;
    while w[tx] != SP
      invariant 0 <= tx < |w| && SpaceFrom(w, tx) == SpaceFrom(w, 0)
      decreases |w| - tx
    {
      tx := tx + 1;
    }
  }

  /** The second scan loop: from `ctx` on, copy window bytes into the slot until a byte is CR or is
      followed by LF; the index where it stops is returned. */
  method CopyField(w: seq<byte>, ctx: nat, slot: array<byte>) returns (tx: nat)
    requires FieldEndFrom(w, ctx).Some? && FieldEndFrom(w, ctx).value - ctx < slot.Length
    modifies slot
    ensures Some(tx) == FieldEndFrom(w, ctx)
    ensures forall k :: 0 <= k < tx - ctx ==> slot[k] == w[ctx + k]
    ensures forall k :: tx - ctx <= k < slot.Length ==> slot[k] == old(slot[k])
  {
    ghost var e := FieldEndFrom(w, ctx).value;
    tx := ctx;
    while w[tx] != CR && w[tx + 1] != LF
      invariant ctx <= tx <= e && FieldEndFrom(w, tx) == Some(e)
      invariant forall k :: 0 <= k < tx - ctx ==> slot[k] == w[ctx + k]
      invariant forall k :: tx - ctx <= k < slot.Length ==> slot[k] == old(slot[k])
      decreases |w| - tx
    {
      slot[tx - ctx] := w[tx];
      tx := tx + 1;
    }
  }

  /** The two scan loops for a `USER`/`PASS` argument: find the first space, then copy bytes into the
      slot until a byte is CR or is followed by LF, and NUL-terminate. The source's scans have no bound;
      here the window must hold both stopping points and the argument must fit the slot with its NUL. */
  method ScanField(w: seq<byte>, slot: array<byte>)
    requires Field(w).Some? && |Field(w).value| < slot.Length
    modifies slot
    ensures slot[..] == Stored(old(slot[..]), Field(w).value)
  {
    var tx := FindSpace(w);
    var ctx := tx + 1;
    tx := CopyField(w, ctx, slot);
    ghost var field := Field(w).value;
    assert field == w[ctx..tx];
    slot[tx - ctx] := 0;
    ghost var stored := Stored(old(slot[..]), field);
    assert forall k :: 0 <= k < slot.Length ==> slot[k] == stored[k];
    assert slot[..] == stored;
  }

  /** What the correlator keeps between frames (slot 0 of each array): `passget`, the C strings in
      `user[0]`, `pass[0]` and `dead[0]`, and `sta[0]`. */
  datatype LoginState = LoginState(passget: int, user: seq<byte>, pass: seq<byte>, dead: seq<byte>, sta: int)

  /** The static initial state: all counters and buffers zero. */
  const IDLE := LoginState(0, [], [], [], 0)

  /** What holds between frames: the counter is below 4 and the strings fit their buffers. */
  predicate LoginOk(st: LoginState)
  {
    && 0 <= st.passget <= 3
    && |st.user| < SLOT_LEN && |st.pass| < SLOT_LEN && |st.dead| <= 15
    && 0 !in st.user && 0 !in st.pass && 0 !in st.dead
  }

  /** A window the source can scan without undefined behaviour when it arrives on an outbound frame. */
  predicate Scannable(w: seq<byte>)
  {
    (StartsWith(w, CMD_USER) || StartsWith(w, CMD_PASS)) ==> Field(w).Some? && |Field(w).value| < SLOT_LEN
  }

  /** The check at the end of every frame: a counter that reached 4 goes back to 0. */
  function Settle(st: LoginState): (r: LoginState)
    ensures r.passget != 4 && r.(passget := st.passget) == st
    ensures st.passget == 4 ==> r.passget == 0
    ensures st.passget != 4 ==> r == st
  {
    if st.passget == 4 then st.(passget := 0) else st
  }

  /** The correlator's step for one frame: its direction, its destination address and its window. The
      second component is the 110-byte buffer written to the log, if the frame finishes a login. */
  function LoginStep(st: LoginState, dir: Direction, daddr: IPv4, w: seq<byte>): (r: (LoginState, Option<seq<byte>>))
    requires LoginOk(st)
    requires dir == Outbound ==> Scannable(w)
    ensures LoginOk(r.0)
    ensures r.1.Some? <==> dir == Inbound && st.passget == 3 && (StartsWith(w, REPLY_530) || StartsWith(w, REPLY_230))
    ensures r.1.Some? ==> && r.0.passget == 0 && (r.0.sta == 1 <==> StartsWith(w, REPLY_230))
                          && r.1.value == Buffer(Record(st.dead, st.user, st.pass, r.0.sta))
    ensures dir == Outbound ==> r.0.dead == Dotted(daddr) && r.0.sta == st.sta
    ensures dir != Outbound ==> r.0.user == st.user && r.0.pass == st.pass && r.0.dead == st.dead
    ensures dir == Inbound && st.passget != 1 && st.passget != 3 ==> r.0 == st
    ensures dir == Unwatched ==> r.0 == st
  {
    var c := Checks(st, dir, daddr, w);
    (Settle(c.0), c.1)
  }

  /** The checks of the frame's direction, before the counter is settled. */
  function Checks(st: LoginState, dir: Direction, daddr: IPv4, w: seq<byte>): (LoginState, Option<seq<byte>>)
    requires LoginOk(st)
    requires dir == Outbound ==> Scannable(w)
  {
    match dir
    case Unwatched => (st, None)
    case Outbound => (Commands(st, daddr, w), None)
    case Inbound => Replies(st, w)
  }

  /** The checks on an outbound frame, before the counter is settled: the destination is recorded,
      then a `USER` line and a `PASS` line each advance the counter and store their argument. */
  function Commands(st: LoginState, daddr: IPv4, w: seq<byte>): (r: LoginState)
    requires Scannable(w)
    ensures r.dead == Dotted(daddr) && r.sta == st.sta
    ensures r.passget == st.passget + (if StartsWith(w, CMD_USER) || StartsWith(w, CMD_PASS) then 1 else 0)
    ensures r.user == (if StartsWith(w, CMD_USER) then CStr(Field(w).value) else st.user)
    ensures r.pass == (if StartsWith(w, CMD_PASS) then CStr(Field(w).value) else st.pass)
  {
    CommandsDiffer(w);
    var s0 := st.(dead := Dotted(daddr));
    var s1 := if StartsWith(w, CMD_USER) then s0.(passget := s0.passget + 1, user := CStr(Field(w).value)) else s0;
    if StartsWith(w, CMD_PASS) then s1.(passget := s1.passget + 1, pass := CStr(Field(w).value)) else s1
  }

  /** The checks on an inbound frame, before the counter is settled: 331 at 1, then 530 or 230 at 3,
      each of the latter writing the record of the finished login. */
  function Replies(st: LoginState, w: seq<byte>): (r: (LoginState, Option<seq<byte>>))
    requires LoginOk(st)
    ensures r.0.user == st.user && r.0.pass == st.pass && r.0.dead == st.dead
    ensures r.0.passget == st.passget + (if StartsWith(w, REPLY_331) && st.passget == 1 then 1 else 0)
                                      + (if r.1.Some? then 1 else 0)
    ensures r.1.Some? <==> st.passget == 3 && (StartsWith(w, REPLY_530) || StartsWith(w, REPLY_230))
    ensures r.1.Some? ==> (r.0.sta == 1 <==> StartsWith(w, REPLY_230))
                          && r.1.value == Buffer(Record(st.dead, st.user, st.pass, r.0.sta))
    ensures r.1.None? ==> r.0.sta == st.sta
  {
    CommandsDiffer(w);
    var s1 := if StartsWith(w, REPLY_331) && st.passget == 1 then st.(passget := st.passget + 1) else st;
    if StartsWith(w, REPLY_530) && s1.passget == 3 then
      var s2 := s1.(passget := s1.passget + 1, sta := 0);
      RecordFits(s2);
      (s2, Some(Buffer(Record(s2.dead, s2.user, s2.pass, s2.sta))))
    else if StartsWith(w, REPLY_230) && s1.passget == 3 then
      var s2 := s1.(passget := s1.passget + 1, sta := 1);
      RecordFits(s2);
      (s2, Some(Buffer(Record(s2.dead, s2.user, s2.pass, s2.sta))))
    else (s1, None)
  }

  /** The record of a well-formed state fits `Buff` with room for its NUL. */
  lemma RecordFits(st: LoginState)
    requires |st.user| < SLOT_LEN && |st.pass| < SLOT_LEN && |st.dead| <= 15
    ensures |Record(st.dead, st.user, st.pass, st.sta)| < RECORD_BUF_LEN
  {
  }

  /** One frame as the correlator sees it. */
  datatype Event = Event(dir: Direction, daddr: IPv4, w: seq<byte>)

  predicate EventOk(e: Event)
  {
    e.dir == Outbound ==> Scannable(e.w)
  }

  /** A sequence of frames, oldest first: the final state and the buffers written, in order. */
  function LoginRun(st: LoginState, events: seq<Event>): (r: (LoginState, seq<seq<byte>>))
    requires LoginOk(st)
    requires forall i :: 0 <= i < |events| ==> EventOk(events[i])
    ensures LoginOk(r.0)
    decreases |events|
  {
    if events == [] then (st, [])
    else
      var prev := LoginRun(st, events[..|events| - 1]);
      var e := events[|events| - 1];
      assert EventOk(e);
      var step := LoginStep(prev.0, e.dir, e.daddr, e.w);
      (step.0, prev.1 + Emitted(step.1))
  }

  /** A window holding command `cmd` whose extracted argument is `arg`. */
  predicate CommandLine(w: seq<byte>, cmd: seq<byte>, arg: seq<byte>)
  {
    StartsWith(w, cmd) && Field(w) == Some(arg) && |arg| < SLOT_LEN
  }

  lemma CommandsDiffer(w: seq<byte>)
    ensures !(StartsWith(w, CMD_USER) && StartsWith(w, CMD_PASS))
    ensures StartsWith(w, REPLY_331) ==> !StartsWith(w, REPLY_530) && !StartsWith(w, REPLY_230)
                                         && !StartsWith(w, CMD_USER) && !StartsWith(w, CMD_PASS)
    ensures !(StartsWith(w, REPLY_530) && StartsWith(w, REPLY_230))
    ensures StartsWith(w, CMD_USER) || StartsWith(w, CMD_PASS) ==> !StartsWith(w, REPLY_530) && !StartsWith(w, REPLY_230)
  {
    if StartsWith(w, CMD_USER) { assert w[0] == CMD_USER[0]; }
    if StartsWith(w, REPLY_331) { assert w[0] == REPLY_331[0]; }
    if StartsWith(w, REPLY_530) { assert w[0] == REPLY_530[0]; }
  }

  /** Appending one frame to a run applies one correlator step to the run's final state and appends
      that step's record, if any, to the records written. */
  lemma RunSnoc(st: LoginState, events: seq<Event>, e: Event)
    requires LoginOk(st) && EventOk(e)
    requires forall i :: 0 <= i < |events| ==> EventOk(events[i])
    ensures forall i :: 0 <= i < |events + [e]| ==> EventOk((events + [e])[i])
    ensures var prev := LoginRun(st, events);
            var step := LoginStep(prev.0, e.dir, e.daddr, e.w);
            LoginRun(st, events + [e]) == (step.0, prev.1 + Emitted(step.1))
  {
    assert (events + [e])[..|events|] == events;
  }

  /** An outbound `USER` line: the counter advances, the name is stored and the destination becomes
      the server recorded for the login. */
  lemma UserStep(st: LoginState, server: IPv4, w: seq<byte>, u: seq<byte>)
    requires LoginOk(st) && CommandLine(w, CMD_USER, u)
    ensures LoginStep(st, Outbound, server, w)
            == (Settle(st.(passget := st.passget + 1, user := CStr(u), dead := Dotted(server))), None)
  {
    CommandsDiffer(w);
  }

  /** An outbound `PASS` line: the counter advances, the password is stored and the destination
      becomes the server recorded for the login. */
  lemma PassStep(st: LoginState, server: IPv4, w: seq<byte>, p: seq<byte>)
    requires LoginOk(st) && CommandLine(w, CMD_PASS, p)
    ensures LoginStep(st, Outbound, server, w)
            == (Settle(st.(passget := st.passget + 1, pass := CStr(p), dead := Dotted(server))), None)
  {
    CommandsDiffer(w);
  }

  /** An inbound reply at 3: 230 marks the login OK and 530 marks it FAILED; either writes the record
      of the server, name and password and returns the counter to 0. */
  lemma FinishStep(st: LoginState, w: seq<byte>)
    requires LoginOk(st) && st.passget == 3 && (StartsWith(w, REPLY_230) || StartsWith(w, REPLY_530))
    ensures var sta := if StartsWith(w, REPLY_230) then 1 else 0;
            LoginStep(st, Inbound, WATCHED, w)
            == (st.(passget := 0, sta := sta), Some(Buffer(Record(st.dead, st.user, st.pass, sta))))
  {
    CommandsDiffer(w);
  }

  /** An inbound 331 while the counter is at 1 moves it to 2; nothing else changes and nothing is
      written. */
  lemma NameAccepted(st: LoginState, a: IPv4, w: seq<byte>)
    requires LoginOk(st) && st.passget == 1 && StartsWith(w, REPLY_331)
    ensures LoginStep(st, Inbound, a, w) == (st.(passget := 2), None)
  {
    CommandsDiffer(w);
  }

  /** An inbound frame the counter is not waiting for changes nothing and writes nothing: anything
      but 331 at 1, anything but 230 or 530 at 3, and any frame at 0 or 2. */
  lemma ReplyIgnored(st: LoginState, a: IPv4, w: seq<byte>)
    requires LoginOk(st)
    requires !(st.passget == 1 && StartsWith(w, REPLY_331))
    requires !(st.passget == 3 && (StartsWith(w, REPLY_230) || StartsWith(w, REPLY_530)))
    ensures LoginStep(st, Inbound, a, w) == (st, None)
  {
  }

  /** An outbound frame that is neither a `USER` nor a `PASS` line only records its destination. */
  lemma OtherCommand(st: LoginState, a: IPv4, w: seq<byte>)
    requires LoginOk(st) && !StartsWith(w, CMD_USER) && !StartsWith(w, CMD_PASS)
    ensures LoginStep(st, Outbound, a, w) == (st.(dead := Dotted(a)), None)
  {
  }

  /** USER to `server`, then 331, then PASS from any state between logins (the counter at 0, whatever
      an earlier login left in the strings and `sta`): nothing is written and the login waits at 3
      holding the server, the name and the password. */
  lemma OpenLogin(st: LoginState, server: IPv4, w1: seq<byte>, w2: seq<byte>, w3: seq<byte>,
                  u: seq<byte>, p: seq<byte>)
    requires LoginOk(st) && st.passget == 0
    requires CommandLine(w1, CMD_USER, u) && StartsWith(w2, REPLY_331) && CommandLine(w3, CMD_PASS, p)
    ensures var r1 := LoginStep(st, Outbound, server, w1);
            var r2 := LoginStep(r1.0, Inbound, WATCHED, w2);
            var r3 := LoginStep(r2.0, Outbound, server, w3);
            && r1.1 == None && r2.1 == None && r3.1 == None
            && r3.0 == LoginState(3, CStr(u), CStr(p), Dotted(server), st.sta)
  {
    UserStep(st, server, w1, u);
    var s1 := st.(passget := 1, user := CStr(u), dead := Dotted(server));
    NameAccepted(s1, WATCHED, w2);
    PassStep(s1.(passget := 2), server, w3, p);
  }

  /** USER, 331, PASS, then 230 from any state between logins: the fourth frame writes the one record
      of the login, marked OK and naming the server, the name and the password, and the counter is
      back at 0, ready for the next login. A name and password without NUL appear in the record as
      they were sent. */
  lemma LoginSucceeds(st: LoginState, server: IPv4, w1: seq<byte>, w2: seq<byte>, w3: seq<byte>,
                      w4: seq<byte>, u: seq<byte>, p: seq<byte>)
    requires LoginOk(st) && st.passget == 0
    requires CommandLine(w1, CMD_USER, u) && StartsWith(w2, REPLY_331)
    requires CommandLine(w3, CMD_PASS, p) && StartsWith(w4, REPLY_230)
    ensures var r1 := LoginStep(st, Outbound, server, w1);
            var r2 := LoginStep(r1.0, Inbound, WATCHED, w2);
            var r3 := LoginStep(r2.0, Outbound, server, w3);
            var r4 := LoginStep(r3.0, Inbound, WATCHED, w4);
            && r1.1 == None && r2.1 == None && r3.1 == None
            && r4 == (LoginState(0, CStr(u), CStr(p), Dotted(server), 1),
                      Some(Buffer(Record(Dotted(server), CStr(u), CStr(p), 1))))
            && (0 !in u && 0 !in p ==> r4.1 == Some(Buffer(Record(Dotted(server), u, p, 1))))
  {
    OpenLogin(st, server, w1, w2, w3, u, p);
    FinishStep(LoginState(3, CStr(u), CStr(p), Dotted(server), st.sta), w4);
    if 0 !in u && 0 !in p {
      CStrOfNulFree(u);
      CStrOfNulFree(p);
    }
  }

  /** USER, 331, PASS, then 530 from any state between logins: the fourth frame writes the one record of
      the login, marked FAILED, and the counter is back at 0. */
  lemma LoginFails(st: LoginState, server: IPv4, w1: seq<byte>, w2: seq<byte>, w3: seq<byte>,
                   w4: seq<byte>, u: seq<byte>, p: seq<byte>)
    requires LoginOk(st) && st.passget == 0
    requires CommandLine(w1, CMD_USER, u) && StartsWith(w2, REPLY_331)
    requires CommandLine(w3, CMD_PASS, p) && StartsWith(w4, REPLY_530)
    ensures var r1 := LoginStep(st, Outbound, server, w1);
            var r2 := LoginStep(r1.0, Inbound, WATCHED, w2);
            var r3 := LoginStep(r2.0, Outbound, server, w3);
            var r4 := LoginStep(r3.0, Inbound, WATCHED, w4);
            && r1.1 == None && r2.1 == None && r3.1 == None
            && r4 == (LoginState(0, CStr(u), CStr(p), Dotted(server), 0),
                      Some(Buffer(Record(Dotted(server), CStr(u), CStr(p), 0))))
            && (0 !in u && 0 !in p ==> r4.1 == Some(Buffer(Record(Dotted(server), u, p, 0))))
  {
    OpenLogin(st, server, w1, w2, w3, u, p);
    CommandsDiffer(w4);
    FinishStep(LoginState(3, CStr(u), CStr(p), Dotted(server), st.sta), w4);
    if 0 !in u && 0 !in p {
      CStrOfNulFree(u);
      CStrOfNulFree(p);
    }
  }

  /** USER, PASS, then 230 without a 331 in between, from any state between logins: the counter stops
      at 2 and nothing is written. */
  lemma NoRecordWithout331(st: LoginState, server: IPv4, w1: seq<byte>, w2: seq<byte>, w3: seq<byte>,
                           u: seq<byte>, p: seq<byte>)
    requires LoginOk(st) && st.passget == 0
    requires CommandLine(w1, CMD_USER, u) && CommandLine(w2, CMD_PASS, p) && StartsWith(w3, REPLY_230)
    ensures var r1 := LoginStep(st, Outbound, server, w1);
            var r2 := LoginStep(r1.0, Outbound, server, w2);
            var r3 := LoginStep(r2.0, Inbound, WATCHED, w3);
            && r1.1 == None && r2.1 == None && r3.1 == None
            && r3.0 == LoginState(2, CStr(u), CStr(p), Dotted(server), st.sta)
  {
    UserStep(st, server, w1, u);
    var s1 := st.(passget := 1, user := CStr(u), dead := Dotted(server));
    PassStep(s1, server, w2, p);
    CommandsDiffer(w3);
  }
}

# UDPdump packet handler

A model of the capture callback `packet_handler` of UDPdump/udpdump.c and of its helper `stop`.
For every captured Ethernet II frame the callback does four things:

- It decodes the IPv4 total length, source and destination address and the two transport ports.
- It credits the frame's IPv4 total length to a peer in one of two 100-slot flow tables. The
  tables belong to the watched host 192.168.1.108: `srcadd`/`srcc` holds peers that send to it and
  `dstadd`/`dstc` holds peers it sends to.
- It adds up the traffic of a second host, 192.168.1.109, and reports both totals when the minute
  of the timestamp changes.
- It looks at a fixed 100-byte payload window for an FTP login: `USER`/`PASS` commands
  (RFC 959 section 4.1.1) and the replies 331, 230 and 530 (RFC 959 section 4.2). A finished login
  is appended to the record file as `FTP:,<server>,USER:<name>,PAS:<password>,STA:<OK|FAILED>\n`,
  padded with NULs to 110 bytes.

Modules:

- `Common`: bytes, 16-bit words, `ntohs`, C strings.
- `Decoder`: header decoding, routing, the payload window.
- `FlowTable`: the probe loop over the flow tables.
- `MinuteReport`: the per-minute counters.
- `EventSink`: dotted-decimal text and the record.
- `Login`: the argument scans and the `passget` state machine.
- `Handler`: class `Monitor`. Its fields are the callback's static variables and `HandleFrame` is
  one call of the callback.
- `StopClock`: `stop`.

Each imperative part of the source is a method over arrays or fields. Each such method is proved
equal to a pure function (`Claim`, `WindowOf`, `Stored`, `MinuteStep`, `Commands`, `Replies`,
`LoginStep`, `StopStep`), and the properties are proved as lemmas about those functions.

The timestamp's minute (and second, for `stop`) is a parameter. The console reports and the
record-file writes become the output sequences `Monitor.reports` and `Monitor.records`.

Where the code and its informal description differ, the model follows the code:

- `seclast` starts at 0, so the very first frame already reports unless its minute is 0.
- A report includes the bytes of the frame that starts the new minute.
- The argument scan stops at the first byte that is CR or is followed by LF. So a line ended by a
  bare LF loses its last character, and CR LF is not required as a pair.
- A frame whose peer address is 0.0.0.0 credits the first empty slot without taking it. The next
  new peer to take that slot inherits those bytes.
- `USER` and `PASS` are recognised by their first four bytes alone; no space has to follow.
- The replies 230 and 530 are taken from any frame sent to the watched host, whatever its sender.
- USER, PASS and then 230 with no 331 in between write no record: the counter stops at 2.
- The server in a record is the destination of the latest outbound frame, which need not be the
  server the login went to.
- `stop` seeded in minute 59 never answers 1, because minutes do not wrap.

## Model

| member | source | states |
|---|---|---|
| Common.CStr | UDPdump/udpdump.c:386-387 | the C string of a buffer is its longest NUL-free prefix, followed by a NUL when shorter than the buffer |
| Common.CStrTerminated | UDPdump/udpdump.c:386 | a NUL-free string followed by a NUL reads back as itself whatever follows |
| Common.CStrOfNulFree | UDPdump/udpdump.c:386-387 | a string without NUL is its own C string |
| Common.NtohsHtons | UDPdump/udpdump.c:260-261 | reading back the two big-endian bytes of a 16-bit word gives that word |
| Common.HtonsNtohs | UDPdump/udpdump.c:260-261 | writing a big-endian word read from two bytes gives those two bytes back |
| Common.Ntohs | UDPdump/udpdump.c:260-261 | the first byte on the wire is the high half of the value and the second the low half |
| Decoder.IpHeaderLength | UDPdump/udpdump.c:256 | the IPv4 header length is four times the IHL nibble: a multiple of 4, at most 60 |
| Decoder.Decode | UDPdump/udpdump.c:252-261 | a frame decodes exactly when it holds the first 34 bytes and the transport ports; tlen is bytes 16-17 big-endian, saddr bytes 26-29, daddr bytes 30-33, the ports the big-endian words at 14 + 4 * IHL and 2 bytes later |
| Decoder.DecodeBuildFrame | UDPdump/udpdump.c:60-75 | decoding a frame built from any header tuple gives back that tuple |
| Decoder.Route | UDPdump/udpdump.c:278-318 | a frame is inbound (`req` 0) exactly when it goes to the watched host, and outbound (`req` 1) exactly when it comes from it and does not go to it; otherwise it is unwatched (`req` -1) |
| Decoder.WindowOf | UDPdump/udpdump.c:367-373 | the window has 100 bytes; byte k is frame byte 54 + k where the frame has one, else 0, whatever the IHL |
| Decoder.WindowOfBuildFrame | UDPdump/udpdump.c:367-373 | the window of a frame carrying a payload of at most 100 bytes is that payload padded with zeros |
| Decoder.Window | UDPdump/udpdump.c:367-373 | the copy loop leaves exactly the window of the frame in `cop` |
| FlowTable.SlotFrom | UDPdump/udpdump.c:282-295 | the probe from slot i stops at the first slot that is empty or holds the peer, and at none when every later slot holds another address |
| FlowTable.Slot | UDPdump/udpdump.c:282-295 | the probe over a whole table stops at the first slot that is empty or holds the peer; it finds none exactly when every slot holds another address |
| FlowTable.Claim | UDPdump/udpdump.c:282-295 | crediting keeps both arrays at their length |
| FlowTable.SlotOfRecorded | UDPdump/udpdump.c:292-295 | in a well-formed table the probe for a recorded address stops at its own slot |
| FlowTable.ClaimRecorded | UDPdump/udpdump.c:292-295 | a recorded peer's counter grows by the length; no address and no other counter changes |
| FlowTable.ClaimNew | UDPdump/udpdump.c:283-290 | a new peer takes the first empty slot, whose counter grows by the length; nothing else changes |
| FlowTable.ClaimFull | UDPdump/udpdump.c:282-295 | a new peer and a full table: nothing changes, the frame's bytes are dropped |
| FlowTable.ClaimKeepsTable | UDPdump/udpdump.c:282-295 | crediting keeps the used slots a prefix of distinct addresses |
| FlowTable.ClaimAll | UDPdump/udpdump.c:282-295 | crediting a sequence of frames keeps both arrays at their length |
| FlowTable.ClaimAllRecorded | UDPdump/udpdump.c:282-295 | a recorded peer keeps its slot over any sequence of frames, and its count grows by exactly the lengths credited to it |
| FlowTable.Account | UDPdump/udpdump.c:282-315 | the probe loop leaves both arrays equal to the crediting function applied to their old contents |
| FlowTable.ClaimAny | UDPdump/udpdump.c:282-290 | a frame whose peer is 0.0.0.0 leaves every address as it is and adds its length to the counter of the first empty slot |
| FlowTable.AnyBytesInherited | UDPdump/udpdump.c:282-290 | bytes credited to 0.0.0.0 are counted for the next new peer, which takes that same slot |
| FlowTable.ClaimCounts | UDPdump/udpdump.c:282-295 | one credit keeps the table well formed with empty slots at zero; a recorded peer stays recorded and gains the length exactly when credited; a peer enters only when credited, with exactly the length, into a table that had room |
| FlowTable.ClaimAllTotals | UDPdump/udpdump.c:282-295 | from the zero-initialised shape and over any sequence of credits to real peers, every peer holding a slot at the end, including one first seen during the run, counts its starting bytes plus exactly the lengths credited to it; a peer still without a slot while there is room was never credited |
| MinuteReport.MinuteStep | UDPdump/udpdump.c:321-338 | a frame reports exactly when its minute differs from `seclast`; afterwards `seclast` is the frame's minute, and after a report both totals are 0 |
| MinuteReport.Received | UDPdump/udpdump.c:321-322 | a frame to the second host adds its IPv4 total length to `countrec`, any other frame adds nothing |
| MinuteReport.Sent | UDPdump/udpdump.c:323-324 | a frame from the second host adds its IPv4 total length to `countsend`, any other frame adds nothing |
| MinuteReport.QuietMinute | UDPdump/udpdump.c:321-329 | frames within the last reported minute report nothing and add exactly their lengths to the totals |
| MinuteReport.MinuteRun | UDPdump/udpdump.c:321-338 | a sequence of frames makes at most one report per frame, and leaves `seclast` at the minute of the last frame |
| MinuteReport.Rollover | UDPdump/udpdump.c:321-338 | the first frame of a new minute makes one report holding everything counted since the last one plus its own bytes, and resets both totals |
| MinuteReport.FirstFrame | UDPdump/udpdump.c:212-214 | with the initial counters the first frame reports exactly when its minute is not 0, and then reports only its own bytes |
| EventSink.Decimal | UDPdump/udpdump.c:377 | `%d` of a byte is one to three digits with no leading zero |
| EventSink.DecimalRoundTrip | UDPdump/udpdump.c:377 | reading the digits of `%d` back gives the byte |
| EventSink.Dotted | UDPdump/udpdump.c:377 | the dotted-decimal text has 7 to 15 characters, with no comma and no NUL |
| EventSink.DecimalInjective | UDPdump/udpdump.c:377 | distinct bytes print differently |
| EventSink.DottedInjective | UDPdump/udpdump.c:377 | distinct addresses print differently |
| EventSink.Record | UDPdump/udpdump.c:411-412 | the record's length is the three strings plus 24 with OK or 28 with FAILED |
| EventSink.StatusText | UDPdump/udpdump.c:411-412 | the status is OK exactly when `sta` is 1, and FAILED otherwise |
| EventSink.RecordHasNoNul | UDPdump/udpdump.c:411-412 | a record built from NUL-free strings holds no NUL |
| EventSink.RecordStatus | UDPdump/udpdump.c:411-412 | the record starts with `FTP:,` followed by the host, and ends in `OK\n` exactly when `sta` is 1, else in `FAILED\n` |
| EventSink.RecordNamesHost | UDPdump/udpdump.c:421-422 | two equal records name the same server |
| EventSink.HostThenComma | UDPdump/udpdump.c:411-412 | after `FTP:,` the record holds the host and then a comma |
| EventSink.Buffer | UDPdump/udpdump.c:344 | the buffer written is always 110 bytes |
| EventSink.BufferHoldsRecord | UDPdump/udpdump.c:411-413 | the written buffer read as a C string is exactly the record |
| Login.SpaceFrom | UDPdump/udpdump.c:381 | the first space at or after a position, and none when there is none in the window |
| Login.FieldEndFrom | UDPdump/udpdump.c:383 | the scan stops at the first position that holds CR or is followed by LF |
| Login.FieldOfLine | UDPdump/udpdump.c:378-386 | for `<cmd> <arg>` CR the extracted argument is exactly `<arg>` |
| Login.Field | UDPdump/udpdump.c:380-386 | an extracted argument is shorter than the window and holds no CR, and no LF after its first byte; there is none exactly when a scan finds no space or no stopping point |
| Login.FieldBeforeBareLineFeed | UDPdump/udpdump.c:383 | for `<cmd> <arg>` LF the extracted argument lacks the last byte of `<arg>` |
| Login.Stored | UDPdump/udpdump.c:384-386 | writing a field into a slot keeps the slot's length |
| Login.StoredHoldsField | UDPdump/udpdump.c:384-386 | after the copy and its NUL the slot holds the field as a C string |
| Login.FindSpace | UDPdump/udpdump.c:380-381 | the first scan loop stops at the first space of the window |
| Login.CopyField | UDPdump/udpdump.c:383-385 | the copy loop stops where the argument scan stops, has copied the bytes before that point into the slot and left the rest of the slot alone |
| Login.ScanField | UDPdump/udpdump.c:380-386 | the two scan loops leave the slot holding the argument, its NUL and the old bytes after them |
| Login.LoginStep | UDPdump/udpdump.c:374-429 | the counter stays below 4; a record is written exactly on an inbound 530 or 230 at 3, with `sta` 1 exactly for 230, and it is the 110-byte buffer of the login's server, name and password; outbound frames set the server and keep `sta`, other frames keep the name, password and server; inbound frames at 0 or 2 and unwatched frames change nothing |
| Login.RecordFits | UDPdump/udpdump.c:411-412 | the record of a well-formed login fits the 110-byte buffer with its NUL |
| Login.Settle | UDPdump/udpdump.c:427-429 | after a frame the counter is never 4: a counter of 4 becomes 0, any other counter is kept, and nothing else changes |
| Login.Commands | UDPdump/udpdump.c:376-399 | an outbound frame records its destination and keeps `sta`; a `USER` line advances the counter by one and stores the name, a `PASS` line advances it by one and stores the password, any other line changes neither |
| Login.Replies | UDPdump/udpdump.c:401-425 | an inbound frame keeps the strings; 331 at 1 advances the counter; a record is written exactly for 530 or 230 at 3, which advance the counter and set `sta` to 1 exactly for 230; otherwise `sta` is kept |
| Login.LoginRun | UDPdump/udpdump.c:374-429 | over any sequence of frames the counter stays below 4 and the strings fit their buffers |
| Login.CommandsDiffer | UDPdump/udpdump.c:378-415 | no window starts with two of `USER`, `PASS`, 331, 530 and 230 at once |
| Login.RunSnoc | UDPdump/udpdump.c:374-429 | a run extended by one frame is one more correlator step, and appends that step's record, if any, to the records |
| Login.UserStep | UDPdump/udpdump.c:376-388 | an outbound USER line advances the counter, stores the name and records the server, and writes nothing |
| Login.PassStep | UDPdump/udpdump.c:389-399 | an outbound PASS line advances the counter, stores the password and records the server, and writes nothing |
| Login.FinishStep | UDPdump/udpdump.c:405-424 | an inbound 230 or 530 at 3 returns the counter to 0, sets `sta` to 1 for 230 and 0 for 530, and writes the buffer of the server, name, password and status |
| Login.NameAccepted | UDPdump/udpdump.c:402-404 | an inbound 331 at 1 moves the counter to 2, changes nothing else and writes nothing |
| Login.ReplyIgnored | UDPdump/udpdump.c:401-429 | any other inbound frame than 331 at 1 or 230 or 530 at 3 changes nothing and writes nothing |
| Login.OtherCommand | UDPdump/udpdump.c:376-399 | an outbound frame that is not a `USER` or `PASS` line only records its destination |
| Login.OpenLogin | UDPdump/udpdump.c:374-404 | USER, 331, PASS from any state between logins write nothing and leave the login at 3 with the server, name and password, keeping the earlier `sta` |
| Login.LoginSucceeds | UDPdump/udpdump.c:374-429 | USER, 331, PASS, 230 from any state between logins, a first or a later one: only the fourth frame writes, one record marked OK with the server, name and password, which appear as sent when they hold no NUL, and the counter is back at 0 |
| Login.LoginFails | UDPdump/udpdump.c:374-429 | USER, 331, PASS, 530 from any state between logins: only the fourth frame writes, one record marked FAILED with the server, name and password, and the counter is back at 0 |
| Login.NoRecordWithout331 | UDPdump/udpdump.c:402-415 | USER, PASS, 230 without 331 from any state between logins write nothing and leave the counter at 2 |
| Handler.Monitor.constructor | UDPdump/udpdump.c:212-375 | the zero-initialised statics: all tables empty, counters 0, `seclast` 0, empty `user`, `pass` and `dead` slots, `sta` 0 and `passget` 0, nothing written |
| Handler.Monitor.HandleFrame | UDPdump/udpdump.c:203-448 | one frame credits only the table of its direction, keyed by the peer, steps the minute counters and the login correlator, appends their report and record, and keeps the tables and login well formed |
| Handler.Monitor.Credit | UDPdump/udpdump.c:278-318 | an inbound frame changes only the inbound table, an outbound frame only the outbound one, any other frame neither |
| Handler.Monitor.CountMinute | UDPdump/udpdump.c:321-338 | the counters step as the per-minute function says and its report is appended; the login state is untouched |
| Handler.Monitor.Correlate | UDPdump/udpdump.c:374-429 | the correlator's checks and the reset at 4 leave the login state and the record file as one step of the correlator function says, and keep the login well formed |
| Handler.Monitor.Command | UDPdump/udpdump.c:376-399 | the outbound checks leave the login state the command function describes |
| Handler.Monitor.CheckDirection | UDPdump/udpdump.c:376-425 | the outbound or inbound checks leave the login state and the record file as the checks of that direction say |
| Handler.Monitor.Reply | UDPdump/udpdump.c:401-425 | the inbound checks leave the login state and the record file as the reply function describes |
| StopClock.StopStep | UDPdump/udpdump.c:449-461 | the first call stores its timestamp and later calls keep the stored one; the answer is 1 exactly for the stored second one minute after the stored minute, else 0 |
| StopClock.StopRun | UDPdump/udpdump.c:449-461 | a sequence of calls gives one answer per call |
| StopClock.SeedingCallAnswersZero | UDPdump/udpdump.c:452-460 | the call that stores the timestamp answers 0 |
| StopClock.SeededForGood | UDPdump/udpdump.c:449-461 | after a first call at (s, m) the statics stay (s, m), and every later call answers 1 exactly at second s of minute m + 1 |
| StopClock.NeverAfterMinute59 | UDPdump/udpdump.c:456 | seeded in minute 59, no minute from 0 to 59 makes it answer 1 |
| StopClock.Clock.constructor | UDPdump/udpdump.c:450-451 | both statics start at -1, the not-yet-seeded value |
| StopClock.Clock.Stop | UDPdump/udpdump.c:449-461 | the statics and the answer are those of one step of the function |

## Left out

- `main` is not part of this model: device listing, opening the adapter, the filter and the
  capture loop are library calls and interactive input. The Ethernet-only check there appears as
  the decoder's fixed 14-byte link header.
- The clock is not modelled. `localtime`, `strftime` and the timestamp strings are library calls,
  so the minute (and the second, for `stop`) is a parameter.
- The console output and the record file are not modelled as I/O. The two rate `printf`s become
  the sequence `reports`, and the `fwrite`s of the record become the sequence `records`. Opening and
  closing the file are not modelled, so neither is a failed open.
- The other console echoes are dropped, because they change no state and no file: the echo of the
  scanned name and password, the print of `sta`, and the tab-separated coloured login line printed
  before each record, whose format differs from the record's.
- The KB-per-second figures are computed in floating point; a report holds the integer byte totals
  they are computed from.
- Values that are computed but never used are left out: `length`, `count`, `f`, the MAC, IP and
  time strings, the print of the empty buffer and the commented-out call of `stop`.
- Handler.Monitor.HandleFrame: requires a frame that decodes, at most 154 captured bytes, and, on
  an outbound `USER`/`PASS` line, a space, a terminator inside the window and an argument of fewer
  than 20 bytes. Otherwise the source reads or writes outside its buffers, and the model does not
  invent behaviour for that.
- Handler.Monitor.CountMinute: the counters are unbounded integers. A C `int` overflow is undefined
  behaviour, so 32-bit wrap-around is not modelled; the same holds for `srcc`/`dstc` in
  FlowTable.Account.
- Only slot 0 of `user`, `pass`, `dead` and `sta` is modelled, because `countuser` never changes.
  `dead[0]` is kept as the string it holds.
- Decoded ports are not used by the handler beyond decoding, so they appear only in
  `Decoder.Decode`.

// The report list of one filling station (src/report/cache.rs): what a poll, an
// acknowledgement and a configuration update do to it, and what holds over whole runs.
module Reports {
  import opened Prelude
  import opened BigEndian
  import opened Calendar

  datatype FillStation = FillStation(
    id: string, ip: string, port: nat, reportDb: int, statusDb: int,
    reportCount: nat, reportDbSize: nat, taskOffset: nat, startTimeOffset: nat, endTimeOffset: nat,
    statusDbSize: nat)

  datatype PlcReport = PlcReport(
    reportId: int, fillStation: string, taskId: int, startTime: int, endTime: int,
    ip: string, port: nat, dbIndex: int, hexContent: string, sent: bool)

  // ----- one poll -----

  function TaskIdOf(st: FillStation, data: seq<Byte>): int {
    if |data| >= st.taskOffset + 8 then ReadSigned(data[st.taskOffset..st.taskOffset + 8]) else 0
  }

  /** handle_new_report_read: the report to append, if any. Without a previous report the
      answer is always None, as the code has it. */
  function HandleNewReportRead(st: FillStation, last: Option<PlcReport>, data: seq<Byte>, now: int): Option<PlcReport> {
    var taskId := TaskIdOf(st, data);
    var start := ExtractS7DateTime(data, st.startTimeOffset);
    if start.None? || start.value < MILLIS_AT_2000 then None
    else
      var report := PlcReport(
        now, st.id, taskId, start.value, ExtractS7DateTime(data, st.endTimeOffset).GetOr(0),
        st.ip, st.port, st.reportDb, Hex(data), false);
      if last.None? then None
      else if report.hexContent == last.value.hexContent then None
      else if taskId > 0 then (if last.value.taskId == taskId then None else Some(report))
      else if report.startTime == last.value.startTime && report.endTime == last.value.endTime then None
      else Some(report)
  }

  function Back(list: seq<PlcReport>): Option<PlcReport> {
    if list == [] then None else Some(Last(list))
  }

  function Unsent(list: seq<PlcReport>): (kept: seq<PlcReport>)
    ensures |kept| <= |list|
  {
    if list == [] then []
    else if Last(list).sent then Unsent(Front(list))
    else Unsent(Front(list)) + [Last(list)]
  }

  function RefreshBack(list: seq<PlcReport>, hex: string): seq<PlcReport> {
    if list == [] || Last(list).sent then list
    else Front(list) + [Last(list).(hexContent := hex)]
  }

  function PollList(st: FillStation, list: seq<PlcReport>, data: seq<Byte>, now: int): seq<PlcReport> {
    match HandleNewReportRead(st, Back(list), data, now)
    case Some(report) =>
      var rest := if |list| >= st.reportCount && list != [] then list[1..] else list;
      Unsent(rest) + [report]
    case None => RefreshBack(list, Hex(data))
  }

  function Acknowledged(list: seq<PlcReport>, reportId: int): (after: seq<PlcReport>)
    ensures |after| == |list|
  {
    seq(|list|, i requires 0 <= i < |list| =>
      if list[i].reportId == reportId then list[i].(sent := true) else list[i])
  }

  // ----- runs of one station -----

  /** The atomic steps between which the cache's lock is free: a poll's commit with what its
      read returned, an acknowledgement, a configuration update. */
  datatype Event =
    | Poll(station: FillStation, read: Option<seq<Byte>>, now: int)
    | Ack(reportId: int)
    | Config(stations: seq<FillStation>)

  /** None stands for a station without an entry. A poll brings an entry back. */
  function StationStep(st: FillStation, list: Option<seq<PlcReport>>, e: Event): Option<seq<PlcReport>> {
    match e
    case Poll(station, read, now) =>
      if station != st || st.reportDb <= 0 || read.None? then list
      else Some(PollList(st, list.GetOr([]), read.value, now))
    case Ack(reportId) =>
      if list.None? then None else Some(Acknowledged(list.value, reportId))
    case Config(stations) =>
      if st !in stations then None else Some(list.GetOr([]))
  }

  function StationRun(st: FillStation, list: Option<seq<PlcReport>>, es: seq<Event>): Option<seq<PlcReport>> {
    if es == [] then list else StationStep(st, StationRun(st, list, Front(es)), Last(es))
  }

  /** When a poll appends, in terms of the bytes read: the start stamp is there with a month
      and a day the code accepts, and a previous report exists that differs in content and in
      task or times. The source's rejection of stamps before 2000 has no part in it, because
      no stamp is that early. */
  lemma AppendsExactlyWhen(st: FillStation, last: Option<PlcReport>, data: seq<Byte>, now: int)
    ensures HandleNewReportRead(st, last, data, now).Some? <==>
            && last.Some? && last.value.hexContent != Hex(data)
            && st.startTimeOffset + 8 <= |data|
            && 1 <= BcdToU8(data[st.startTimeOffset + 1]) <= 12
            && 1 <= BcdToU8(data[st.startTimeOffset + 2]) <= 31
            && (if TaskIdOf(st, data) > 0 then last.value.taskId != TaskIdOf(st, data)
                else (ExtractS7DateTime(data, st.startTimeOffset) != Some(last.value.startTime)
                      || ExtractS7DateTime(data, st.endTimeOffset).GetOr(0) != last.value.endTime))
  {
    ExtractsExactlyWhen(data, st.startTimeOffset);
    if ExtractS7DateTime(data, st.startTimeOffset).Some? {
      StampsStayInRange(data, st.startTimeOffset);
    }
    hide ExtractS7DateTime, Hex, TaskIdOf, BcdToU8;
  }

  /** The report carries its station's id and address and its data block's number. */
  predicate NamesItsStation(r: PlcReport, st: FillStation) {
    r.fillStation == st.id && r.ip == st.ip && r.port == st.port && r.dbIndex == st.reportDb
  }

  /** An appended report is a faithful record of the read: it names the station, its text
      decodes to the bytes, its task id is the eight bytes at the configured offset, its times
      are the two stamps, with 0 standing for an unreadable end. */
  lemma AppendedReportDescribesTheRead(st: FillStation, last: Option<PlcReport>, data: seq<Byte>, now: int)
    ensures var r := HandleNewReportRead(st, last, data, now);
            r.Some? ==>
              && Unhex(r.value.hexContent) == Some(data) && r.value.reportId == now && !r.value.sent
              && (if |data| >= st.taskOffset + 8
                  then Write(8, r.value.taskId) == data[st.taskOffset..st.taskOffset + 8]
                  else r.value.taskId == 0)
              && ExtractS7DateTime(data, st.startTimeOffset) == Some(r.value.startTime)
              && (if r.value.endTime == 0 then ExtractS7DateTime(data, st.endTimeOffset) == None
                  else ExtractS7DateTime(data, st.endTimeOffset) == Some(r.value.endTime))
              && last.Some? && last.value.hexContent != r.value.hexContent
              && NamesItsStation(r.value, st)
  {
    hide StampMillis, Hex, Unhex, Write, ReadSigned;
    UnhexHex(data);
    if ExtractS7DateTime(data, st.endTimeOffset).Some? {
      StampsStayInRange(data, st.endTimeOffset);
    }
    if |data| >= st.taskOffset + 8 {
      WriteReadSigned(data[st.taskOffset..st.taskOffset + 8]);
    }
  }

  /** Finding: the first report of a station is never taken. An empty list stays empty. */
  lemma {:induction false} EmptyStaysEmpty(st: FillStation, list: Option<seq<PlcReport>>, es: seq<Event>)
    requires list.GetOr([]) == []
    ensures StationRun(st, list, es).GetOr([]) == []
  {
    if es != [] {
      EmptyStaysEmpty(st, list, Front(es));
    }
  }

  function Length(list: Option<seq<PlcReport>>): nat {
    |list.GetOr([])|
  }

  /** The list never outgrows the larger of its length at any earlier time and the configured
      count: within max(1, count) it stays there, and a longer list never grows. */
  lemma {:induction false} LengthIsBounded(st: FillStation, list: Option<seq<PlcReport>>, es: seq<Event>)
    ensures Length(StationRun(st, list, es)) <= Length(list) || Length(StationRun(st, list, es)) <= st.reportCount
  {
    if es != [] {
      hide StationStep;
      LengthIsBounded(st, list, Front(es));
      StepLength(st, StationRun(st, list, Front(es)), Last(es));
    }
  }

  lemma StepLength(st: FillStation, list: Option<seq<PlcReport>>, e: Event)
    ensures Length(StationStep(st, list, e)) <= Length(list) || Length(StationStep(st, list, e)) <= st.reportCount
  {
    if e.Poll? && e.read.Some? {
      PollLength(st, list.GetOr([]), e.read.value, e.now);
    }
    hide PollList;
  }

  lemma PollLength(st: FillStation, list: seq<PlcReport>, data: seq<Byte>, now: int)
    ensures |PollList(st, list, data, now)| <= |list| || |PollList(st, list, data, now)| <= st.reportCount
  {
    AppendedReportDescribesTheRead(st, Back(list), data, now);
    hide HandleNewReportRead, Hex;
  }

  // ----- polling is idempotent -----

  function Contents(list: seq<PlcReport>): (c: seq<PlcReport>)
    ensures |c| == |list|
  {
    seq(|list|, i requires 0 <= i < |list| => list[i].(sent := false))
  }

  /** Another poll with these bytes would neither append nor rewrite. */
  predicate Settled(st: FillStation, list: seq<PlcReport>, data: seq<Byte>) {
    && HandleNewReportRead(st, Back(list), data, 0).None?
    && (list != [] && !Last(list).sent ==> Last(list).hexContent == Hex(data))
  }

  lemma PollSettles(st: FillStation, list: seq<PlcReport>, data: seq<Byte>, now: int)
    ensures Settled(st, PollList(st, list, data, now), data)
  {
  }

  /** A quiet event: no poll of the station with other bytes, and the station stays configured. */
  predicate Quiet(st: FillStation, e: Event, data: seq<Byte>) {
    match e
    case Poll(station, read, _) => station == st && read.Some? ==> read.value == data
    case Ack(_) => true
    case Config(stations) => st in stations
  }

  lemma QuietStepChangesNothing(st: FillStation, list: seq<PlcReport>, e: Event, data: seq<Byte>)
    requires Settled(st, list, data) && Quiet(st, e, data)
    ensures var after := StationStep(st, Some(list), e);
            after.Some? && Settled(st, after.value, data) && Contents(after.value) == Contents(list)
  {
    hide ExtractS7DateTime, Hex, TaskIdOf;
    var after := StationStep(st, Some(list), e).value;
    if e.Poll? {
      assert after == list;
    } else if e.Ack? {
      assert Back(after) == None || Back(after).value == Back(list).value
          || Back(after).value == Back(list).value.(sent := true);
      assert Contents(after) == Contents(list);
    }
  }

  /** After one poll with given bytes, further polls with the same bytes, with failed reads,
      acknowledgements, other stations and configuration updates in between, append nothing
      and change no content, whatever the starting list and whatever the first poll did. */
  lemma {:induction false} PollingIsIdempotent(st: FillStation, list: seq<PlcReport>, data: seq<Byte>, now: int,
                                               es: seq<Event>)
    requires forall e :: e in es ==> Quiet(st, e, data)
    ensures var first := PollList(st, list, data, now);
            var later := StationRun(st, Some(first), es);
            later.Some? && Contents(later.value) == Contents(first) && Settled(st, later.value, data)
  {
    var first := PollList(st, list, data, now);
    if es == [] {
      PollSettles(st, list, data, now);
    } else {
      hide Settled, Contents, StationStep, Quiet, PollList;
      PollingIsIdempotent(st, list, data, now, Front(es));
      assert Last(es) in es;
      QuietStepChangesNothing(st, StationRun(st, Some(first), Front(es)).value, Last(es), data);
    }
  }

  // ----- which report an append loses -----

  /** Finding: the front goes before the sent reports are purged. An append drops an unsent
      report exactly when the list is full and its front is unsent, even if a sent report
      behind it would have made room. */
  lemma AppendLosesExactlyTheUnsentFront(st: FillStation, list: seq<PlcReport>, data: seq<Byte>, now: int)
    requires HandleNewReportRead(st, Back(list), data, now).Some?
    ensures list != []
    ensures var after := PollList(st, list, data, now);
            var lost := |list| >= st.reportCount && !list[0].sent;
            && Unsent(list) == (if lost then [list[0]] else []) + Front(after)
            && after != []
  {
    AppendedReportDescribesTheRead(st, Back(list), data, now);
    hide HandleNewReportRead, Hex, Unsent;
    UnsentBehindTheFront(list, st.reportCount);
    var rest := if |list| >= st.reportCount then list[1..] else list;
    var report := HandleNewReportRead(st, Back(list), data, now).value;
    var after := PollList(st, list, data, now);
    assert after == Unsent(rest) + [report];
    assert Front(after) == Unsent(rest);
  }

  lemma {:induction false} UnsentIsShorter(list: seq<PlcReport>, i: nat)
    requires i < |list| && list[i].sent
    ensures |Unsent(list)| < |list|
  {
    if i < |list| - 1 {
      UnsentIsShorter(Front(list), i);
    }
  }

  /** The loss is needless whenever a sent report is in the full list: without it, all unsent
      reports and the new one would have been within the configured count. */
  lemma SentReportsWouldHaveMadeRoom(st: FillStation, list: seq<PlcReport>, data: seq<Byte>, now: int, i: nat)
    requires HandleNewReportRead(st, Back(list), data, now).Some?
    requires |list| == st.reportCount && !list[0].sent && i < |list| && list[i].sent
    ensures var after := PollList(st, list, data, now);
            && after != [] && Unsent(list) == [list[0]] + Front(after)
            && |Unsent(list) + [Last(after)]| <= st.reportCount
  {
    AppendLosesExactlyTheUnsentFront(st, list, data, now);
    UnsentIsShorter(list, i);
  }

  const TWO_REPORT_STATION := FillStation("s", "", 0, 1, 0, 2, 8, 8, 0, 8, 0)
  const UNSENT_REPORT := PlcReport(1, "s", 0, 0, 0, "", 0, 1, "", false)
  const SENT_REPORT := PlcReport(2, "s", 0, 0, 0, "", 0, 1, "", true)
  const NEW_YEAR_2001: seq<Byte> := [0x01, 0x01, 0x01, 0, 0, 0, 0, 0]

  /** An instance: the unsent first report of a full list of two goes, although the second
      one was delivered. */
  lemma AnUnsentReportIsLost(now: int)
    ensures var after := PollList(TWO_REPORT_STATION, [UNSENT_REPORT, SENT_REPORT], NEW_YEAR_2001, now);
            |after| == 1 && after[0].reportId == now && after[0].hexContent == Hex(NEW_YEAR_2001) && !after[0].sent
  {
    var list := [UNSENT_REPORT, SENT_REPORT];
    assert BcdToU8(1) == 1;
    AppendsExactlyWhen(TWO_REPORT_STATION, Back(list), NEW_YEAR_2001, now);
    if ExtractS7DateTime(NEW_YEAR_2001, 0).Some? {
      StampsStayInRange(NEW_YEAR_2001, 0);
    }
    SentReportsWouldHaveMadeRoom(TWO_REPORT_STATION, list, NEW_YEAR_2001, now, 1);
    assert Front(list) == [UNSENT_REPORT] && Front([UNSENT_REPORT]) == [];
    hide ExtractS7DateTime;
  }

  lemma UnsentBehindTheFront(list: seq<PlcReport>, count: nat)
    requires list != []
    ensures var lost := |list| >= count && !list[0].sent;
            Unsent(list) == (if lost then [list[0]] else []) + Unsent(if |list| >= count then list[1..] else list)
  {
    UnsentOfTail(list);
  }

  lemma {:induction false} UnsentOfTail(list: seq<PlcReport>)
    requires list != []
    ensures Unsent(list) == (if list[0].sent then [] else [list[0]]) + Unsent(list[1..])
  {
    if |list| > 1 {
      UnsentOfTail(Front(list));
      assert Front(list)[1..] == Front(list[1..]);
    } else {
      assert Front(list) == [] && list[1..] == [];
    }
  }
}

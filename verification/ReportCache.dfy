// The cache of src/report/cache.rs: every station's report list, and the status sender.
module ReportCache {
  import opened Prelude
  import opened Streams
  import opened Calendar
  import opened Reports
  import opened ReportLedger
  import opened StatusStream

  type Caches = map<FillStation, seq<PlcReport>>

  function ListOf(c: Caches, st: FillStation): Option<seq<PlcReport>> {
    if st in c then Some(c[st]) else None
  }

  function Step(c: Caches, e: Event): Caches {
    match e
    case Poll(st, read, now) =>
      if st.reportDb <= 0 || read.None? then c
      else c[st := PollList(st, ListOf(c, st).GetOr([]), read.value, now)]
    case Ack(reportId) => map st | st in c :: Acknowledged(c[st], reportId)
    case Config(stations) => map st | st in stations :: ListOf(c, st).GetOr([])
  }

  function Run(c: Caches, es: seq<Event>): Caches {
    if es == [] then c else Step(Run(c, Front(es)), Last(es))
  }

  /** Every station of the cache lives the life of a single station: what is proved about
      one station's runs holds for each station of every run of the whole cache. */
  lemma {:induction false} StationsAreIndependent(c: Caches, es: seq<Event>, st: FillStation)
    ensures ListOf(Run(c, es), st) == StationRun(st, ListOf(c, st), es)
  {
    if es != [] {
      hide PollList, Acknowledged;
      StationsAreIndependent(c, Front(es), st);
    }
  }

  /** Every report any station ever held, over every run of the whole cache, is accounted
      for by that station's ledger, which erases to the station's list. */
  lemma EveryReportIsAccountedFor(c: Caches, es: seq<Event>)
    ensures forall st ::
              var g := LedgerRun(st, Open(ListOf(c, st)), es);
              Erase(g) == ListOf(Run(c, es), st) && Accounted(g, Length(ListOf(c, st)))
  {
    forall st
      ensures var g := LedgerRun(st, Open(ListOf(c, st)), es);
              Erase(g) == ListOf(Run(c, es), st) && Accounted(g, Length(ListOf(c, st)))
    {
      StationsAreIndependent(c, es, st);
      ReportsAreConserved(st, ListOf(c, st), es);
    }
  }

  // ----- a whole report tick -----

  function Collect(order: seq<FillStation>, c: Caches): seq<PlcReport>
    requires forall st :: st in order ==> st in c
  {
    if order == [] then []
    else
      assert Last(order) in order;
      Collect(Front(order), c) + Unsent(c[Last(order)])
  }

  /** The unsent reports of all stations, one station after the other in some order. */
  ghost predicate AreTheUnsent(messages: seq<PlcReport>, c: Caches) {
    exists order :: Enumerates(order, c.Keys) && messages == Collect(order, c)
  }

  lemma {:induction false} UnsentMembers(list: seq<PlcReport>, r: PlcReport)
    ensures r in Unsent(list) <==> r in list && !r.sent
  {
    if list != [] {
      UnsentMembers(Front(list), r);
      assert list == Front(list) + [Last(list)];
    }
  }

  lemma {:induction false} CollectMembers(order: seq<FillStation>, c: Caches, r: PlcReport)
    requires forall st :: st in order ==> st in c
    ensures r in Collect(order, c) <==> exists st :: st in order && r in c[st] && !r.sent
  {
    if order != [] {
      CollectMembers(Front(order), c, r);
      UnsentMembers(c[Last(order)], r);
      assert order == Front(order) + [Last(order)];
    }
  }

  /** Delivery is at least once: as long as a report of a configured station is live, that
      is neither acknowledged nor evicted nor withdrawn, every tick's messages contain it;
      and a tick sends nothing else. */
  lemma TicksSendExactlyTheLive(c: Caches, order: seq<FillStation>, st: FillStation, g: Ledger, given: nat)
    requires Enumerates(order, c.Keys) && st in c
    requires Accounted(g, given) && Erase(g) == Some(c[st])
    ensures forall x :: x in g.held.value && g.fates[x.serial] == Live ==> x.report in Collect(order, c)
    ensures forall k :: 0 <= k < |g.fates| && g.fates[k] == Live ==>
              exists r :: r in Collect(order, c) && SameReport(r, g.born[k])
    ensures forall r :: r in Collect(order, c) ==> exists s :: s in c && r in c[s] && !r.sent
  {
    forall x | x in g.held.value && g.fates[x.serial] == Live ensures x.report in Collect(order, c) {
      LiveEntryIsCollected(c, order, st, g, given, x);
    }
    forall k | 0 <= k < |g.fates| && g.fates[k] == Live
      ensures exists r :: r in Collect(order, c) && SameReport(r, g.born[k])
    {
      assert Holds(g.held.value, k);
      var i :| 0 <= i < |g.held.value| && g.held.value[i].serial == k;
      var x := g.held.value[i];
      assert x in g.held.value && Recorded(g, x);
      LiveEntryIsCollected(c, order, st, g, given, x);
    }
    forall r | r in Collect(order, c) ensures exists s :: s in c && r in c[s] && !r.sent {
      CollectMembers(order, c, r);
    }
  }

  lemma LiveEntryIsCollected(c: Caches, order: seq<FillStation>, st: FillStation, g: Ledger, given: nat, x: Entry)
    requires Enumerates(order, c.Keys) && st in c
    requires Accounted(g, given) && Erase(g) == Some(c[st])
    requires x in g.held.value && g.fates[x.serial] == Live
    ensures x.report in Collect(order, c)
  {
    assert Recorded(g, x);
    var i :| 0 <= i < |g.held.value| && g.held.value[i] == x;
    assert ReportsOf(g.held.value)[i] == x.report;
    CollectMembers(order, c, x.report);
  }

  // ----- one acknowledgement, one report -----

  ghost function LedgerOf(c: Caches, es: seq<Event>, st: FillStation): Ledger {
    LedgerRun(st, Open(ListOf(c, st)), es)
  }

  /** Report `k` of the station is live after the run. */
  ghost predicate LiveAfter(c: Caches, es: seq<Event>, st: FillStation, k: nat) {
    k < |LedgerOf(c, es, st).fates| && LedgerOf(c, es, st).fates[k] == Live
  }

  ghost function IdOf(c: Caches, es: seq<Event>, st: FillStation, k: nat): Option<int> {
    if k < |LedgerOf(c, es, st).born| then Some(LedgerOf(c, es, st).born[k].reportId) else None
  }

  /** Acknowledging this id after the run ends the life of report `k` of the station. */
  ghost predicate EndedBy(c: Caches, es: seq<Event>, id: int, st: FillStation, k: nat) {
    LiveAfter(c, es, st, k) && !LiveAfter(c, es + [Ack(id)], st, k)
  }

  lemma EndedByItsId(c: Caches, es: seq<Event>, id: int, st: FillStation, k: nat)
    ensures EndedBy(c, es, id, st, k) <==> LiveAfter(c, es, st, k) && IdOf(c, es, st, k) == Some(id)
  {
    var g := LedgerOf(c, es, st);
    assert Front(es + [Ack(id)]) == es;
    ReportsAreConserved(st, ListOf(c, st), es);
    if LiveAfter(c, es, st, k) {
      FatesHaveCauses(st, g, Length(ListOf(c, st)), Ack(id), k);
      hide Accounted, LedgerStep, LedgerRun;
    }
  }

  /** After the run, no acknowledgement ends more than one life. */
  ghost predicate AcksEndOneLife(c: Caches, es: seq<Event>) {
    forall id, st, k: nat, other, l: nat | EndedBy(c, es, id, st, k) && EndedBy(c, es, id, other, l) ::
      st == other && k == l
  }

  /** Report ids are clock readings, so reports of different stations can share one. After
      any run, every acknowledgement ends at most one life exactly when no two live reports,
      of one station or of two, have the same id. */
  lemma AcknowledgementsEndOneLife(c: Caches, es: seq<Event>)
    ensures AcksEndOneLife(c, es) <==>
            forall st, k: nat, other, l: nat | LiveAfter(c, es, st, k) && LiveAfter(c, es, other, l) ::
              IdOf(c, es, st, k) == IdOf(c, es, other, l) ==> st == other && k == l
  {
    hide LiveAfter, EndedBy, IdOf;
    forall id, st, k: nat
      ensures EndedBy(c, es, id, st, k) <==> LiveAfter(c, es, st, k) && IdOf(c, es, st, k) == Some(id)
    {
      EndedByItsId(c, es, id, st, k);
    }
    forall st, k: nat | LiveAfter(c, es, st, k)
      ensures IdOf(c, es, st, k).Some? && EndedBy(c, es, IdOf(c, es, st, k).value, st, k)
    {
      LiveReportsHaveIds(c, es, st, k);
    }
  }

  lemma LiveReportsHaveIds(c: Caches, es: seq<Event>, st: FillStation, k: nat)
    requires LiveAfter(c, es, st, k)
    ensures IdOf(c, es, st, k).Some?
  {
    ReportsAreConserved(st, ListOf(c, st), es);
  }

  /** The reports at the start have different ids, and each poll that commits reads the
      clock at another time, none of them an id in use. */
  ghost predicate DistinctClocks(c: Caches, es: seq<Event>) {
    && (forall st, other, k, l | st in c && other in c && 0 <= k < |c[st]| && 0 <= l < |c[other]| ::
          c[st][k].reportId == c[other][l].reportId ==> st == other && k == l)
    && (forall i, j :: 0 <= i < j < |es| && Commits(es[i]) && Commits(es[j]) ==> es[i].now != es[j].now)
    && (forall i, st, k | 0 <= i < |es| && Commits(es[i]) && st in c && 0 <= k < |c[st]| ::
          c[st][k].reportId != es[i].now)
  }

  lemma DistinctClocksGiveDistinctIds(c: Caches, es: seq<Event>, st: FillStation, k: nat, other: FillStation, l: nat)
    requires DistinctClocks(c, es)
    requires IdOf(c, es, st, k).Some? && IdOf(c, es, st, k) == IdOf(c, es, other, l)
    ensures st == other && k == l
  {
    var i := ReportIdsAreClockReadings(st, ListOf(c, st), es, k);
    var j := ReportIdsAreClockReadings(other, ListOf(c, other), es, l);
    hide LedgerRun;
  }

  /** With distinct clock readings no two reports ever share an id, so every acknowledgement
      ends at most one life. */
  lemma DistinctClocksMakeAcknowledgementsExact(c: Caches, es: seq<Event>)
    requires DistinctClocks(c, es)
    ensures AcksEndOneLife(c, es)
  {
    hide AcksEndOneLife, DistinctClocks, IdOf, LiveAfter;
    AcknowledgementsEndOneLife(c, es);
    forall st, k: nat, other, l: nat | LiveAfter(c, es, st, k) && LiveAfter(c, es, other, l)
      ensures IdOf(c, es, st, k) == IdOf(c, es, other, l) ==> st == other && k == l
    {
      LiveReportsHaveIds(c, es, st, k);
      if IdOf(c, es, st, k) == IdOf(c, es, other, l) {
        DistinctClocksGiveDistinctIds(c, es, st, k, other, l);
      }
    }
  }

  /** Finding: from caches without reports no run ever takes a report. */
  lemma EmptyCachesStayEmpty(c: Caches, es: seq<Event>)
    requires forall st :: st in c ==> c[st] == []
    ensures forall st :: st in Run(c, es) ==> Run(c, es)[st] == []
  {
    forall st | st in Run(c, es) ensures Run(c, es)[st] == [] {
      StationsAreIndependent(c, es, st);
      EmptyStaysEmpty(st, ListOf(c, st), es);
    }
  }

  /** A poll that reaches its commit: it has a block to read, and the read succeeded. */
  predicate Commits(e: Event) {
    e.Poll? && e.station.reportDb > 0 && e.read.Some?
  }

  /** The stations whose polls commit in a run, in the configuration or not. */
  function Committed(es: seq<Event>): set<FillStation> {
    set e | e in es && Commits(e) :: e.station
  }

  /** Without a configuration update, the stations of the cache are those it had and those
      whose polls committed. */
  lemma {:induction false} PollsAddTheirStations(c: Caches, es: seq<Event>)
    requires forall e :: e in es ==> !e.Config?
    ensures Run(c, es).Keys == c.Keys + Committed(es)
  {
    if es != [] {
      hide PollList, Acknowledged;
      PollsAddTheirStations(c, Front(es));
      assert forall e :: e in es <==> e in Front(es) || e == Last(es);
      assert Last(es) in es;
    }
  }

  lemma {:induction false} RunConcat(c: Caches, es: seq<Event>, later: seq<Event>)
    ensures Run(c, es + later) == Run(Run(c, es), later)
  {
    if later == [] {
      assert es + later == es;
    } else {
      RunConcat(c, es, Front(later));
      assert Front(es + later) == es + Front(later);
    }
  }

  /** Finding: a poll whose read was in flight while its station was removed brings it back.
      After the last configuration update of any run, the cache holds the configured stations
      and exactly those that committed since, so the configuration survives if and only if
      every poll that committed was of a configured station. */
  lemma InFlightPollsReviveStations(c: Caches, es: seq<Event>, stations: seq<FillStation>, later: seq<Event>)
    requires forall e :: e in later ==> !e.Config?
    ensures var configured := set st | st in stations;
            var after := Run(c, es + [Config(stations)] + later);
            && after.Keys == configured + Committed(later)
            && (after.Keys == configured <==> forall e :: e in later && Commits(e) ==> e.station in stations)
  {
    var prefix := es + [Config(stations)];
    assert Front(prefix) == es;
    RunConcat(c, prefix, later);
    PollsAddTheirStations(Run(c, prefix), later);
    assert Run(c, prefix).Keys == set st | st in stations;
    assert forall e :: e in later && Commits(e) ==> e.station in Committed(later);
  }

  /** The polls of a tick that visits stations in this order, with the i-th answer and clock
      reading each. */
  function PollsOf(order: seq<FillStation>, answers: seq<Option<seq<Byte>>>, nows: seq<int>): (polls: seq<Event>)
    requires |order| <= |answers| == |nows|
    ensures |polls| == |order|
  {
    seq(|order|, i requires 0 <= i < |order| => Poll(order[i], answers[i], nows[i]))
  }

  /** The status reads of a tick that visits the stations in this order. */
  function ReadingsOf(order: seq<FillStation>, answers: map<FillStation, Option<seq<Byte>>>, now: U64): seq<Emission> {
    if order == [] then []
    else
      var before, st := ReadingsOf(Front(order), answers, now), Last(order);
      if st.statusDb > 0 && st in answers && answers[st].Some?
      then before + [Emission(st.id, Hex(answers[st].value), now)]
      else before
  }

  /** The station's list after a read with this answer; a station without a block to read, or
      whose read failed, keeps what it has. */
  function Polled(st: FillStation, list: Option<seq<PlcReport>>, read: Option<seq<Byte>>, now: int)
    : Option<seq<PlcReport>>
  {
    if st.reportDb > 0 && read.Some? then Some(PollList(st, list.GetOr([]), read.value, now)) else list
  }

  lemma PollsChangeOneList(c: Caches, st: FillStation, read: Option<seq<Byte>>, now: int, other: FillStation)
    ensures ListOf(Step(c, Poll(st, read, now)), other)
            == if other == st then Polled(st, ListOf(c, st), read, now) else ListOf(c, other)
  {
    hide PollList;
  }

  /** Whatever the order of a tick, each station of the snapshot is polled once, from the list
      it had before the tick and with its own answer and clock reading; other stations keep
      their lists. */
  lemma {:induction false} TicksPollEachStationOnce(c: Caches, order: seq<FillStation>,
                                                    answers: seq<Option<seq<Byte>>>, nows: seq<int>, st: FillStation)
    requires |order| <= |answers| == |nows|
    requires forall i, j :: 0 <= i < j < |order| ==> order[i] != order[j]
    ensures var after := ListOf(Run(c, PollsOf(order, answers, nows)), st);
            && (forall i :: 0 <= i < |order| && order[i] == st ==>
                  after == Polled(st, ListOf(c, st), answers[i], nows[i]))
            && (st !in order ==> after == ListOf(c, st))
  {
    if order == [] {
      assert PollsOf(order, answers, nows) == [];
    } else {
      hide Polled, ListOf, Step, Run;
      var front, n := Front(order), |order| - 1;
      TicksPollEachStationOnce(c, front, answers, nows, st);
      var polls := PollsOf(front, answers, nows);
      assert PollsOf(order, answers, nows) == polls + [Poll(order[n], answers[n], nows[n])];
      RunOneMore(c, polls, Poll(order[n], answers[n], nows[n]));
      PollsChangeOneList(Run(c, polls), order[n], answers[n], nows[n], st);
      assert st in front ==> st in order;
      if st == order[n] {
        assert st !in front;
      }
    }
  }

  /** A status tick reads each station that is alone under its id once: the text of its answer,
      if it has a status block and answers, and nothing otherwise. */
  lemma {:induction false} TicksReadEachStatusOnce(order: seq<FillStation>,
                                                   answers: map<FillStation, Option<seq<Byte>>>, now: U64, i: nat)
    requires i < |order| && forall j :: 0 <= j < |order| && j != i ==> order[j].id != order[i].id
    ensures var st := order[i];
            OfId(ReadingsOf(order, answers, now), st.id)
            == if st.statusDb > 0 && st in answers && answers[st].Some?
               then [Emission(st.id, Hex(answers[st].value), now)] else []
  {
    hide Hex;
    var id := order[i].id;
    var before := ReadingsOf(Front(order), answers, now);
    if i < |order| - 1 {
      TicksReadEachStatusOnce(Front(order), answers, now, i);
    } else {
      OthersReadNothing(Front(order), answers, now, id);
    }
    if ReadingsOf(order, answers, now) != before {
      assert Front(ReadingsOf(order, answers, now)) == before;
    }
  }

  lemma {:induction false} OthersReadNothing(order: seq<FillStation>,
                                             answers: map<FillStation, Option<seq<Byte>>>, now: U64, id: string)
    requires forall j :: 0 <= j < |order| ==> order[j].id != id
    ensures OfId(ReadingsOf(order, answers, now), id) == []
  {
    hide Hex;
    if order != [] {
      OthersReadNothing(Front(order), answers, now, id);
      assert Last(order).id != id;
      var before := ReadingsOf(Front(order), answers, now);
      if ReadingsOf(order, answers, now) != before {
        assert Front(ReadingsOf(order, answers, now)) == before;
      }
    }
  }

  /** Also with shared ids, the readings are the answers of the stations with a status block. */
  lemma {:induction false} ReadingsAreTheAnswers(order: seq<FillStation>,
                                                 answers: map<FillStation, Option<seq<Byte>>>, now: U64, x: Emission)
    ensures x in ReadingsOf(order, answers, now) <==>
            exists st :: st in order && st.statusDb > 0 && st in answers && answers[st].Some?
                         && x == Emission(st.id, Hex(answers[st].value), now)
  {
    hide Hex;
    if order != [] {
      ReadingsAreTheAnswers(Front(order), answers, now, x);
      assert order == Front(order) + [Last(order)];
    }
  }

  lemma RunOneMore(c: Caches, es: seq<Event>, e: Event)
    ensures Run(c, es + [e]) == Step(Run(c, es), e)
  {
    assert Front(es + [e]) == es;
  }

  // ----- the class -----

  class Cache {
    var caches: Caches
    var statusCache: map<string, string>
    var lastStatusSentTime: map<string, U64>

    constructor ()
      ensures caches == map[] && Status() == NO_STATUS
    {
      caches, statusCache, lastStatusSentTime := map[], map[], map[];
    }

    function Status(): StatusState
      reads this
    {
      StatusState(statusCache, lastStatusSentTime)
    }

    method UpdateFillStations(stations: seq<FillStation>)
      modifies `caches
      ensures caches == Step(old(caches), Config(stations))
    {
      var newSet := set st | st in stations;
      var existing := caches.Keys;
      var toRemove := existing - newSet;
      while toRemove != {}
        invariant toRemove <= existing - newSet
        invariant caches == old(caches) - (existing - newSet - toRemove)
        decreases toRemove
      {
        var st :| st in toRemove;
        toRemove := toRemove - {st};
        caches := caches - {st};
      }
      var toAdd := newSet - existing;
      while toAdd != {}
        invariant toAdd <= newSet - existing
        invariant caches.Keys == newSet - toAdd
        invariant forall st :: st in caches ==> caches[st] == ListOf(old(caches), st).GetOr([])
        decreases toAdd
      {
        var st :| st in toAdd;
        toAdd := toAdd - {st};
        caches := caches[st := []];
      }
    }

    /** Popping front after front and keeping the unsent. */
    method PurgeSent(list: seq<PlcReport>) returns (toKeep: seq<PlcReport>)
      ensures toKeep == Unsent(list)
    {
      toKeep := [];
      var remaining := list;
      ghost var n := 0;
      while remaining != []
        invariant n <= |list| && remaining == list[n..]
        invariant toKeep == Unsent(list[..n])
        decreases |remaining|
      {
        var r := remaining[0];
        remaining := remaining[1..];
        assert Front(list[..n + 1]) == list[..n] && Last(list[..n + 1]) == r;
        if !r.sent {
          toKeep := toKeep + [r];
        }
        n := n + 1;
      }
      assert list[..n] == list;
    }

    /** The commit of one station's read, under the lock. */
    method ReadReport(station: FillStation, read: Option<seq<Byte>>, now: int)
      modifies `caches
      ensures caches == Step(old(caches), Poll(station, read, now))
    {
      hide ExtractS7DateTime, Hex;
      if station.reportDb <= 0 || read.None? {
        return;
      }
      if station !in caches {
        caches := caches[station := []];
      }
      var reports := caches[station];
      var last := if reports == [] then None else Some(Last(reports));
      var newReport := HandleNewReportRead(station, last, read.value, now);
      match newReport {
        case Some(report) =>
          if |reports| >= station.reportCount && reports != [] {
            reports := reports[1..];
          }
          var toKeep := PurgeSent(reports);
          reports := toKeep + [report];
        case None =>
          if reports != [] {
            var back := Last(reports);
            var hex := Hex(read.value);
            if !back.sent && hex != back.hexContent {
              reports := reports[|reports| - 1 := back.(hexContent := hex, sent := false)];
            }
          }
      }
      assert reports == PollList(station, ListOf(old(caches), station).GetOr([]), read.value, now);
      caches := caches[station := reports];
    }

    method DeleteReport(reportId: int)
      modifies `caches
      ensures caches == Step(old(caches), Ack(reportId))
    {
      var pending := caches.Keys;
      while pending != {}
        invariant pending <= caches.Keys == old(caches).Keys
        invariant forall st :: st in caches ==>
          caches[st] == if st in pending then old(caches)[st] else Acknowledged(old(caches)[st], reportId)
        decreases pending
      {
        var st :| st in pending;
        pending := pending - {st};
        var reports := caches[st];
        for i := 0 to |reports|
          invariant |reports| == |old(caches)[st]|
          invariant forall j :: 0 <= j < |reports| ==>
            reports[j] == if j < i then Acknowledged(old(caches)[st], reportId)[j] else old(caches)[st][j]
        {
          if reports[i].reportId == reportId {
            reports := reports[i := reports[i].(sent := true)];
          }
        }
        assert reports == Acknowledged(old(caches)[st], reportId);
        caches := caches[st := reports];
      }
    }

    /** The tick without interference: every station of the snapshot once, in the arbitrary
        order of the hash map, then the unsent reports of the lists as they are then. The
        i-th station visited is answered by `answers[i]` and stamped with `nows[i]`. */
    method ReadAndSendReportsDirect(answers: seq<Option<seq<Byte>>>, nows: seq<int>)
      returns (messages: seq<PlcReport>, ghost order: seq<FillStation>)
      requires |answers| == |nows| == |caches|
      modifies `caches
      ensures Enumerates(order, old(caches).Keys) && |order| == |answers|
      ensures caches == Run(old(caches), PollsOf(order, answers, nows))
      ensures AreTheUnsent(messages, caches)
    {
      order := [];
      var snapshot := caches.Keys;
      var pending := snapshot;
      while pending != {}
        invariant pending <= snapshot == old(caches).Keys && |order| + |pending| == |answers|
        invariant Enumerates(order, snapshot - pending)
        invariant caches == Run(old(caches), PollsOf(order, answers, nows))
        decreases pending
      {
        hide Step, Run, Enumerates;
        var st :| st in pending;
        var i := |answers| - |pending|;
        ReadReport(st, answers[i], nows[i]);
        RunOneMore(old(caches), PollsOf(order, answers, nows), Poll(st, answers[i], nows[i]));
        assert PollsOf(order + [st], answers, nows)
            == PollsOf(order, answers, nows) + [Poll(st, answers[i], nows[i])];
        OneMoreVisited(order, st, snapshot, pending);
        order := order + [st];
        pending := pending - {st};
      }
      messages := CollectUnsent();
    }

    method CollectUnsent() returns (messages: seq<PlcReport>)
      ensures AreTheUnsent(messages, caches)
    {
      messages := [];
      ghost var visited := [];
      var pending := caches.Keys;
      while pending != {}
        invariant pending <= caches.Keys
        invariant Enumerates(visited, caches.Keys - pending)
        invariant messages == Collect(visited, caches)
        decreases pending
      {
        var st :| st in pending;
        var reports := caches[st];
        ghost var before := messages;
        for i := 0 to |reports|
          invariant messages == before + Unsent(reports[..i])
        {
          assert Front(reports[..i + 1]) == reports[..i];
          if !reports[i].sent {
            messages := messages + [reports[i]];
          }
        }
        assert reports[..|reports|] == reports;
        assert Front(visited + [st]) == visited;
        visited := visited + [st];
        pending := pending - {st};
      }
    }

    /** One status tick: every station once, in the arbitrary order of the hash map; those
        with a status block and an answer are observed, and what is due is sent together. */
    method ReadAndSendStatusDirect(answers: map<FillStation, Option<seq<Byte>>>, now: U64)
      returns (message: Option<seq<Emission>>, ghost order: seq<FillStation>)
      requires caches.Keys <= answers.Keys
      modifies `statusCache, `lastStatusSentTime
      ensures Enumerates(order, caches.Keys)
      ensures Status() == ObserveAll(old(Status()), ReadingsOf(order, answers, now))
      ensures var sent := SentOf(old(Status()), ReadingsOf(order, answers, now));
              message == if sent == [] then None else Some(sent)
    {
      var changed: seq<Emission> := [];
      order := [];
      var pending := caches.Keys;
      while pending != {}
        invariant pending <= caches.Keys
        invariant Enumerates(order, caches.Keys - pending)
        invariant Status() == ObserveAll(old(Status()), ReadingsOf(order, answers, now))
        invariant changed == SentOf(old(Status()), ReadingsOf(order, answers, now))
        decreases pending
      {
        hide Enumerates, Observe, ShouldSend;
        var st :| st in pending;
        OneMoreVisited(order, st, caches.Keys, pending);
        assert Front(order + [st]) == order;
        ghost var before := ReadingsOf(order, answers, now);
        order := order + [st];
        pending := pending - {st};
        if st.statusDb > 0 && answers[st].Some? {
          var read := Emission(st.id, Hex(answers[st].value), now);
          var sent := ObserveStatus(read);
          assert ReadingsOf(order, answers, now) == before + [read] && Front(before + [read]) == before;
          if sent {
            changed := changed + [read];
          }
        }
      }
      message := if changed == [] then None else Some(changed);
    }

    method ObserveStatus(read: Emission) returns (shouldSend: bool)
      modifies `statusCache, `lastStatusSentTime
      ensures Status() == Observe(old(Status()), read)
      ensures shouldSend == ShouldSend(old(Status()), read)
    {
      var previous := if read.id in statusCache then Some(statusCache[read.id]) else None;
      statusCache := statusCache[read.id := read.payload];
      shouldSend := previous.None? || previous != Some(read.payload) || read.id !in lastStatusSentTime
        || ElapsedMillis(read.at, lastStatusSentTime[read.id]) > STATUS_RESEND_MILLIS;
      if shouldSend {
        lastStatusSentTime := lastStatusSentTime[read.id := read.at];
      }
    }
  }
}

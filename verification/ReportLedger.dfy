// An account of every report a station ever held. Each report gets a serial number when it
// is appended; the ledger runs alongside the list and records what became of each serial.
module ReportLedger {
  import opened Prelude
  import opened Reports

  datatype Fate = Live | Delivered | Evicted | Withdrawn

  datatype Entry = Entry(serial: nat, report: PlcReport)

  /** `held` is the list with serials, `born[k]` report `k` as it was appended, `fates[k]`
      what became of it. */
  datatype Ledger = Ledger(held: Option<seq<Entry>>, born: seq<PlcReport>, fates: seq<Fate>)

  function ReportsOf(es: seq<Entry>): (list: seq<PlcReport>)
    ensures |list| == |es|
  {
    seq(|es|, i requires 0 <= i < |es| => es[i].report)
  }

  function Erase(g: Ledger): Option<seq<PlcReport>> {
    if g.held.None? then None else Some(ReportsOf(g.held.value))
  }

  // ----- the steps, with serials -----

  function UnsentEntries(es: seq<Entry>): seq<Entry> {
    if es == [] then []
    else if Last(es).report.sent then UnsentEntries(Front(es))
    else UnsentEntries(Front(es)) + [Last(es)]
  }

  function RefreshEntries(es: seq<Entry>, hex: string): seq<Entry> {
    if es == [] || Last(es).report.sent then es
    else Front(es) + [Last(es).(report := Last(es).report.(hexContent := hex))]
  }

  function AckEntries(es: seq<Entry>, reportId: int): (after: seq<Entry>)
    ensures |after| == |es|
  {
    seq(|es|, i requires 0 <= i < |es| =>
      if es[i].report.reportId == reportId then es[i].(report := es[i].report.(sent := true)) else es[i])
  }

  ghost predicate AcksSerial(es: seq<Entry>, reportId: int, k: nat) {
    exists x :: x in es && x.serial == k && x.report.reportId == reportId
  }

  /** Appending: at capacity the front leaves first, then the delivered entries. */
  function AppendEntry(st: FillStation, g: Ledger, es: seq<Entry>, report: PlcReport): Ledger {
    var full := |es| >= st.reportCount && es != [];
    var rest := if full then es[1..] else es;
    var fates := if full && !es[0].report.sent && es[0].serial < |g.fates|
                 then g.fates[es[0].serial := Evicted] else g.fates;
    Ledger(Some(UnsentEntries(rest) + [Entry(|g.born|, report)]), g.born + [report], fates + [Live])
  }

  ghost function LedgerStep(st: FillStation, g: Ledger, e: Event): Ledger {
    match e
    case Poll(station, read, now) =>
      if station != st || st.reportDb <= 0 || read.None? then g
      else
        var es := g.held.GetOr([]);
        (match HandleNewReportRead(st, Back(ReportsOf(es)), read.value, now)
         case Some(report) => AppendEntry(st, g, es, report)
         case None => g.(held := Some(RefreshEntries(es, Hex(read.value)))))
    case Ack(reportId) =>
      if g.held.None? then g
      else Ledger(Some(AckEntries(g.held.value, reportId)), g.born,
                  seq(|g.fates|, k requires 0 <= k < |g.fates| =>
                    if AcksSerial(g.held.value, reportId, k) then Delivered else g.fates[k]))
    case Config(stations) =>
      if st in stations then g.(held := Some(g.held.GetOr([])))
      else Ledger(None, g.born,
                  seq(|g.fates|, k requires 0 <= k < |g.fates| =>
                    if g.fates[k] == Live then Withdrawn else g.fates[k]))
  }

  ghost function LedgerRun(st: FillStation, g: Ledger, es: seq<Event>): Ledger {
    if es == [] then g else LedgerStep(st, LedgerRun(st, g, Front(es)), Last(es))
  }

  /** The account of a list that was there at the start. */
  function Open(list: Option<seq<PlcReport>>): Ledger {
    var l := list.GetOr([]);
    Ledger(if list.None? then None else Some(seq(|l|, i requires 0 <= i < |l| => Entry(i, l[i]))),
           l,
           seq(|l|, i requires 0 <= i < |l| => if l[i].sent then Delivered else Live))
  }

  // ----- the ledger runs alongside the list -----

  lemma {:induction false} UnsentErases(es: seq<Entry>)
    ensures ReportsOf(UnsentEntries(es)) == Unsent(ReportsOf(es))
  {
    if es != [] {
      UnsentErases(Front(es));
      assert Front(ReportsOf(es)) == ReportsOf(Front(es));
    }
  }

  lemma StepErases(st: FillStation, g: Ledger, e: Event)
    ensures Erase(LedgerStep(st, g, e)) == StationStep(st, Erase(g), e)
  {
    hide HandleNewReportRead, Hex;
    var es := g.held.GetOr([]);
    assert Erase(g).GetOr([]) == ReportsOf(es);
    match e
    case Poll(station, read, now) =>
      if station == st && st.reportDb > 0 && read.Some? {
        var report := HandleNewReportRead(st, Back(ReportsOf(es)), read.value, now);
        if report.Some? {
          var full := |es| >= st.reportCount && es != [];
          var rest := if full then es[1..] else es;
          UnsentErases(rest);
          assert ReportsOf(rest) == if full then ReportsOf(es)[1..] else ReportsOf(es);
          assert ReportsOf(UnsentEntries(rest) + [Entry(|g.born|, report.value)])
              == ReportsOf(UnsentEntries(rest)) + [report.value];
        } else {
          assert ReportsOf(RefreshEntries(es, Hex(read.value))) == RefreshBack(ReportsOf(es), Hex(read.value));
        }
      }
    case Ack(reportId) =>
      if g.held.Some? {
        assert ReportsOf(AckEntries(es, reportId)) == Acknowledged(ReportsOf(es), reportId);
      }
    case Config(_) =>
  }

  // ----- the account is complete -----

  predicate SameReport(a: PlcReport, b: PlcReport) {
    a.(hexContent := "", sent := false) == b.(hexContent := "", sent := false)
  }

  /** The guarantee against double appends, for a report and the one appended before it. */
  predicate NewerReport(previous: PlcReport, next: PlcReport) {
    if next.taskId > 0 then next.taskId != previous.taskId
    else next.startTime != previous.startTime || next.endTime != previous.endTime
  }

  predicate Ordered(es: seq<Entry>) {
    forall i, j :: 0 <= i < j < |es| ==> es[i].serial < es[j].serial
  }

  predicate Recorded(g: Ledger, x: Entry) {
    && x.serial < |g.born| == |g.fates|
    && SameReport(x.report, g.born[x.serial])
    && g.fates[x.serial] == if x.report.sent then Delivered else Live
  }

  predicate Holds(es: seq<Entry>, k: nat) {
    exists i :: 0 <= i < |es| && es[i].serial == k
  }

  /** The entries are in append order, each recorded with the fate its flag shows; a serial
      is live exactly when the list holds it unsent; the back is the last report appended;
      and from serial `given` on every report is newer than the one before it. */
  ghost predicate Accounted(g: Ledger, given: nat) {
    var es := g.held.GetOr([]);
    && |g.born| == |g.fates|
    && Ordered(es)
    && (forall x :: x in es ==> Recorded(g, x))
    && (forall k :: 0 <= k < |g.fates| && g.fates[k] == Live ==> Holds(es, k))
    && (es != [] ==> Last(es).serial == |g.born| - 1)
    && (forall k :: given <= k < |g.born| && 0 < k ==> NewerReport(g.born[k - 1], g.born[k]))
  }

  lemma OpenIsAccounted(list: Option<seq<PlcReport>>)
    ensures Accounted(Open(list), Length(list)) && Erase(Open(list)) == list
  {
    var l := list.GetOr([]);
    var g := Open(list);
    var es := g.held.GetOr([]);
    if list.Some? {
      assert ReportsOf(es) == l;
    }
    forall k | 0 <= k < |g.fates| && g.fates[k] == Live ensures Holds(es, k) {
      assert es[k].serial == k;
    }
  }

  lemma {:induction false} UnsentKeepsOrder(es: seq<Entry>)
    requires Ordered(es)
    ensures Ordered(UnsentEntries(es))
    ensures forall x :: x in UnsentEntries(es) <==> x in es && !x.report.sent
  {
    if es != [] {
      UnsentKeepsOrder(Front(es));
      assert es == Front(es) + [Last(es)];
      forall i | 0 <= i < |UnsentEntries(Front(es))| ensures UnsentEntries(Front(es))[i].serial < Last(es).serial {
        assert UnsentEntries(Front(es))[i] in UnsentEntries(Front(es));
      }
    }
  }

  lemma AppendedIsNewer(st: FillStation, last: Option<PlcReport>, data: seq<Byte>, now: int)
    ensures var r := HandleNewReportRead(st, last, data, now);
            r.Some? ==> last.Some? && NewerReport(last.value, r.value) && !r.value.sent
  {
  }

  /** The entries that stay when a report is appended: the unsent ones behind a popped front. */
  ghost function Kept(st: FillStation, es: seq<Entry>): seq<Entry> {
    UnsentEntries(if |es| >= st.reportCount && es != [] then es[1..] else es)
  }

  lemma KeptEntries(st: FillStation, es: seq<Entry>)
    requires Ordered(es) && es != []
    ensures Ordered(Kept(st, es))
    ensures forall x :: x in Kept(st, es) <==>
              x in es && !x.report.sent && (|es| >= st.reportCount ==> x.serial != es[0].serial)
  {
    var full := |es| >= st.reportCount;
    var rest := if full then es[1..] else es;
    UnsentKeepsOrder(rest);
    assert forall x :: x in es <==> x in rest || (full && x == es[0]);
    forall x | x in rest ensures full ==> x.serial != es[0].serial {
      OnlyTheFrontHasItsSerial(es, x, full);
    }
  }

  lemma AppendedEntriesAreRecorded(st: FillStation, g: Ledger, given: nat, report: PlcReport)
    requires Accounted(g, given) && g.held.GetOr([]) != [] && !report.sent
    ensures var g' := AppendEntry(st, g, g.held.GetOr([]), report);
            && g'.held.Some? && Ordered(g'.held.value)
            && forall x :: x in g'.held.value ==> Recorded(g', x)
  {
    hide NewerReport;
    var es := g.held.GetOr([]);
    var g' := AppendEntry(st, g, es, report);
    var kept := Kept(st, es);
    KeptEntries(st, es);
    forall x | x in kept ensures Recorded(g', x) && x.serial < |g.born| {
      assert Recorded(g, x);
    }
    forall i | 0 <= i < |kept| ensures kept[i].serial < |g.born| {
      assert kept[i] in kept;
    }
  }

  lemma LiveReportsStayHeld(st: FillStation, g: Ledger, given: nat, report: PlcReport, k: nat)
    requires Accounted(g, given) && g.held.GetOr([]) != []
    requires var g' := AppendEntry(st, g, g.held.GetOr([]), report); k < |g'.fates| && g'.fates[k] == Live
    ensures Holds(AppendEntry(st, g, g.held.GetOr([]), report).held.value, k)
  {
    hide NewerReport, SameReport;
    var es := g.held.GetOr([]);
    var kept := Kept(st, es);
    var held := AppendEntry(st, g, es, report).held.value;
    KeptEntries(st, es);
    assert es[0] in es && Recorded(g, es[0]);
    if k < |g.fates| {
      assert Holds(es, k);
      var i :| 0 <= i < |es| && es[i].serial == k;
      assert es[i] in es && Recorded(g, es[i]);
      assert es[i] in kept;
      var j :| 0 <= j < |kept| && kept[j] == es[i];
      assert held[j].serial == k;
    } else {
      assert held[|kept|].serial == k;
    }
  }

  lemma AppendStaysAccounted(st: FillStation, g: Ledger, given: nat, report: PlcReport)
    requires Accounted(g, given) && g.held.GetOr([]) != [] && !report.sent
    requires NewerReport(Last(g.held.GetOr([])).report, report)
    ensures Accounted(AppendEntry(st, g, g.held.GetOr([]), report), given)
  {
    hide Holds, Ordered;
    var es := g.held.GetOr([]);
    var g' := AppendEntry(st, g, es, report);
    AppendedEntriesAreRecorded(st, g, given, report);
    forall k | 0 <= k < |g'.fates| && g'.fates[k] == Live ensures Holds(g'.held.value, k) {
      LiveReportsStayHeld(st, g, given, report, k);
    }
    assert Last(es) in es && Recorded(g, Last(es));
  }

  /** Behind a popped front no entry carries its serial. */
  lemma OnlyTheFrontHasItsSerial(es: seq<Entry>, x: Entry, full: bool)
    requires es != [] && Ordered(es) && x in (if full then es[1..] else es)
    ensures full ==> x.serial != es[0].serial
  {
    if full {
      var i :| 0 <= i < |es[1..]| && es[1..][i] == x;
      assert es[i + 1] == x;
    }
  }

  lemma RefreshStaysAccounted(g: Ledger, given: nat, hex: string)
    requires Accounted(g, given)
    ensures Accounted(g.(held := Some(RefreshEntries(g.held.GetOr([]), hex))), given)
  {
    var es := g.held.GetOr([]);
    var g' := g.(held := Some(RefreshEntries(es, hex)));
    var after := g'.held.value;
    assert forall i :: 0 <= i < |es| ==> after[i].serial == es[i].serial;
    forall x | x in after ensures Recorded(g', x) {
      var i :| 0 <= i < |after| && after[i] == x;
      assert es[i] in es && Recorded(g, es[i]);
    }
    SameSerialsHold(es, after);
  }

  lemma SameSerialsHold(es: seq<Entry>, after: seq<Entry>)
    requires |es| == |after| && forall i :: 0 <= i < |es| ==> after[i].serial == es[i].serial
    ensures forall k :: Holds(es, k) ==> Holds(after, k)
  {
    forall k | Holds(es, k) ensures Holds(after, k) {
      var i :| 0 <= i < |es| && es[i].serial == k;
      assert after[i].serial == k;
    }
  }

  lemma AckedEntryIsRecorded(st: FillStation, g: Ledger, reportId: int, i: nat)
    requires g.held.Some? && Ordered(g.held.value) && i < |g.held.value|
    requires Recorded(g, g.held.value[i])
    ensures Recorded(LedgerStep(st, g, Ack(reportId)), AckEntries(g.held.value, reportId)[i])
  {
    var es := g.held.value;
    if AcksSerial(es, reportId, es[i].serial) {
      var y :| y in es && y.serial == es[i].serial && y.report.reportId == reportId;
      SerialsAreUnique(es, y, es[i]);
    }
  }

  lemma AckStaysAccounted(st: FillStation, g: Ledger, given: nat, reportId: int)
    requires Accounted(g, given) && g.held.Some?
    ensures Accounted(LedgerStep(st, g, Ack(reportId)), given)
  {
    hide NewerReport, Recorded, AcksSerial;
    var es := g.held.value;
    var g' := LedgerStep(st, g, Ack(reportId));
    var after := AckEntries(es, reportId);
    assert forall i :: 0 <= i < |es| ==> after[i].serial == es[i].serial;
    forall x | x in after ensures Recorded(g', x) {
      var i :| 0 <= i < |after| && after[i] == x;
      assert es[i] in es && Recorded(g, es[i]);
      AckedEntryIsRecorded(st, g, reportId, i);
    }
    AckOnlyEndsLives(st, g, given, reportId);
    SameSerialsHold(es, after);
  }

  lemma AckOnlyEndsLives(st: FillStation, g: Ledger, given: nat, reportId: int)
    requires Accounted(g, given) && g.held.Some?
    ensures var g' := LedgerStep(st, g, Ack(reportId));
            forall k :: 0 <= k < |g.fates| && g'.fates[k] == Live ==> g.fates[k] == Live
  {
  }

  lemma SerialsAreUnique(es: seq<Entry>, x: Entry, y: Entry)
    requires Ordered(es) && x in es && y in es && x.serial == y.serial
    ensures x == y
  {
    var i :| 0 <= i < |es| && es[i] == x;
    var j :| 0 <= j < |es| && es[j] == y;
    assert i == j;
  }

  lemma StepStaysAccounted(st: FillStation, g: Ledger, given: nat, e: Event)
    requires Accounted(g, given)
    ensures Accounted(LedgerStep(st, g, e), given)
  {
    hide HandleNewReportRead, Hex, Recorded, NewerReport, Ordered;
    var es := g.held.GetOr([]);
    match e
    case Poll(station, read, now) =>
      if station == st && st.reportDb > 0 && read.Some? {
        var last := Back(ReportsOf(es));
        AppendedIsNewer(st, last, read.value, now);
        var report := HandleNewReportRead(st, last, read.value, now);
        if report.Some? {
          assert last.value == Last(es).report;
          AppendStaysAccounted(st, g, given, report.value);
        } else {
          RefreshStaysAccounted(g, given, Hex(read.value));
        }
      }
    case Ack(reportId) =>
      if g.held.Some? {
        AckStaysAccounted(st, g, given, reportId);
      }
    case Config(stations) =>
      ConfigStaysAccounted(st, g, given, stations);
  }

  lemma ConfigStaysAccounted(st: FillStation, g: Ledger, given: nat, stations: seq<FillStation>)
    requires Accounted(g, given)
    ensures Accounted(LedgerStep(st, g, Config(stations)), given)
  {
    var g' := LedgerStep(st, g, Config(stations));
    if st in stations {
      assert forall x :: Recorded(g, x) ==> Recorded(g', x);
    }
  }

  /** Conservation of reports, over every interleaving of polls, acknowledgements and
      configuration updates: the ledger erases to the list, and it accounts for every report
      ever appended. A serial has one fate, and it is live exactly while the list holds it
      unsent; what is held is in append order; two reports appended in a row differ in task,
      or without a task in their times. */
  lemma {:induction false} ReportsAreConserved(st: FillStation, list: Option<seq<PlcReport>>, es: seq<Event>)
    ensures Erase(LedgerRun(st, Open(list), es)) == StationRun(st, list, es)
    ensures Accounted(LedgerRun(st, Open(list), es), Length(list))
  {
    if es == [] {
      OpenIsAccounted(list);
    } else {
      hide Accounted;
      ReportsAreConserved(st, list, Front(es));
      var g := LedgerRun(st, Open(list), Front(es));
      StepErases(st, g, Last(es));
      StepStaysAccounted(st, g, Length(list), Last(es));
    }
  }

  /** No double append: over a whole run, with purges, rewrites and acknowledgements between,
      a report appended right after another one of its station has another task id, or, if it
      has no positive task id, another pair of start and end times. */
  lemma NoDoubleAppend(st: FillStation, list: Option<seq<PlcReport>>, es: seq<Event>, k: nat)
    requires Length(list) <= k < |LedgerRun(st, Open(list), es).born| && k > 0
    ensures var born := LedgerRun(st, Open(list), es).born;
            if born[k].taskId > 0 then born[k].taskId != born[k - 1].taskId
            else born[k].startTime != born[k - 1].startTime || born[k].endTime != born[k - 1].endTime
  {
    ReportsAreConserved(st, list, es);
    assert NewerReport(LedgerRun(st, Open(list), es).born[k - 1], LedgerRun(st, Open(list), es).born[k]);
  }

  // ----- why a report stops being live -----

  /** A live report leaves in three cases and no other: it is acknowledged under its own
      report id; it is the unsent front of a full list at an append, which loses no other;
      or its station is no longer configured. Nothing but an append adds a report. */
  lemma FatesHaveCauses(st: FillStation, g: Ledger, given: nat, e: Event, k: nat)
    requires Accounted(g, given)
    requires k < |g.fates| && g.fates[k] == Live
    ensures var es := g.held.GetOr([]);
            var g' := LedgerStep(st, g, e);
            var appends := e.Poll? && e.station == st && st.reportDb > 0 && e.read.Some?
              && HandleNewReportRead(st, Back(ReportsOf(es)), e.read.value, e.now).Some?;
            && k < |g'.fates| && es != []
            && |g'.born| == |g.born| + (if appends then 1 else 0)
            && (g'.fates[k] == Delivered <==> e == Ack(g.born[k].reportId))
            && (g'.fates[k] == Evicted <==> appends && |es| >= st.reportCount && es[0].serial == k)
            && (g'.fates[k] == Withdrawn <==> e.Config? && st !in e.stations)
  {
    hide HandleNewReportRead, Hex, NewerReport, Ordered;
    var es := g.held.GetOr([]);
    assert Holds(es, k);
    var i :| 0 <= i < |es| && es[i].serial == k;
    assert es[i] in es && Recorded(g, es[i]);
    if e.Ack? && AcksSerial(es, e.reportId, k) {
      var x :| x in es && x.serial == k && x.report.reportId == e.reportId;
      assert Recorded(g, x);
    }
    if es[0].serial == k {
      assert es[0] in es && Recorded(g, es[0]);
    }
  }

  /** The first reports of a ledger are those of the starting list; any later report is that
      of a successful poll of its station, another poll for each: it carries the poll's clock
      reading, the bytes read and the station's id and address. */
  lemma {:induction false} ReportIdsAreClockReadings(st: FillStation, list: Option<seq<PlcReport>>, es: seq<Event>,
                                                     k: nat) returns (i: nat)
    requires k < |LedgerRun(st, Open(list), es).born|
    ensures var born := LedgerRun(st, Open(list), es).born;
            if k < Length(list) then born[k] == list.value[k]
            else i < |es| && es[i].Poll? && es[i].station == st && st.reportDb > 0 && es[i].read.Some?
                 && es[i].now == born[k].reportId && NamesItsStation(born[k], st) && !born[k].sent
                 && Unhex(born[k].hexContent) == es[i].read
                 && |LedgerRun(st, Open(list), es[..i]).born| == k
  {
    i := 0;
    if es != [] {
      hide HandleNewReportRead, Hex;
      var before := LedgerRun(st, Open(list), Front(es));
      BornGrowsByPolls(st, before, Last(es));
      if k < |before.born| {
        i := ReportIdsAreClockReadings(st, list, Front(es), k);
        assert k >= Length(list) ==> Front(es)[..i] == es[..i];
      } else {
        StartingReportsStay(st, list, Front(es));
        i := |es| - 1;
        assert es[..i] == Front(es);
      }
    }
  }

  /** Every report a station holds after a run, unless it was there at the start, names the
      station it was read from, whatever was rewritten or acknowledged since. */
  lemma HeldReportsNameTheirStation(st: FillStation, list: Option<seq<PlcReport>>, es: seq<Event>, x: Entry)
    requires x in LedgerRun(st, Open(list), es).held.GetOr([])
    ensures x.serial >= Length(list) ==> NamesItsStation(x.report, st)
  {
    ReportsAreConserved(st, list, es);
    assert Recorded(LedgerRun(st, Open(list), es), x);
    if x.serial >= Length(list) {
      var i := ReportIdsAreClockReadings(st, list, es, x.serial);
    }
  }

  lemma BornGrowsByPolls(st: FillStation, g: Ledger, e: Event)
    ensures var born := LedgerStep(st, g, e).born;
            || born == g.born
            || (e.Poll? && e.station == st && st.reportDb > 0 && e.read.Some?
                && NamesItsStation(Last(born), st) && !Last(born).sent && Unhex(Last(born).hexContent) == e.read
                && |born| == |g.born| + 1 && Front(born) == g.born && Last(born).reportId == e.now)
  {
    if e.Poll? && e.read.Some? {
      AppendedReportDescribesTheRead(st, Back(ReportsOf(g.held.GetOr([]))), e.read.value, e.now);
    }
    hide HandleNewReportRead, Hex, Unhex, NamesItsStation;
  }

  lemma {:induction false} StartingReportsStay(st: FillStation, list: Option<seq<PlcReport>>, es: seq<Event>)
    ensures |LedgerRun(st, Open(list), es).born| >= Length(list)
  {
    if es != [] {
      StartingReportsStay(st, list, Front(es));
      BornGrowsByPolls(st, LedgerRun(st, Open(list), Front(es)), Last(es));
      hide LedgerStep;
    }
  }

  // ----- acknowledgement is final -----

  /** From `a` to `b`: reports are only added, a fate other than live stays, a sent entry
      that is still held is unchanged in every field, no entry comes back, and only the newest
      report's content is ever rewritten. */
  ghost predicate Advances(a: Ledger, b: Ledger) {
    && a.born <= b.born && |a.fates| <= |b.fates|
    && (forall k :: 0 <= k < |a.fates| && a.fates[k] != Live ==> b.fates[k] == a.fates[k])
    && (forall x, y | x in a.held.GetOr([]) && y in b.held.GetOr([]) ::
          x.serial == y.serial && x.report.sent ==> x == y)
    && (forall y :: y in b.held.GetOr([]) && y.serial < |a.born| ==> Holds(a.held.GetOr([]), y.serial))
    && (forall x, y | x in a.held.GetOr([]) && y in b.held.GetOr([]) ::
          x.serial == y.serial && x.serial < |a.born| - 1 ==> x.report.hexContent == y.report.hexContent)
  }

  lemma AppendAdvances(st: FillStation, g: Ledger, given: nat, report: PlcReport)
    requires Accounted(g, given) && g.held.GetOr([]) != []
    ensures Advances(g, AppendEntry(st, g, g.held.GetOr([]), report))
  {
    hide NewerReport, SameReport;
    var es := g.held.GetOr([]);
    var g' := AppendEntry(st, g, es, report);
    KeptEntries(st, es);
    assert es[0] in es && Recorded(g, es[0]);
    forall y | y in g'.held.value && y.serial < |g.born| ensures y in es && Holds(es, y.serial) && !y.report.sent {
      assert y in Kept(st, es);
    }
    forall x, y | x in es && y in g'.held.value && x.serial == y.serial ensures x == y {
      assert Recorded(g, x);
      SerialsAreUnique(es, x, y);
    }
  }

  lemma SameLengthAdvances(a: Ledger, given: nat, b: Ledger)
    requires Accounted(a, given) && a.born == b.born && |a.fates| == |b.fates|
    requires forall k :: 0 <= k < |a.fates| && a.fates[k] != Live ==> b.fates[k] == a.fates[k]
    requires var es, after := a.held.GetOr([]), b.held.GetOr([]);
             after == [] || (|es| == |after| && forall i :: 0 <= i < |es| ==>
               && after[i].serial == es[i].serial && (es[i].report.sent ==> after[i] == es[i])
               && (i < |es| - 1 ==> after[i].report.hexContent == es[i].report.hexContent))
    ensures Advances(a, b)
  {
    var es, after := a.held.GetOr([]), b.held.GetOr([]);
    forall y | y in after ensures Holds(es, y.serial) {
      var i :| 0 <= i < |after| && after[i] == y;
      assert es[i].serial == y.serial;
    }
    forall x, y | x in es && y in after && x.serial == y.serial
      ensures x.report.sent ==> x == y
      ensures x.serial < |a.born| - 1 ==> x.report.hexContent == y.report.hexContent
    {
      var i :| 0 <= i < |after| && after[i] == y;
      assert es[i] in es;
      SerialsAreUnique(es, x, es[i]);
    }
  }

  lemma StepAdvances(st: FillStation, g: Ledger, given: nat, e: Event)
    requires Accounted(g, given)
    ensures Advances(g, LedgerStep(st, g, e))
  {
    hide HandleNewReportRead, Hex, Advances, Holds;
    var es := g.held.GetOr([]);
    var g' := LedgerStep(st, g, e);
    if e.Poll? && |g'.born| > |g.born| {
      var last := Back(ReportsOf(es));
      AppendedIsNewer(st, last, e.read.value, e.now);
      AppendAdvances(st, g, given, HandleNewReportRead(st, last, e.read.value, e.now).value);
    } else if e.Ack? && g.held.Some? {
      AckKeepsSettledFates(st, g, given, e.reportId);
      SameLengthAdvances(g, given, g');
    } else {
      SameLengthAdvances(g, given, g');
    }
  }

  lemma AckKeepsSettledFates(st: FillStation, g: Ledger, given: nat, reportId: int)
    requires Accounted(g, given) && g.held.Some?
    ensures var g' := LedgerStep(st, g, Ack(reportId));
            forall k :: 0 <= k < |g.fates| && g.fates[k] != Live ==> g'.fates[k] == g.fates[k]
  {
    forall k | 0 <= k < |g.fates| && g.fates[k] != Live && AcksSerial(g.held.value, reportId, k)
      ensures g.fates[k] == Delivered
    {
      var x :| x in g.held.value && x.serial == k && x.report.reportId == reportId;
      assert Recorded(g, x);
    }
  }

  lemma AdvancesIsTransitive(a: Ledger, b: Ledger, c: Ledger, given: nat)
    requires Advances(a, b) && Advances(b, c) && Accounted(a, given) && Accounted(b, given)
    ensures Advances(a, c)
  {
    hide SameReport, NewerReport, Ordered;
    var es, fs, gs := a.held.GetOr([]), b.held.GetOr([]), c.held.GetOr([]);
    forall y | y in gs && y.serial < |a.born| ensures Holds(es, y.serial) {
      var i :| 0 <= i < |fs| && fs[i].serial == y.serial;
      assert fs[i] in fs;
    }
    forall x, y | x in es && y in gs && x.serial == y.serial && x.report.sent ensures x == y {
      assert Recorded(a, x);
      assert Holds(fs, y.serial);
      var i :| 0 <= i < |fs| && fs[i].serial == y.serial;
      assert fs[i] in fs;
    }
  }

  /** Whatever happens later: a delivered, evicted or withdrawn report keeps that fate, `sent`
      never returns to false, a sent report's content never changes, nor does that of any
      report but the newest, and no report that left comes back. */
  lemma {:induction false} AcknowledgementIsFinal(st: FillStation, g: Ledger, given: nat, es: seq<Event>)
    requires Accounted(g, given)
    ensures Accounted(LedgerRun(st, g, es), given)
    ensures Advances(g, LedgerRun(st, g, es))
  {
    if es == [] {
      SameLengthAdvances(g, given, g);
    } else {
      hide Accounted, Advances;
      AcknowledgementIsFinal(st, g, given, Front(es));
      var before := LedgerRun(st, g, Front(es));
      StepStaysAccounted(st, before, given, Last(es));
      StepAdvances(st, before, given, Last(es));
      AdvancesIsTransitive(g, before, LedgerRun(st, g, es), given);
    }
  }
}

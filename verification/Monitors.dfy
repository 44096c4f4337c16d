// The monitor scheduler of src/report/monitor.rs: one iteration of the trigger loop, runs
// of iterations, and the stream of payloads a run sends.
module Monitors {
  import opened Prelude
  import opened Streams

  datatype Monitor = Monitor(
    id: string, merchantId: string, ip: string, port: nat, name: string, code: string,
    dbNumber: nat, offset: nat, blockSize: nat, monitorType: string,
    frequency: nat, resendInterval: nat, forwardAddress: string, localAddress: string)

  datatype MonitorState = MonitorState(
    lastReadTime: Option<U64>, lastSendTime: Option<U64>, data: string, running: bool)

  const FRESH_STATE := MonitorState(None, None, "", false)

  type States = map<string, MonitorState>

  predicate OffsetInBlock(m: Monitor) {
    m.offset <= m.blockSize
  }

  /** The block as sent: zeros up to the offset, the bytes read, zeros to the end. */
  function FullBlock(m: Monitor, data: seq<Byte>): (full: seq<Byte>)
    requires OffsetInBlock(m)
    ensures |full| == m.blockSize
  {
    var n := Min(|data|, m.blockSize - m.offset);
    Zeros(m.offset) + data[..n] + Zeros(m.blockSize - m.offset - n)
  }

  function ShouldRead(m: Monitor, s: MonitorState, now: U64): bool {
    match s.lastReadTime
    case None => true
    case Some(last) => ElapsedMillis(now, last) >= m.frequency
  }

  function Resend(m: Monitor, s: MonitorState, now: U64): (MonitorState, Option<string>) {
    if s.lastSendTime.Some? && ElapsedMillis(now, s.lastSendTime.value) >= m.resendInterval && s.data != ""
    then (s.(lastSendTime := Some(now)), Some(s.data))
    else (s, None)
  }

  /** Slicing the zeroed block at the offset panics beyond the block's end; only a due read
      that the PLC answers gets there. */
  predicate Panics(m: Monitor, s: MonitorState, read: Option<seq<Byte>>, now: U64) {
    !s.running && ShouldRead(m, s, now) && read.Some? && !OffsetInBlock(m)
  }

  /** One iteration for one monitor: the new state and the payload sent, if any. `read` is
      what the PLC answers, should it be asked. A panic leaves the running flag set. */
  function Iterate(m: Monitor, s: MonitorState, read: Option<seq<Byte>>, now: U64): (MonitorState, Option<string>) {
    if s.running then (s, None)
    else if !ShouldRead(m, s, now) || read.None? then Resend(m, s, now)
    else
      var afterRead := s.(lastReadTime := Some(now));
      if !OffsetInBlock(m) then (afterRead.(running := true), None)
      else
        var newData := Hex(FullBlock(m, read.value));
        if newData != s.data
        then (afterRead.(data := newData, lastSendTime := Some(now)), Some(newData))
        else Resend(m, afterRead, now)
  }

  // ----- runs -----

  /** `Turn` is one iteration of the loop; `Forget` drops a state when its monitor is
      reconfigured. The lock is released between iterations, so any order can occur. */
  datatype Event =
    | Turn(monitor: Monitor, read: Option<seq<Byte>>, now: U64)
    | Forget(id: string)

  function StateOf(states: States, id: string): MonitorState {
    if id in states then states[id] else FRESH_STATE
  }

  function StepStates(states: States, e: Event): States {
    match e
    case Turn(m, read, now) => states[m.id := Iterate(m, StateOf(states, m.id), read, now).0]
    case Forget(id) => states - {id}
  }

  function Emitted(states: States, e: Event): seq<Emission> {
    match e
    case Turn(m, read, now) =>
      (match Iterate(m, StateOf(states, m.id), read, now).1
       case Some(payload) => [Emission(m.id, payload, now)]
       case None => [])
    case Forget(_) => []
  }

  function RunStates(states: States, es: seq<Event>): States {
    if es == [] then states else StepStates(RunStates(states, Front(es)), Last(es))
  }

  function RunEmissions(states: States, es: seq<Event>): seq<Emission> {
    if es == [] then []
    else RunEmissions(states, Front(es)) + Emitted(RunStates(states, Front(es)), Last(es))
  }

  lemma {:induction false} RunStatesConcat(states: States, es: seq<Event>, later: seq<Event>)
    ensures RunStates(states, es + later) == RunStates(RunStates(states, es), later)
  {
    if later == [] {
      assert es + later == es;
    } else {
      hide StepStates;
      RunStatesConcat(states, es, Front(later));
      assert Front(es + later) == es + Front(later);
    }
  }

  lemma EmissionsOfOneMore(states: States, es: seq<Event>, before: seq<Emission>, middle: States)
    requires es != [] && before == RunEmissions(states, Front(es)) && middle == RunStates(states, Front(es))
    ensures RunEmissions(states, es) == before + Emitted(middle, Last(es))
  {
    hide RunStates, Emitted;
  }

  lemma AddedInTurn(a: seq<Emission>, b: seq<Emission>, c: seq<Emission>)
    ensures a + (b + c) == (a + b) + c
  {
  }

  lemma {:induction false} RunEmissionsConcat(states: States, es: seq<Event>, later: seq<Event>, middle: States)
    requires middle == RunStates(states, es)
    ensures RunEmissions(states, es + later) == RunEmissions(states, es) + RunEmissions(middle, later)
  {
    if later == [] {
      assert es + later == es;
    } else {
      var all, front := es + later, Front(later);
      assert Front(all) == es + front && Last(all) == Last(later);
      RunEmissionsConcat(states, es, front, middle);
      RunStatesConcat(states, es, front);
      var first, second, end := RunEmissions(states, es), RunEmissions(middle, front), RunStates(middle, front);
      hide RunStates, RunEmissions, Emitted;
      EmissionsOfOneMore(states, all, first + second, end);
      EmissionsOfOneMore(middle, later, second, end);
      AddedInTurn(first, second, Emitted(end, Last(later)));
    }
  }

  /** Ticks in a row are one run: each goes on from the state the last one left, and their
      emissions add up. */
  lemma TicksAreOneRun(states: States, es: seq<Event>, later: seq<Event>)
    ensures RunStates(states, es + later) == RunStates(RunStates(states, es), later)
    ensures RunEmissions(states, es + later)
            == RunEmissions(states, es) + RunEmissions(RunStates(states, es), later)
  {
    RunStatesConcat(states, es, later);
    RunEmissionsConcat(states, es, later, RunStates(states, es));
  }

  // ----- one monitor id -----

  /** What a run does to one id: its state, what it sent and when, what it read and when. */
  datatype Trace = Trace(state: MonitorState, sent: seq<Emission>, blocks: seq<Emission>)

  /** The block an iteration reads, if it is due, answered and does not panic. */
  function BlockRead(m: Monitor, s: MonitorState, read: Option<seq<Byte>>, now: U64): Option<string> {
    if !s.running && ShouldRead(m, s, now) && read.Some? && OffsetInBlock(m)
    then Some(Hex(FullBlock(m, read.value)))
    else None
  }

  function Logged(log: seq<Emission>, id: string, text: Option<string>, at: U64): seq<Emission> {
    if text.Some? then log + [Emission(id, text.value, at)] else log
  }

  function ExtendTrace(t: Trace, id: string, e: Event): Trace {
    if e.Turn? && e.monitor.id == id then
      var (next, out) := Iterate(e.monitor, t.state, e.read, e.now);
      Trace(next,
            Logged(t.sent, id, out, e.now),
            Logged(t.blocks, id, BlockRead(e.monitor, t.state, e.read, e.now), e.now))
    else if e == Forget(id) then t.(state := FRESH_STATE)
    else t
  }

  function TraceOf(id: string, es: seq<Event>): Trace {
    if es == [] then Trace(FRESH_STATE, [], []) else ExtendTrace(TraceOf(id, Front(es)), id, Last(es))
  }

  lemma StepIsProjection(id: string, states: States, t: Trace, e: Event)
    requires StateOf(states, id) == t.state
    ensures StateOf(StepStates(states, e), id) == ExtendTrace(t, id, e).state
    ensures ExtendTrace(t, id, e).sent == t.sent + OfId(Emitted(states, e), id)
  {
    hide Iterate, BlockRead;
    var out := Emitted(states, e);
    assert OfId([], id) == [];
    if out != [] {
      assert Front(out) == [];
    }
  }

  /** The trace of an id is its share of the whole processor's run: monitors with different
      ids do not influence each other. */
  lemma {:induction false} TraceIsProjection(id: string, es: seq<Event>)
    ensures StateOf(RunStates(map[], es), id) == TraceOf(id, es).state
    ensures OfId(RunEmissions(map[], es), id) == TraceOf(id, es).sent
  {
    if es != [] {
      hide StateOf, StepStates, Emitted, ExtendTrace, OfId;
      TraceIsProjection(id, Front(es));
      var before := RunStates(map[], Front(es));
      OfIdConcat(RunEmissions(map[], Front(es)), Emitted(before, Last(es)), id);
      StepIsProjection(id, before, TraceOf(id, Front(es)), Last(es));
    }
  }

  // ----- the payloads sent are the blocks read, with repeats collapsed -----

  ghost predicate Faithful(t: Trace) {
    && !t.state.running
    && Collapse(Payloads(t.sent)) == Collapse(Payloads(t.blocks))
    && (t.state.data != "" ==> t.sent != [] && Last(t.sent).payload == t.state.data)
  }

  /** An own turn sends exactly what it read if that is news, or what it last sent. */
  lemma TurnSendsItsBlockOrItsData(m: Monitor, s: MonitorState, read: Option<seq<Byte>>, now: U64)
    requires !s.running && OffsetInBlock(m) && m.blockSize > 0
    ensures var (next, out) := Iterate(m, s, read, now);
            var block := BlockRead(m, s, read, now);
            && !next.running
            && next.data == block.GetOr(s.data)
            && (block.Some? ==> block.value != "")
            && (block.Some? && block.value != s.data ==> out == block)
            && (out.Some? ==> out.value == next.data && out.value != "")
  {
    hide ElapsedMillis, FullBlock, Hex;
    if read.Some? {
      assert |Hex(FullBlock(m, read.value))| == 2 * m.blockSize;
    }
  }

  lemma StepStaysFaithful(t: Trace, id: string, e: Event)
    requires Faithful(t)
    requires e.Turn? && e.monitor.id == id ==> e.monitor.blockSize > 0 && OffsetInBlock(e.monitor)
    ensures Faithful(ExtendTrace(t, id, e))
  {
    hide Collapse, Payloads, Iterate, BlockRead;
    if e.Turn? && e.monitor.id == id {
      var (next, out) := Iterate(e.monitor, t.state, e.read, e.now);
      var block := BlockRead(e.monitor, t.state, e.read, e.now);
      TurnSendsItsBlockOrItsData(e.monitor, t.state, e.read, e.now);
      SameEnds(t);
      if out.Some? {
        PayloadsSnoc(t.sent, Emission(id, out.value, e.now));
      }
      if block.Some? {
        PayloadsSnoc(t.blocks, Emission(id, block.value, e.now));
      }
    }
  }

  lemma SameEnds(t: Trace)
    requires Faithful(t)
    ensures t.sent == [] <==> t.blocks == []
    ensures t.sent != [] ==> Last(t.sent).payload == Last(t.blocks).payload
  {
    assert Collapse(Payloads(t.sent)) == [] <==> Payloads(t.sent) == [];
    assert t.sent != [] ==> Last(Payloads(t.sent)) == Last(Payloads(t.blocks));
  }

  /** For every run, whatever is read, fails, is resent or is reconfigured, the payloads an
      id sends and the blocks read for it are the same stream once repeats are collapsed;
      the stored data is the last payload sent, and the running flag never stays set. */
  lemma {:induction false} SentIsReadUpToRepeats(id: string, es: seq<Event>)
    requires forall e :: e in es && e.Turn? && e.monitor.id == id ==>
               e.monitor.blockSize > 0 && OffsetInBlock(e.monitor)
    ensures Faithful(TraceOf(id, es))
  {
    if es != [] {
      hide Faithful, ExtendTrace;
      assert Last(es) in es;
      SentIsReadUpToRepeats(id, Front(es));
      StepStaysFaithful(TraceOf(id, Front(es)), id, Last(es));
    } else {
      assert Payloads([]) == [];
    }
  }

  /** Without bytes to watch nothing is ever sent, although reads may succeed. */
  lemma {:induction false} EmptyBlocksAreNeverSent(id: string, es: seq<Event>)
    requires forall e :: e in es && e.Turn? && e.monitor.id == id ==> e.monitor.blockSize == 0
    ensures TraceOf(id, es).sent == [] && TraceOf(id, es).state.data == ""
  {
    if es != [] {
      EmptyBlocksAreNeverSent(id, Front(es));
      assert Last(es) in es;
    }
  }

  // ----- every payload is the padded block of an answer -----

  /** The block, byte by byte, for answers of any length: what was read stands at the offset,
      as far as the block reaches, and every other byte is 0. */
  lemma FullBlockBytes(m: Monitor, data: seq<Byte>, b: nat)
    requires OffsetInBlock(m) && b < m.blockSize
    ensures FullBlock(m, data)[b] == if m.offset <= b < m.offset + |data| then data[b - m.offset] else 0
  {
  }

  /** The payload spells, in hexadecimal, the block of one monitor and one answer. */
  ghost predicate SpellsTheBlock(payload: string, m: Monitor, data: seq<Byte>) {
    && Unhex(payload).Some?
    && var block := Unhex(payload).value;
       |block| == m.blockSize
       && forall b :: 0 <= b < |block| ==>
            block[b] == if m.offset <= b < m.offset + |data| then data[b - m.offset] else 0
  }

  /** Some turn of this id in the run was answered with what the payload spells. */
  ghost predicate IsAnAnswer(id: string, es: seq<Event>, payload: string) {
    exists e :: e in es && e.Turn? && e.monitor.id == id && e.read.Some?
                && SpellsTheBlock(payload, e.monitor, e.read.value)
  }

  lemma BlockReadSpellsTheBlock(m: Monitor, s: MonitorState, read: Option<seq<Byte>>, now: U64)
    ensures var block := BlockRead(m, s, read, now);
            block.Some? ==> read.Some? && SpellsTheBlock(block.value, m, read.value)
  {
    hide Hex, Unhex, ShouldRead;
    if BlockRead(m, s, read, now).Some? {
      UnhexHex(FullBlock(m, read.value));
      forall b | 0 <= b < m.blockSize
        ensures FullBlock(m, read.value)[b]
                == if m.offset <= b < m.offset + |read.value| then read.value[b - m.offset] else 0
      {
        FullBlockBytes(m, read.value, b);
      }
    }
  }

  /** A turn stores and sends what it read, or what was stored before. */
  lemma StoredOrRead(m: Monitor, s: MonitorState, read: Option<seq<Byte>>, now: U64)
    ensures var (next, out) := Iterate(m, s, read, now);
            var block := BlockRead(m, s, read, now);
            && (next.data == s.data || Some(next.data) == block)
            && (out.Some? ==> out == block || (s.data != "" && out == Some(s.data)))
  {
    hide FullBlock, Hex, ShouldRead;
  }

  /** In every run, with reconfigurations, failures and panics, whatever is read, stored or
      sent for an id spells the padded block of one answered turn of that id. */
  lemma {:induction false} PayloadsAreAnswers(id: string, es: seq<Event>)
    ensures var t := TraceOf(id, es);
            && (forall x :: x in t.blocks || x in t.sent ==> IsAnAnswer(id, es, x.payload))
            && (t.state.data != "" ==> IsAnAnswer(id, es, t.state.data))
  {
    if es != [] {
      hide IsAnAnswer, Iterate, BlockRead;
      var front, e := Front(es), Last(es);
      PayloadsAreAnswers(id, front);
      forall payload | IsAnAnswer(id, front, payload) ensures IsAnAnswer(id, es, payload) {
        LaterAnswers(id, es, payload);
      }
      if e.Turn? && e.monitor.id == id {
        StoredOrRead(e.monitor, TraceOf(id, front).state, e.read, e.now);
        TurnIsAnAnswer(id, es, TraceOf(id, front).state);
      }
    }
  }

  lemma LaterAnswers(id: string, es: seq<Event>, payload: string)
    requires es != [] && IsAnAnswer(id, Front(es), payload)
    ensures IsAnAnswer(id, es, payload)
  {
    assert forall e :: e in Front(es) ==> e in es;
  }

  lemma TurnIsAnAnswer(id: string, es: seq<Event>, s: MonitorState)
    requires es != [] && Last(es).Turn? && Last(es).monitor.id == id
    ensures var e := Last(es);
            var block := BlockRead(e.monitor, s, e.read, e.now);
            block.Some? ==> IsAnAnswer(id, es, block.value)
  {
    hide SpellsTheBlock, BlockRead;
    assert Last(es) in es;
    BlockReadSpellsTheBlock(Last(es).monitor, s, Last(es).read, Last(es).now);
  }

  // ----- offsets beyond the block -----

  /** A panic leaves its id stuck: no iteration for it changes or sends anything. */
  lemma OnlyPanicsSetRunning(m: Monitor, s: MonitorState, read: Option<seq<Byte>>, now: U64)
    ensures s.running ==> Iterate(m, s, read, now) == (s, None) && BlockRead(m, s, read, now) == None
    ensures !s.running ==> (Iterate(m, s, read, now).0.running <==> Panics(m, s, read, now))
  {
  }

  /** Turn `i` of a run is an answered one of this id, whose state was not dropped since. */
  ghost predicate AnsweredAt(id: string, es: seq<Event>, i: nat) {
    && i < |es| && es[i].Turn? && es[i].monitor.id == id && es[i].read.Some?
    && forall j :: i < j < |es| ==> es[j] != Forget(id)
  }

  lemma AnsweredBefore(id: string, es: seq<Event>)
    requires es != []
    ensures var e := Last(es);
            (exists i: nat :: AnsweredAt(id, es, i)) <==>
            || (e.Turn? && e.monitor.id == id && e.read.Some?)
            || (e != Forget(id) && exists i: nat :: AnsweredAt(id, Front(es), i))
  {
    var front, e, n := Front(es), Last(es), |es| - 1;
    if i: nat :| AnsweredAt(id, es, i) {
      if i < n {
        assert es[n] == e;
        assert forall j :: i < j < n ==> front[j] == es[j];
        assert AnsweredAt(id, front, i);
      }
    }
    if e.Turn? && e.monitor.id == id && e.read.Some? {
      assert AnsweredAt(id, es, n);
    }
    if e != Forget(id) && exists i: nat :: AnsweredAt(id, front, i) {
      var i: nat :| AnsweredAt(id, front, i);
      assert forall j :: i < j < |es| ==> es[j] == if j < n then front[j] else e;
      assert AnsweredAt(id, es, i);
    }
  }

  /** If all monitors under an id have their offset beyond the block, no run ever reads a
      block for it or sends anything. Its running flag is set exactly when the PLC has
      answered a turn since the state was last dropped, and until then the state is fresh:
      so the first answer panics, and nothing but a reconfiguration ends the standstill. */
  lemma {:induction false} PanickedMonitorsAreStuck(id: string, es: seq<Event>)
    requires forall e :: e in es && e.Turn? && e.monitor.id == id ==> !OffsetInBlock(e.monitor)
    ensures var t := TraceOf(id, es);
            && t.sent == [] && t.blocks == []
            && (t.state.running <==> exists i: nat :: AnsweredAt(id, es, i))
            && (!t.state.running ==> t.state == FRESH_STATE)
            && t.state.data == "" && t.state.lastSendTime == None
  {
    if es != [] {
      hide AnsweredAt;
      assert Last(es) in es;
      PanickedMonitorsAreStuck(id, Front(es));
      AnsweredBefore(id, es);
    }
  }

  // ----- timing -----

  /** A monitor that stays configured, alone under its id, in a run with any other monitors,
      on a clock that does not run backwards from turn to turn. */
  ghost predicate StaysConfigured(m: Monitor, es: seq<Event>) {
    && OffsetInBlock(m)
    && (forall e :: e in es && e.Turn? && e.monitor.id == m.id ==> e.monitor == m)
    && Forget(m.id) !in es
    && (forall i, j :: 0 <= i <= j < |es| && es[i].Turn? && es[j].Turn? ==> es[i].now <= es[j].now)
  }

  /** The id's latest turn in a run. */
  function LastTurn(id: string, es: seq<Event>): Option<Event> {
    if es == [] then None
    else if Last(es).Turn? && Last(es).monitor.id == id then Some(Last(es))
    else LastTurn(id, Front(es))
  }

  function LastTime(id: string, es: seq<Event>): U64 {
    match LastTurn(id, es)
    case Some(e) => (if e.Turn? then e.now else 0)
    case None => 0
  }

  ghost predicate SendsOnTime(m: Monitor, t: Trace, now: U64) {
    && RepeatsSpacedBy(t.sent, m.resendInterval)
    && (m.blockSize == 0 ==> t.sent == [])
    && (t.state.data == "" <==> t.sent == []) && (t.state.lastSendTime.None? <==> t.sent == [])
    && (t.sent != [] ==>
        && t.state.data == Last(t.sent).payload
        && t.state.lastSendTime == Some(Last(t.sent).at)
        && Last(t.sent).at <= now
        && (m.resendInterval > 0 ==> now - Last(t.sent).at < m.resendInterval))
  }

  ghost predicate ReadsOnTime(m: Monitor, t: Trace, now: U64) {
    && SpacedBy(t.blocks, m.frequency)
    && (t.state.lastReadTime.None? <==> t.blocks == [])
    && (t.blocks != [] ==> t.state.lastReadTime == Some(Last(t.blocks).at) && Last(t.blocks).at <= now)
  }

  ghost predicate RecentlyRead(m: Monitor, t: Trace, now: U64) {
    t.blocks != [] && (m.frequency > 0 ==> now - Last(t.blocks).at < m.frequency)
  }

  lemma SendTurnIsOnTime(m: Monitor, t: Trace, before: U64, e: Event)
    requires OffsetInBlock(m) && e.Turn? && e.monitor == m && before <= e.now
    requires SendsOnTime(m, t, before) && !t.state.running
    ensures SendsOnTime(m, ExtendTrace(t, m.id, e), e.now) && !ExtendTrace(t, m.id, e).state.running
  {
    hide FullBlock, Hex;
    if e.read.Some? {
      assert |Hex(FullBlock(m, e.read.value))| == 2 * m.blockSize;
      assert m.blockSize == 0 ==> Hex(FullBlock(m, e.read.value)) == "";
    }
    var t' := ExtendTrace(t, m.id, e);
    if t'.sent != t.sent {
      var x := Last(t'.sent);
      assert t'.sent == t.sent + [x];
      assert t.sent != [] && x.payload == Last(t.sent).payload ==> x.at - Last(t.sent).at >= m.resendInterval;
    }
  }

  lemma ReadTurnIsOnTime(m: Monitor, t: Trace, before: U64, e: Event)
    requires OffsetInBlock(m) && e.Turn? && e.monitor == m && before <= e.now
    requires ReadsOnTime(m, t, before) && !t.state.running
    ensures ReadsOnTime(m, ExtendTrace(t, m.id, e), e.now)
    ensures e.read.Some? ==> RecentlyRead(m, ExtendTrace(t, m.id, e), e.now)
  {
    hide FullBlock, Hex;
    var t' := ExtendTrace(t, m.id, e);
    if t'.blocks != t.blocks {
      var x := Last(t'.blocks);
      assert t'.blocks == t.blocks + [x];
      assert t.blocks != [] ==> x.at - Last(t.blocks).at >= m.frequency;
    }
  }

  lemma {:induction false} LastTurnIsATurn(id: string, es: seq<Event>)
    ensures var e := LastTurn(id, es);
            e.Some? ==> e.value in es && e.value.Turn? && e.value.monitor.id == id
  {
    if es != [] {
      assert Last(es) in es;
      LastTurnIsATurn(id, Front(es));
    }
  }

  lemma EarlierTurnsAreEarlier(m: Monitor, es: seq<Event>)
    requires es != [] && StaysConfigured(m, es)
    ensures StaysConfigured(m, Front(es))
    ensures Last(es).Turn? ==> LastTime(m.id, Front(es)) <= Last(es).now
  {
    var front := Front(es);
    assert forall e :: e in front ==> e in es;
    LastTurnIsATurn(m.id, front);
    if Last(es).Turn? && LastTurn(m.id, front).Some? {
      var i :| 0 <= i < |front| && front[i] == LastTurn(m.id, front).value;
      assert es[i].now <= es[|es| - 1].now;
    }
  }

  /** For a monitor that stays configured, in every run with any other monitors turning,
      failing or being reconfigured: equal payloads it sends in a row are at least the resend
      interval apart, successful reads at least the frequency apart. At its latest turn, with
      stored data, the last send is younger than the resend interval, failed read or not; and
      if the PLC answered that turn, the last block read is younger than the frequency. */
  lemma {:induction false} MonitorTiming(m: Monitor, es: seq<Event>)
    requires StaysConfigured(m, es)
    ensures var t := TraceOf(m.id, es);
            && SendsOnTime(m, t, LastTime(m.id, es)) && ReadsOnTime(m, t, LastTime(m.id, es))
            && !t.state.running
    ensures var turn := LastTurn(m.id, es);
            turn.Some? && turn.value.Turn? && turn.value.read.Some? ==>
              RecentlyRead(m, TraceOf(m.id, es), turn.value.now)
  {
    if es != [] {
      hide ExtendTrace, SendsOnTime, ReadsOnTime, RecentlyRead, StaysConfigured;
      var front, e := Front(es), Last(es);
      EarlierTurnsAreEarlier(m, es);
      MonitorTiming(m, front);
      var t, before := TraceOf(m.id, front), LastTime(m.id, front);
      if e.Turn? && e.monitor.id == m.id {
        OwnTurn(m, es);
        SendTurnIsOnTime(m, t, before, e);
        ReadTurnIsOnTime(m, t, before, e);
      } else {
        OtherEventsDoNotMatter(m, es, t);
      }
    }
  }

  lemma OwnTurn(m: Monitor, es: seq<Event>)
    requires es != [] && StaysConfigured(m, es) && Last(es).Turn? && Last(es).monitor.id == m.id
    ensures Last(es).monitor == m && OffsetInBlock(m)
  {
    assert Last(es) in es;
  }

  lemma OtherEventsDoNotMatter(m: Monitor, es: seq<Event>, t: Trace)
    requires es != [] && StaysConfigured(m, es) && !(Last(es).Turn? && Last(es).monitor.id == m.id)
    ensures ExtendTrace(t, m.id, Last(es)) == t
  {
    assert Last(es) in es;
  }

  // ----- configuration -----

  function UpdatedStates(monitors: set<Monitor>, states: States, next: set<Monitor>): States {
    states - set m | m in monitors && m !in next :: m.id
  }

  function Forgets(ids: seq<string>): (es: seq<Event>)
    ensures |es| == |ids|
  {
    seq(|ids|, i requires 0 <= i < |ids| => Forget(ids[i]))
  }

  lemma {:induction false} ForgettingRemoves(states: States, ids: seq<string>)
    ensures RunStates(states, Forgets(ids)) == states - set id | id in ids
  {
    if ids == [] {
      assert Forgets(ids) == [];
    } else {
      ForgettingRemoves(states, Front(ids));
      assert Front(Forgets(ids)) == Forgets(Front(ids)) && Last(Forgets(ids)) == Forget(Last(ids));
      assert forall id :: id in ids <==> id in Front(ids) || id == Last(ids);
    }
  }

  /** A reconfiguration is a run of removals, in any order: of the ids of the monitors that
      are no longer configured exactly as they were. */
  lemma UpdatesForgetTheDropped(monitors: set<Monitor>, states: States, next: set<Monitor>, ids: seq<string>)
    requires forall id :: id in ids <==> exists m :: m in monitors && m !in next && m.id == id
    ensures UpdatedStates(monitors, states, next) == RunStates(states, Forgets(ids))
  {
    ForgettingRemoves(states, ids);
    assert (set id | id in ids) == set m | m in monitors && m !in next :: m.id;
  }

  /** The turns of a tick that visits monitors in this order, with the i-th answer each. */
  function TurnsOf(order: seq<Monitor>, answers: seq<Option<seq<Byte>>>, now: U64): (turns: seq<Event>)
    requires |order| <= |answers|
    ensures |turns| == |order|
  {
    seq(|order|, i requires 0 <= i < |order| => Turn(order[i], answers[i], now))
  }

  /** Turn `i` of a tick panics in the state the turns before it leave. */
  ghost predicate TurnPanics(states: States, order: seq<Monitor>, answers: seq<Option<seq<Byte>>>, now: U64, i: nat)
    requires i < |order| <= |answers|
  {
    var before := RunStates(states, TurnsOf(order[..i], answers, now));
    Panics(order[i], StateOf(before, order[i].id), answers[i], now)
  }

  lemma OneMoreTurn(states: States, order: seq<Monitor>, m: Monitor, answers: seq<Option<seq<Byte>>>, now: U64)
    requires |order| < |answers|
    ensures var turns, turn := TurnsOf(order, answers, now), Turn(m, answers[|order|], now);
            var longer := TurnsOf(order + [m], answers, now);
            && RunStates(states, longer) == StepStates(RunStates(states, turns), turn)
            && RunEmissions(states, longer) == RunEmissions(states, turns) + Emitted(RunStates(states, turns), turn)
            && (TurnPanics(states, order + [m], answers, now, |order|)
                <==> Panics(m, StateOf(RunStates(states, turns), m.id), answers[|order|], now))
            && forall i :: 0 <= i < |order| ==>
                 TurnPanics(states, order + [m], answers, now, i) == TurnPanics(states, order, answers, now, i)
  {
    hide StepStates, Emitted;
    var turns, turn := TurnsOf(order, answers, now), Turn(m, answers[|order|], now);
    var longer := TurnsOf(order + [m], answers, now);
    assert longer == turns + [turn];
    assert Front(longer) == turns && Last(longer) == turn;
    assert (order + [m])[..|order|] == order;
    hide Panics, StateOf, RunStates;
    assert forall i :: 0 <= i < |order| ==> (order + [m])[..i] == order[..i];
  }

  lemma {:induction false} OthersTurnNothing(states: States, order: seq<Monitor>, answers: seq<Option<seq<Byte>>>,
                                             now: U64, id: string)
    requires |order| <= |answers| && forall j :: 0 <= j < |order| ==> order[j].id != id
    ensures StateOf(RunStates(states, TurnsOf(order, answers, now)), id) == StateOf(states, id)
    ensures OfId(RunEmissions(states, TurnsOf(order, answers, now)), id) == []
  {
    if order == [] {
      assert TurnsOf(order, answers, now) == [];
    } else {
      var front, m := Front(order), Last(order);
      assert m.id != id && order == front + [m];
      OthersTurnNothing(states, front, answers, now, id);
      var before := RunStates(states, TurnsOf(front, answers, now));
      OneMoreTurn(states, front, m, answers, now);
      OneTurnOfATick(before, m, answers[|front|], now, id);
      OfIdConcat(RunEmissions(states, TurnsOf(front, answers, now)),
                 Emitted(before, Turn(m, answers[|front|], now)), id);
    }
  }

  lemma OneTurnOfATick(states: States, m: Monitor, read: Option<seq<Byte>>, now: U64, id: string)
    ensures var (next, out) := Iterate(m, StateOf(states, m.id), read, now);
            var after, sent := StateOf(StepStates(states, Turn(m, read, now)), id), Emitted(states, Turn(m, read, now));
            if id == m.id
            then after == next && OfId(sent, id) == if out.Some? then [Emission(id, out.value, now)] else []
            else after == StateOf(states, id) && OfId(sent, id) == []
  {
    hide Iterate;
    var sent := Emitted(states, Turn(m, read, now));
    assert OfId([], id) == [];
    if sent != [] {
      assert Front(sent) == [];
    }
  }

  /** Whatever the order of a tick, a monitor alone under its id takes one turn, from the
      state before the tick, with its own answer, and sends what that turn sends. */
  lemma {:induction false} TicksTurnEachMonitorOnce(states: States, order: seq<Monitor>,
                                                    answers: seq<Option<seq<Byte>>>, now: U64, i: nat)
    requires i < |order| <= |answers|
    requires forall j :: 0 <= j < |order| && j != i ==> order[j].id != order[i].id
    ensures var (next, out) := Iterate(order[i], StateOf(states, order[i].id), answers[i], now);
            var turns := TurnsOf(order, answers, now);
            && StateOf(RunStates(states, turns), order[i].id) == next
            && OfId(RunEmissions(states, turns), order[i].id)
               == if out.Some? then [Emission(order[i].id, out.value, now)] else []
  {
    hide Iterate, StepStates, Emitted, RunStates, RunEmissions, StateOf, OfId, TurnsOf;
    var front, m, id := Front(order), Last(order), order[i].id;
    var before := RunStates(states, TurnsOf(front, answers, now));
    assert order == front + [m];
    OneMoreTurn(states, front, m, answers, now);
    OneTurnOfATick(before, m, answers[|front|], now, id);
    OfIdConcat(RunEmissions(states, TurnsOf(front, answers, now)), Emitted(before, Turn(m, answers[|front|], now)), id);
    if i == |front| {
      OthersTurnNothing(states, front, answers, now, id);
    } else {
      TicksTurnEachMonitorOnce(states, front, answers, now, i);
    }
  }

  class MonitorProcessor {
    var monitors: set<Monitor>
    var states: States
    var fillStations: map<string, (string, nat)>

    constructor ()
      ensures monitors == {} && states == map[] && fillStations == map[]
    {
      monitors, states, fillStations := {}, map[], map[];
    }

    /** Both loops of update_monitors, each over a difference of sets. */
    method UpdateMonitors(newMonitors: seq<Monitor>)
      modifies `monitors, `states
      ensures monitors == set m | m in newMonitors
      ensures states == UpdatedStates(old(monitors), old(states), monitors)
    {
      var newSet := set m | m in newMonitors;
      var toRemove := monitors - newSet;
      ghost var allRemoved := toRemove;
      while toRemove != {}
        invariant toRemove <= allRemoved
        invariant monitors == old(monitors) - (allRemoved - toRemove)
        invariant states == old(states) - set m | m in allRemoved - toRemove :: m.id
        decreases toRemove
      {
        var m :| m in toRemove;
        ghost var done := allRemoved - toRemove;
        toRemove := toRemove - {m};
        monitors := monitors - {m};
        states := states - {m.id};
        assert allRemoved - toRemove == done + {m};
        assert (set n | n in done + {m} :: n.id) == (set n | n in done :: n.id) + {m.id};
      }
      assert (set m | m in allRemoved :: m.id) == set m | m in old(monitors) && m !in newSet :: m.id;
      var toAdd := newSet - monitors;
      ghost var kept := states;
      while toAdd != {}
        invariant states == kept
        invariant toAdd <= newSet && monitors <= newSet
        invariant monitors + toAdd == newSet
        decreases toAdd
      {
        var m :| m in toAdd;
        toAdd := toAdd - {m};
        monitors := monitors + {m};
      }
    }

    method UpdateFillStations(stations: seq<(string, (string, nat))>)
      modifies `fillStations
      ensures fillStations == InsertAll(old(fillStations), stations)
    {
      for i := 0 to |stations|
        invariant fillStations == InsertAll(old(fillStations), stations[..i])
      {
        assert Front(stations[..i + 1]) == stations[..i];
        fillStations := fillStations[stations[i].0 := stations[i].1];
      }
      assert stations[..|stations|] == stations;
    }

    /** One iteration of the trigger loop, under the lock on the states. */
    method TriggerMonitor(m: Monitor, read: Option<seq<Byte>>, now: U64)
      returns (messages: seq<Emission>, panicked: bool)
      modifies `states
      ensures states == StepStates(old(states), Turn(m, read, now))
      ensures messages == Emitted(old(states), Turn(m, read, now))
      ensures panicked == Panics(m, StateOf(old(states), m.id), read, now)
    {
      hide FullBlock, Hex;
      messages, panicked := [], false;
      var state := if m.id in states then states[m.id] else FRESH_STATE;
      states := states[m.id := state];
      if state.running {
        return;
      }
      var shouldRead := state.lastReadTime.None? || ElapsedMillis(now, state.lastReadTime.value) >= m.frequency;
      if shouldRead {
        state := state.(running := true);
        var oldData := state.data;
        if read.Some? {
          state := state.(lastReadTime := Some(now));
          if m.offset > m.blockSize {
            states := states[m.id := state];
            return [], true;
          }
          var newData := Hex(FullBlock(m, read.value));
          if newData != oldData {
            state := state.(data := newData, lastSendTime := Some(now), running := false);
            states := states[m.id := state];
            return [Emission(m.id, newData, now)], false;
          }
        }
        state := state.(running := false);
      }
      var shouldResend := state.lastSendTime.Some?
        && ElapsedMillis(now, state.lastSendTime.value) >= m.resendInterval;
      if shouldResend && state.data != "" {
        state := state.(lastSendTime := Some(now));
        messages := [Emission(m.id, state.data, now)];
      }
      states := states[m.id := state];
    }

    /** The whole tick: every configured monitor once, in the arbitrary order of the hash
        set, unless an iteration panics, which ends the tick and loses its messages. The i-th
        monitor visited is answered by `answers[i]`. */
    method TriggerMonitorsDirect(answers: seq<Option<seq<Byte>>>, now: U64)
      returns (messages: seq<Emission>, panicked: bool, ghost order: seq<Monitor>)
      requires |answers| == |monitors|
      modifies `states
      ensures |order| <= |answers|
      ensures exists visited :: visited <= monitors && Enumerates(order, visited)
      ensures !panicked ==> Enumerates(order, monitors)
      ensures states == RunStates(old(states), TurnsOf(order, answers, now))
      ensures messages == if panicked then [] else RunEmissions(old(states), TurnsOf(order, answers, now))
      ensures panicked <==> order != [] && TurnPanics(old(states), order, answers, now, |order| - 1)
      ensures forall i :: 0 <= i < |order| - 1 ==> !TurnPanics(old(states), order, answers, now, i)
      ensures (forall m :: m in monitors ==> OffsetInBlock(m)) ==> !panicked
    {
      messages, panicked, order := [], false, [];
      assert TurnsOf(order, answers, now) == [];
      var pending := monitors;
      while pending != {}
        invariant pending <= monitors && |order| + |pending| == |answers|
        invariant Enumerates(order, monitors - pending)
        invariant states == RunStates(old(states), TurnsOf(order, answers, now))
        invariant messages == RunEmissions(old(states), TurnsOf(order, answers, now))
        invariant forall i :: 0 <= i < |order| ==> !TurnPanics(old(states), order, answers, now, i)
        decreases pending
      {
        hide StepStates, Emitted, StateOf, RunStates, RunEmissions, TurnsOf, Enumerates, TurnPanics;
        var m :| m in pending;
        var sent, stopped := TriggerMonitor(m, answers[|answers| - |pending|], now);
        OneMoreTurn(old(states), order, m, answers, now);
        OneMoreVisited(order, m, monitors, pending);
        order := order + [m];
        pending := pending - {m};
        if stopped {
          return [], true, order;
        }
        messages := messages + sent;
      }
      assert monitors - pending == monitors;
    }
  }
}

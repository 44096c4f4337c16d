// The plcInfo and reportSubmitted commands of the cloud session (src/grpc/cloud.rs:393-449,
// 600-606) and why skipping an unchanged configuration is sound.
module Cloud {
  import opened Prelude
  import opened Text
  import opened BlockCodec
  import opened Streams
  import opened StatusStream
  import Reports
  import ReportCache
  import Monitors
  import Deploy

  datatype PlcConfig = PlcConfig(id: string, ip: string, port: nat)

  /** One element of the detail's JSON array, as far as the PLC list looks at it. */
  datatype PlcItem = PlcItem(id: Option<string>, ipAddress: Option<string>, portNumber: Option<nat>)

  /** What the JSON library makes of a detail; `items` is None unless it is an array. */
  datatype PlcInfo = PlcInfo(
    items: Option<seq<PlcItem>>, stations: seq<Reports.FillStation>,
    monitors: seq<Monitors.Monitor>, definitions: seq<BlockDefinition>)

  /** Items with all three parts; the port is cut to sixteen bits. */
  function PlcList(items: seq<PlcItem>): seq<PlcConfig> {
    if items == [] then []
    else
      var before, item := PlcList(Front(items)), Last(items);
      if item.id.Some? && item.ipAddress.Some? && item.portNumber.Some?
      then before + [PlcConfig(item.id.value, item.ipAddress.value, item.portNumber.value % 0x1_0000)]
      else before
  }

  function Plcs(info: PlcInfo): seq<PlcConfig> {
    if info.items.None? then [] else PlcList(info.items.value)
  }

  function StationAddresses(stations: seq<Reports.FillStation>): seq<(string, (string, nat))> {
    seq(|stations|, i requires 0 <= i < |stations| => (stations[i].id, (stations[i].ip, stations[i].port)))
  }

  function NamedDefinitions(definitions: seq<BlockDefinition>): seq<(string, BlockDefinition)> {
    seq(|definitions|, i requires 0 <= i < |definitions| => (definitions[i].javaType, definitions[i]))
  }

  // ----- the node's state -----

  datatype NodeState = NodeState(
    lastDetail: string,
    plcs: seq<PlcConfig>,
    caches: ReportCache.Caches,
    monitors: set<Monitors.Monitor>,
    states: Monitors.States,
    addresses: map<string, (string, nat)>,
    meta: map<string, BlockDefinition>,
    status: StatusState)

  const FRESH_NODE := NodeState("", [], map[], {}, map[], map[], map[], NO_STATUS)

  function Apply(n: NodeState, info: PlcInfo): NodeState {
    var monitors := if info.monitors == [] then n.monitors else set m | m in info.monitors;
    n.(plcs := Plcs(info),
       caches := if info.stations == [] then n.caches else ReportCache.Step(n.caches, Reports.Config(info.stations)),
       monitors := monitors,
       states := Monitors.UpdatedStates(n.monitors, n.states, monitors),
       meta := InsertAll(n.meta, NamedDefinitions(info.definitions)),
       addresses := InsertAll(n.addresses, StationAddresses(info.stations)))
  }

  /** The plcInfo command. `always` is the variant that re-applies equal details too. */
  function HandlePlcInfo(n: NodeState, detail: string, info: PlcInfo, always: bool): NodeState {
    if Plcs(info) == [] then n
    else if always || n.lastDetail != detail then Apply(n.(lastDetail := detail), info)
    else n
  }

  /** A report id must parse as an i64, otherwise the command is ignored. */
  function HandleReportSubmitted(n: NodeState, detail: string): NodeState {
    match ParseInt(detail, -0x8000_0000_0000_0000, 0x7FFF_FFFF_FFFF_FFFF)
    case Some(id) => n.(caches := ReportCache.Step(n.caches, Reports.Ack(id)))
    case None => n
  }

  /** Commands, and whole ticks of the three senders. */
  datatype NodeEvent =
    | PlcInfoCommand(detail: string)
    | ReportSubmitted(detail: string)
    | ReportTick(polls: seq<Reports.Event>)
    | MonitorTick(turns: seq<Monitors.Event>)
    | StatusTick(readings: seq<Emission>)

  /** A whole report tick polls only stations that are configured when it runs. */
  ghost predicate Possible(n: NodeState, e: NodeEvent) {
    match e
    case ReportTick(polls) => forall p :: p in polls ==> p.Poll? && p.station in n.caches
    case _ => true
  }

  ghost function NodeStep(n: NodeState, e: NodeEvent, parse: string -> PlcInfo, always: bool): NodeState {
    match e
    case PlcInfoCommand(detail) => HandlePlcInfo(n, detail, parse(detail), always)
    case ReportSubmitted(detail) => HandleReportSubmitted(n, detail)
    case ReportTick(polls) => n.(caches := ReportCache.Run(n.caches, polls))
    case MonitorTick(turns) => n.(states := Monitors.RunStates(n.states, turns))
    case StatusTick(readings) => n.(status := ObserveAll(n.status, readings))
  }

  ghost function NodeRun(n: NodeState, es: seq<NodeEvent>, parse: string -> PlcInfo, always: bool): NodeState {
    if es == [] then n else NodeStep(NodeRun(n, Front(es), parse, always), Last(es), parse, always)
  }

  ghost predicate PossibleRun(n: NodeState, es: seq<NodeEvent>, parse: string -> PlcInfo) {
    es == [] || (PossibleRun(n, Front(es), parse) && Possible(NodeRun(n, Front(es), parse, true), Last(es)))
  }

  // ----- re-applying the last detail changes nothing -----

  /** The five shared caches a command updates, in the source's order. */
  datatype Part = PlcPart | StationPart | MonitorPart | MetaPart | AddressPart

  /** This part of the state already is what applying `info` would make it. */
  ghost predicate SettledPart(n: NodeState, info: PlcInfo, part: Part) {
    match part
    case PlcPart => n.plcs == Plcs(info)
    case StationPart => info.stations != [] ==> n.caches.Keys == set st | st in info.stations
    case MonitorPart => info.monitors != [] ==> n.monitors == set m | m in info.monitors
    case MetaPart => n.meta + InsertAll(map[], NamedDefinitions(info.definitions)) == n.meta
    case AddressPart => n.addresses + InsertAll(map[], StationAddresses(info.stations)) == n.addresses
  }

  ghost predicate Settled(n: NodeState, info: PlcInfo) {
    forall part: Part :: SettledPart(n, info, part)
  }

  lemma ApplySettles(n: NodeState, info: PlcInfo)
    ensures Settled(Apply(n, info), info)
  {
    forall part: Part ensures SettledPart(Apply(n, info), info, part) {
      ApplySettlesPart(n, info, part);
    }
  }

  lemma ApplySettlesPart(n: NodeState, info: PlcInfo, part: Part)
    ensures SettledPart(Apply(n, info), info, part)
  {
    var definitions, addresses := NamedDefinitions(info.definitions), StationAddresses(info.stations);
    InsertAllIsOneUpdate(n.meta, definitions);
    InsertAllIsOneUpdate(n.addresses, addresses);
    UpdateTwice(n.meta, InsertAll(map[], definitions));
    UpdateTwice(n.addresses, InsertAll(map[], addresses));
  }

  lemma UpdateTwice<K, V>(a: map<K, V>, b: map<K, V>)
    ensures (a + b) + b == a + b
  {
  }

  /** Re-applying a detail changes nothing exactly when every part is settled for it. */
  lemma SettledIsFixed(n: NodeState, info: PlcInfo)
    ensures Apply(n, info) == n <==> Settled(n, info)
  {
    ApplySettles(n, info);
    if Settled(n, info) {
      SettledPartsAreFixed(n, info);
    }
  }

  lemma SettledPartsAreFixed(n: NodeState, info: PlcInfo)
    requires Settled(n, info)
    ensures Apply(n, info) == n
  {
    assert SettledPart(n, info, PlcPart) && SettledPart(n, info, StationPart) && SettledPart(n, info, MonitorPart);
    assert SettledPart(n, info, MetaPart) && SettledPart(n, info, AddressPart);
    InsertAllIsOneUpdate(n.meta, NamedDefinitions(info.definitions));
    InsertAllIsOneUpdate(n.addresses, StationAddresses(info.stations));
    assert Monitors.UpdatedStates(n.monitors, n.states, n.monitors) == n.states;
    if info.stations != [] {
      assert ReportCache.Step(n.caches, Reports.Config(info.stations)) == n.caches;
    }
  }

  /** Either no detail was applied yet, or the state is settled for the last one. */
  ghost predicate Consistent(n: NodeState, parse: string -> PlcInfo) {
    Plcs(parse(n.lastDetail)) == [] || Settled(n, parse(n.lastDetail))
  }

  lemma PollsKeepStations(c: ReportCache.Caches, polls: seq<Reports.Event>)
    requires forall p :: p in polls ==> p.Poll? && p.station in c
    ensures ReportCache.Run(c, polls).Keys == c.Keys
  {
    ReportCache.PollsAddTheirStations(c, polls);
  }

  /** What happens between plcInfo commands keeps the stations, the monitors and the rest of
      what a detail determines; only reports, monitor states and statuses change. */
  lemma OtherEventsKeepTheParts(n: NodeState, e: NodeEvent, parse: string -> PlcInfo, always: bool)
    requires !e.PlcInfoCommand? && Possible(n, e)
    ensures var after := NodeStep(n, e, parse, always);
            && after.caches.Keys == n.caches.Keys
            && after == n.(caches := after.caches, states := after.states, status := after.status)
  {
    if e.ReportTick? {
      PollsKeepStations(n.caches, e.polls);
    }
  }

  lemma StepStaysConsistent(n: NodeState, e: NodeEvent, parse: string -> PlcInfo)
    requires Consistent(n, parse) && Possible(n, e)
    ensures Consistent(NodeStep(n, e, parse, true), parse)
    ensures NodeStep(n, e, parse, true) == NodeStep(n, e, parse, false)
  {
    hide SettledPart, Apply, Plcs;
    match e
    case PlcInfoCommand(detail) =>
      var info := parse(detail);
      hide Settled;
      ApplySettles(n.(lastDetail := detail), info);
      AppliedKeepsTheDetail(n.(lastDetail := detail), info);
      if n.lastDetail == detail && Plcs(info) != [] {
        assert n.(lastDetail := detail) == n;
        SettledIsFixed(n, info);
      }
    case _ =>
      StaysSettled(n, NodeStep(n, e, parse, true), e, parse);
  }

  lemma AppliedKeepsTheDetail(n: NodeState, info: PlcInfo)
    ensures Apply(n, info).lastDetail == n.lastDetail
  {
  }

  lemma StaysSettled(n: NodeState, after: NodeState, e: NodeEvent, parse: string -> PlcInfo)
    requires !e.PlcInfoCommand? && Possible(n, e) && after == NodeStep(n, e, parse, true)
    ensures after.lastDetail == n.lastDetail
    ensures forall info, part :: SettledPart(n, info, part) ==> SettledPart(after, info, part)
  {
    OtherEventsKeepTheParts(n, e, parse, true);
    hide NodeStep, Possible, Plcs;
  }

  /** Skipping an unchanged plcInfo is sound: over every run of commands handled one at a
      time, whole ticks and acknowledgements, the node that skips equal details and the node
      that always re-applies them are in the same state: PLC list, stations and reports,
      monitors and their states, deploy addresses, metadata and statuses. */
  lemma {:induction false} SkippingIsSound(n: NodeState, es: seq<NodeEvent>, parse: string -> PlcInfo)
    requires Consistent(n, parse) && PossibleRun(n, es, parse)
    ensures NodeRun(n, es, parse, false) == NodeRun(n, es, parse, true)
    ensures Consistent(NodeRun(n, es, parse, true), parse)
  {
    if es != [] {
      hide Consistent, Possible, NodeStep;
      SkippingIsSound(n, Front(es), parse);
      StepStaysConsistent(NodeRun(n, Front(es), parse, true), Last(es), parse);
    }
  }

  // ----- the latest configuration is in force -----

  /** The detail of the last plcInfo command that lists PLCs. */
  ghost function LastListed(es: seq<NodeEvent>, parse: string -> PlcInfo): Option<string> {
    if es == [] then None
    else if Last(es).PlcInfoCommand? && Plcs(parse(Last(es).detail)) != [] then Some(Last(es).detail)
    else LastListed(Front(es), parse)
  }

  /** The item has all three parts, and they are this PLC's. */
  predicate Lists(item: PlcItem, p: PlcConfig) {
    && item.id == Some(p.id) && item.ipAddress == Some(p.ip)
    && item.portNumber.Some? && item.portNumber.value % 0x1_0000 == p.port
  }

  ghost predicate IsListed(info: PlcInfo, p: PlcConfig) {
    info.items.Some? && exists item :: item in info.items.value && Lists(item, p)
  }

  lemma {:induction false} PlcsAreTheItems(items: seq<PlcItem>, p: PlcConfig)
    ensures p in PlcList(items) <==> exists item :: item in items && Lists(item, p)
  {
    if items != [] {
      PlcsAreTheItems(Front(items), p);
      assert items == Front(items) + [Last(items)];
      assert p in PlcList(items) <==> p in PlcList(Front(items)) || Lists(Last(items), p);
    }
  }

  lemma {:induction false} PlcsKeepTheOrder(items: seq<PlcItem>, later: seq<PlcItem>)
    ensures PlcList(items + later) == PlcList(items) + PlcList(later)
  {
    if later == [] {
      assert items + later == items;
    } else {
      PlcsKeepTheOrder(items, Front(later));
      assert Front(items + later) == items + Front(later);
    }
  }

  /** What a node in force of a detail has: exactly the PLCs, stations and monitors listed,
      the address of each station and each definition under its type name, the last one where
      ids or names repeat. A detail without stations, or without monitors, leaves those. */
  ghost predicate InForce(n: NodeState, info: PlcInfo) {
    && (forall p :: p in n.plcs <==> IsListed(info, p))
    && (info.stations != [] ==> forall st :: st in n.caches <==> st in info.stations)
    && (info.monitors != [] ==> forall m :: m in n.monitors <==> m in info.monitors)
    && (forall i :: 0 <= i < |info.stations| && LastOfItsId(info.stations, i) ==>
          var st := info.stations[i]; st.id in n.addresses && n.addresses[st.id] == (st.ip, st.port))
    && (forall i :: 0 <= i < |info.definitions| && LastOfItsType(info.definitions, i) ==>
          var def := info.definitions[i]; def.javaType in n.meta && n.meta[def.javaType] == def)
  }

  ghost predicate LastOfItsId(stations: seq<Reports.FillStation>, i: nat)
    requires i < |stations|
  {
    forall j :: i < j < |stations| ==> stations[j].id != stations[i].id
  }

  ghost predicate LastOfItsType(definitions: seq<BlockDefinition>, i: nat)
    requires i < |definitions|
  {
    forall j :: i < j < |definitions| ==> definitions[j].javaType != definitions[i].javaType
  }

  lemma SettledIsInForce(n: NodeState, info: PlcInfo)
    requires Settled(n, info)
    ensures InForce(n, info)
  {
    assert SettledPart(n, info, PlcPart) && SettledPart(n, info, StationPart) && SettledPart(n, info, MonitorPart);
    assert SettledPart(n, info, MetaPart) && SettledPart(n, info, AddressPart);
    forall p ensures p in n.plcs <==> IsListed(info, p) {
      if info.items.Some? {
        PlcsAreTheItems(info.items.value, p);
      }
    }
    hide PlcList, SettledPart, Settled;
    AddressesInForce(n, info);
    DefinitionsInForce(n, info);
  }

  lemma AddressesInForce(n: NodeState, info: PlcInfo)
    requires SettledPart(n, info, AddressPart)
    ensures forall i :: 0 <= i < |info.stations| && LastOfItsId(info.stations, i) ==>
              var st := info.stations[i]; st.id in n.addresses && n.addresses[st.id] == (st.ip, st.port)
  {
    var pairs := StationAddresses(info.stations);
    forall i: nat | i < |info.stations| && LastOfItsId(info.stations, i)
      ensures var st := info.stations[i]; st.id in n.addresses && n.addresses[st.id] == (st.ip, st.port)
    {
      InsertAllTakesTheLast(map[], pairs, i);
      hide InsertAll;
      var update := InsertAll(map[], pairs);
      assert (n.addresses + update)[pairs[i].0] == update[pairs[i].0];
    }
  }

  lemma DefinitionsInForce(n: NodeState, info: PlcInfo)
    requires SettledPart(n, info, MetaPart)
    ensures forall i :: 0 <= i < |info.definitions| && LastOfItsType(info.definitions, i) ==>
              var def := info.definitions[i]; def.javaType in n.meta && n.meta[def.javaType] == def
  {
    var pairs := NamedDefinitions(info.definitions);
    forall i: nat | i < |info.definitions| && LastOfItsType(info.definitions, i)
      ensures var def := info.definitions[i]; def.javaType in n.meta && n.meta[def.javaType] == def
    {
      InsertAllTakesTheLast(map[], pairs, i);
      hide InsertAll;
      var update := InsertAll(map[], pairs);
      assert (n.meta + update)[pairs[i].0] == update[pairs[i].0];
    }
  }

  lemma OneMoreEvent(n: NodeState, e: NodeEvent, parse: string -> PlcInfo, d: Option<string>)
    requires Consistent(n, parse) && Possible(n, e)
    requires d.Some? ==> n.lastDetail == d.value && Plcs(parse(d.value)) != [] && Settled(n, parse(d.value))
    ensures var after := NodeStep(n, e, parse, true);
            var latest := if e.PlcInfoCommand? && Plcs(parse(e.detail)) != [] then Some(e.detail) else d;
            latest.Some? ==> after.lastDetail == latest.value && Plcs(parse(latest.value)) != []
                             && Settled(after, parse(latest.value))
  {
    hide SettledPart, Apply, Plcs;
    match e
    case PlcInfoCommand(detail) =>
      hide Settled;
      ApplySettles(n.(lastDetail := detail), parse(detail));
      AppliedKeepsTheDetail(n.(lastDetail := detail), parse(detail));
    case _ =>
      StaysSettled(n, NodeStep(n, e, parse, true), e, parse);
  }

  lemma {:induction false} AlwaysApplyingIsInForce(n: NodeState, es: seq<NodeEvent>, parse: string -> PlcInfo)
    requires Consistent(n, parse) && PossibleRun(n, es, parse)
    ensures var (m, d) := (NodeRun(n, es, parse, true), LastListed(es, parse));
            d.Some? ==> m.lastDetail == d.value && Plcs(parse(d.value)) != [] && Settled(m, parse(d.value))
  {
    if es != [] {
      hide Consistent, Possible, NodeStep, Settled, Plcs;
      AlwaysApplyingIsInForce(n, Front(es), parse);
      SkippingIsSound(n, Front(es), parse);
      OneMoreEvent(NodeRun(n, Front(es), parse, true), Last(es), parse, LastListed(Front(es), parse));
    }
  }

  /** No new configuration is ever missed: after every run of commands, ticks and
      acknowledgements the node that skips equal details has stored the detail of the last
      command that lists PLCs, and all of it is in force. */
  lemma LatestConfigurationIsInForce(n: NodeState, es: seq<NodeEvent>, parse: string -> PlcInfo)
    requires Consistent(n, parse) && PossibleRun(n, es, parse)
    ensures var (m, d) := (NodeRun(n, es, parse, false), LastListed(es, parse));
            d.Some? ==> m.lastDetail == d.value && Settled(m, parse(d.value)) && InForce(m, parse(d.value))
  {
    hide Consistent, Settled, NodeRun, PossibleRun, InForce, LastListed, Plcs;
    SkippingIsSound(n, es, parse);
    AlwaysApplyingIsInForce(n, es, parse);
    var m, d := NodeRun(n, es, parse, true), LastListed(es, parse);
    if d.Some? {
      SettledIsInForce(m, parse(d.value));
    }
  }

  /** Commands that list no PLC change nothing: until one lists some, the configuration is
      the one the run began with. */
  lemma {:induction false} UnlistedChangesNothing(n: NodeState, es: seq<NodeEvent>, parse: string -> PlcInfo)
    requires PossibleRun(n, es, parse) && LastListed(es, parse) == None
    ensures var m := NodeRun(n, es, parse, true);
            && m == n.(caches := m.caches, states := m.states, status := m.status)
            && m.caches.Keys == n.caches.Keys
  {
    if es != [] {
      hide Possible, NodeStep;
      UnlistedChangesNothing(n, Front(es), parse);
      if Last(es).PlcInfoCommand? {
        UnlistedStep(NodeRun(n, Front(es), parse, true), Last(es), parse);
      } else {
        OtherEventsKeepTheParts(NodeRun(n, Front(es), parse, true), Last(es), parse, true);
      }
    }
  }

  lemma UnlistedStep(n: NodeState, e: NodeEvent, parse: string -> PlcInfo)
    requires e.PlcInfoCommand? && Plcs(parse(e.detail)) == []
    ensures NodeStep(n, e, parse, true) == n
  {
  }

  /** A command that lists PLCs and stations keeps the reports of every station that stays,
      whether it is applied or skipped; new stations start without reports, dropped ones go. */
  lemma KeptStationsKeepTheirReports(n: NodeState, detail: string, parse: string -> PlcInfo, always: bool)
    requires Consistent(n, parse) && Plcs(parse(detail)) != [] && parse(detail).stations != []
    ensures var after := NodeStep(n, PlcInfoCommand(detail), parse, always).caches;
            forall st :: if st in parse(detail).stations
              then st in after && after[st] == (if st in n.caches then n.caches[st] else [])
              else st !in after
  {
    hide Plcs;
    if !always && n.lastDetail == detail {
      assert SettledPart(n, parse(detail), StationPart);
    }
  }

  /** A deployment that names a configured station goes to the address in force; one that
      names an unknown station fails, and one that names none goes where its monitor is. */
  lemma DeploymentsReachConfiguredStations(n: NodeState, info: PlcInfo, d: Deploy.Deployment, i: nat,
                                           monitorAddress: Option<(string, nat)>)
    requires InForce(n, info) && i < |info.stations| && LastOfItsId(info.stations, i)
    ensures var target := Deploy.ResolveTarget(d, n.addresses, monitorAddress);
            && (d.fillStationId == Some(info.stations[i].id) ==>
                  target == Ok((info.stations[i].ip, info.stations[i].port)))
            && (d.fillStationId.Some? && d.fillStationId.value !in n.addresses ==> target.Err?)
            && (d.fillStationId == None ==> target.ToOption() == monitorAddress)
  {
  }

  // ----- submitted reports -----

  /** Of a text that spells a 64-bit number exactly the reports with that id are marked as
      sent, in every station's list; any other text changes nothing. */
  lemma SubmittedReportsAreMarked(n: NodeState, detail: string, st: Reports.FillStation, i: nat)
    requires st in n.caches && i < |n.caches[st]|
    ensures var after := HandleReportSubmitted(n, detail);
            var spelled := Spells(detail, n.caches[st][i].reportId, true)
                           && -0x8000_0000_0000_0000 <= n.caches[st][i].reportId < 0x8000_0000_0000_0000;
            && after.caches.Keys == n.caches.Keys && after == n.(caches := after.caches)
            && |after.caches[st]| == |n.caches[st]|
            && after.caches[st][i] == (if spelled then n.caches[st][i].(sent := true) else n.caches[st][i])
  {
    ParsesExactlySpellings(detail, n.caches[st][i].reportId, -0x8000_0000_0000_0000, 0x7FFF_FFFF_FFFF_FFFF);
    hide Spells, ParseInt;
  }

  /** From its start on a node may skip, because the empty detail is no JSON array. */
  lemma FreshNodesMaySkip(es: seq<NodeEvent>, parse: string -> PlcInfo)
    requires parse("").items.None? && PossibleRun(FRESH_NODE, es, parse)
    ensures NodeRun(FRESH_NODE, es, parse, false) == NodeRun(FRESH_NODE, es, parse, true)
  {
    SkippingIsSound(FRESH_NODE, es, parse);
  }

  lemma OnlyTheStationsMatter(n: NodeState, m: NodeState, info: PlcInfo)
    requires Settled(n, info) && info.stations != [] && m == n.(caches := m.caches)
    ensures Apply(m, info) == m <==> m.caches.Keys == set s | s in info.stations
  {
    SettledIsFixed(m, info);
    hide Apply, Plcs;
    assert SettledPart(m, info, StationPart) <==> m.caches.Keys == set s | s in info.stations;
    forall part: Part | part != StationPart ensures SettledPart(m, info, part) {
      assert SettledPart(n, info, part);
    }
  }

  /** Ticks that straddle a command break it: re-applying the last detail is a no-op exactly
      while the cache holds the configured stations and no others, and the commit of a read
      that was in flight when its station was removed adds one. */
  lemma InFlightPollBreaksSkipping(n: NodeState, parse: string -> PlcInfo, st: Reports.FillStation,
                                   data: seq<Byte>, now: int)
    requires var info := parse(n.lastDetail);
             Plcs(info) != [] && Settled(n, info) && info.stations != [] && st !in info.stations
    requires st.reportDb > 0
    ensures var after := n.(caches := ReportCache.Step(n.caches, Reports.Poll(st, Some(data), now)));
            && HandlePlcInfo(after, n.lastDetail, parse(n.lastDetail), false) == after
            && st in after.caches
            && st !in HandlePlcInfo(after, n.lastDetail, parse(n.lastDetail), true).caches
    ensures forall c: ReportCache.Caches :: var m := n.(caches := c);
              Apply(m, parse(n.lastDetail)) == m <==> c.Keys == set s | s in parse(n.lastDetail).stations
  {
    var info := parse(n.lastDetail);
    forall c: ReportCache.Caches
      ensures var m := n.(caches := c); Apply(m, info) == m <==> c.Keys == set s | s in info.stations
    {
      var m := n.(caches := c);
      OnlyTheStationsMatter(n, m, info);
    }
  }

  // ----- commands of several tasks -----

  /** What the heartbeat and the register task do to the shared state, in any interleaving:
      store a detail, update one of the five caches for a detail, or anything between. A
      report tick can straddle these steps, so its polls commit one by one. */
  datatype TaskEvent =
    | Store(detail: string)
    | Write(detail: string, part: Part)
    | Commit(poll: Reports.Event)
    | Between(event: NodeEvent)

  function WritePart(n: NodeState, info: PlcInfo, part: Part): NodeState {
    var applied := Apply(n, info);
    match part
    case PlcPart => n.(plcs := applied.plcs)
    case StationPart => n.(caches := applied.caches)
    case MonitorPart => n.(monitors := applied.monitors, states := applied.states)
    case MetaPart => n.(meta := applied.meta)
    case AddressPart => n.(addresses := applied.addresses)
  }

  ghost function TaskStep(n: NodeState, e: TaskEvent, parse: string -> PlcInfo): NodeState {
    match e
    case Store(detail) => n.(lastDetail := detail)
    case Write(detail, part) => WritePart(n, parse(detail), part)
    case Commit(poll) => n.(caches := ReportCache.Step(n.caches, poll))
    case Between(event) => NodeStep(n, event, parse, true)
  }

  ghost function TaskRun(n: NodeState, es: seq<TaskEvent>, parse: string -> PlcInfo): NodeState {
    if es == [] then n else TaskStep(TaskRun(n, Front(es), parse), Last(es), parse)
  }

  /** The steps of commands come in any order, which includes every order in which each task
      compares before it stores. Between them come commits of polls, whose station was configured once
      but need not be any more, acknowledgements and whole ticks. */
  ghost predicate PossibleTasks(n: NodeState, es: seq<TaskEvent>, parse: string -> PlcInfo) {
    es == [] || (PossibleTasks(n, Front(es), parse) &&
                 (Last(es).Commit? ==> Last(es).poll.Poll?) &&
                 (Last(es).Between? ==>
                    !Last(es).event.PlcInfoCommand? && Possible(TaskRun(n, Front(es), parse), Last(es).event)))
  }

  /** The detail a part was last updated for. */
  function LastWritten(part: Part, es: seq<TaskEvent>): Option<string> {
    if es == [] then None
    else if Last(es).Write? && Last(es).part == part then Some(Last(es).detail)
    else LastWritten(part, Front(es))
  }

  /** The stations whose polls committed since the stations were last updated. */
  function CommittedSince(es: seq<TaskEvent>): set<Reports.FillStation> {
    if es == [] || (Last(es).Write? && Last(es).part == StationPart) then {}
    else if Last(es).Commit? && ReportCache.Commits(Last(es).poll) then
      CommittedSince(Front(es)) + {Last(es).poll.station}
    else CommittedSince(Front(es))
  }

  lemma WriteSettlesItsPart(n: NodeState, info: PlcInfo, part: Part)
    ensures SettledPart(WritePart(n, info, part), info, part)
    ensures forall other, info' :: other != part && SettledPart(n, info', other) ==>
              SettledPart(WritePart(n, info, part), info', other)
  {
    ApplySettlesPart(n, info, part);
    hide Apply, Plcs;
  }

  lemma CommitKeepsOtherParts(n: NodeState, poll: Reports.Event)
    requires poll.Poll?
    ensures var after := n.(caches := ReportCache.Step(n.caches, poll));
            && after.caches.Keys == n.caches.Keys + (if ReportCache.Commits(poll) then {poll.station} else {})
            && forall info, part :: part != StationPart && SettledPart(n, info, part) ==> SettledPart(after, info, part)
  {
    hide Reports.PollList;
  }

  /** Whatever two tasks and a straddling tick interleave, a cache other than that of the
      stations stays settled for the detail it was last updated for. */
  lemma {:induction false} WrittenPartsAreSettled(n: NodeState, es: seq<TaskEvent>,
                                                  parse: string -> PlcInfo, part: Part)
    requires PossibleTasks(n, es, parse) && part != StationPart
    ensures LastWritten(part, es).Some? ==>
              SettledPart(TaskRun(n, es, parse), parse(LastWritten(part, es).value), part)
  {
    if es != [] {
      WrittenPartsAreSettled(n, Front(es), parse, part);
      var before := TaskRun(n, Front(es), parse);
      match Last(es)
      case Store(_) =>
      case Write(detail, p) =>
        WriteSettlesItsPart(before, parse(detail), p);
        hide WritePart, SettledPart;
      case Commit(poll) =>
        CommitKeepsOtherParts(before, poll);
        hide SettledPart;
      case Between(event) =>
        StaysSettled(before, NodeStep(before, event, parse, true), event, parse);
        hide NodeStep, SettledPart;
    }
  }

  /** And the station cache holds the stations it was last updated for and those whose polls
      committed since, no matter where the reads began. */
  lemma {:induction false} WrittenStationsAndCommits(n: NodeState, es: seq<TaskEvent>, parse: string -> PlcInfo)
    requires PossibleTasks(n, es, parse)
    ensures var written := LastWritten(StationPart, es);
            written.Some? && parse(written.value).stations != [] ==>
              TaskRun(n, es, parse).caches.Keys
              == (set st | st in parse(written.value).stations) + CommittedSince(es)
  {
    if es != [] {
      WrittenStationsAndCommits(n, Front(es), parse);
      var before := TaskRun(n, Front(es), parse);
      match Last(es)
      case Store(_) =>
      case Write(detail, p) =>
        if p == StationPart {
          WriteSettlesItsPart(before, parse(detail), p);
        }
        WriteKeepsStations(before, parse(detail), p);
        hide WritePart;
      case Commit(poll) =>
        CommitKeepsOtherParts(before, poll);
        hide ReportCache.Step;
      case Between(event) =>
        OtherEventsKeepTheParts(before, event, parse, true);
        hide NodeStep;
    }
  }

  lemma WriteKeepsStations(n: NodeState, info: PlcInfo, part: Part)
    ensures part != StationPart ==> WritePart(n, info, part).caches == n.caches
  {
  }

  /** After any interleaving of tasks, skipping the stored detail and re-applying it agree
      exactly when every cache is settled for it. If every cache was last updated for the
      detail that was stored last, that is so exactly when it lists no stations or no poll
      of another station has committed since. */
  lemma TasksAgreeExactlyWhenSettled(n: NodeState, es: seq<TaskEvent>, parse: string -> PlcInfo)
    requires PossibleTasks(n, es, parse)
    ensures var m := TaskRun(n, es, parse);
            var info := parse(m.lastDetail);
            && (HandlePlcInfo(m, m.lastDetail, info, false) == HandlePlcInfo(m, m.lastDetail, info, true)
                <==> Plcs(info) == [] || Settled(m, info))
            && ((forall part :: LastWritten(part, es) == Some(m.lastDetail)) ==>
                (Settled(m, info)
                 <==> info.stations == [] || forall st :: st in CommittedSince(es) ==> st in info.stations))
  {
    hide PossibleTasks, TaskRun, LastWritten, CommittedSince;
    var m := TaskRun(n, es, parse);
    var info := parse(m.lastDetail);
    assert m.(lastDetail := m.lastDetail) == m;
    SettledIsFixed(m, info);
    if forall part :: LastWritten(part, es) == Some(m.lastDetail) {
      hide Apply, HandlePlcInfo, Plcs;
      assert LastWritten(StationPart, es) == Some(m.lastDetail);
      WrittenStationsAndCommits(n, es, parse);
      StationsSettle(m, info, CommittedSince(es));
      forall part: Part | part != StationPart ensures SettledPart(m, info, part) {
        assert LastWritten(part, es) == Some(m.lastDetail);
        WrittenPartsAreSettled(n, es, parse, part);
      }
      hide SettledPart;
      assert Settled(m, info) <==> SettledPart(m, info, StationPart);
    }
  }

  lemma StationsSettle(n: NodeState, info: PlcInfo, committed: set<Reports.FillStation>)
    requires info.stations != [] ==> n.caches.Keys == (set st | st in info.stations) + committed
    ensures SettledPart(n, info, StationPart)
            <==> info.stations == [] || forall st :: st in committed ==> st in info.stations
  {
  }

  /** Finding: two tasks can leave the state of one detail under the name of another. The
      first finds its detail new, stores it and stalls; the second finds its own new, stores
      it and updates; then the first updates. The second detail is skipped from then on while
      the first one's PLC list stays. */
  lemma TwoTasksCanMixDetails(n: NodeState, d1: string, d2: string, parse: string -> PlcInfo)
    requires n.lastDetail != d1
    requires Plcs(parse(d1)) != [] && Plcs(parse(d2)) != []
    requires Plcs(parse(d1)) != Plcs(parse(d2))
    ensures var m := TaskRun(n, [Store(d1), Store(d2), Write(d2, PlcPart), Write(d1, PlcPart)], parse);
            && TaskRun(n, [Store(d1)], parse).lastDetail != d2 && m.lastDetail == d2
            && HandlePlcInfo(m, d2, parse(d2), false).plcs == Plcs(parse(d1))
            && HandlePlcInfo(m, d2, parse(d2), true).plcs == Plcs(parse(d2))
  {
    var es := [Store(d1), Store(d2), Write(d2, PlcPart), Write(d1, PlcPart)];
    assert Front(es) == es[..3] && Front(es[..3]) == es[..2] && Front(es[..2]) == es[..1] && Front(es[..1]) == [];
    assert es[..1] == [Store(d1)] && TaskRun(n, es[..1], parse) == n.(lastDetail := d1);
    assert TaskRun(n, es[..2], parse) == n.(lastDetail := d2);
  }

  // ----- the class -----

  class CloudSession {
    var lastPlcDetail: string
    var plcList: seq<PlcConfig>
    var meta: map<string, BlockDefinition>
    const reportCache: ReportCache.Cache
    const monitorProcessor: Monitors.MonitorProcessor

    constructor ()
      ensures fresh(reportCache) && fresh(monitorProcessor)
      ensures State() == FRESH_NODE
    {
      lastPlcDetail, plcList, meta := "", [], map[];
      var cache := new ReportCache.Cache();
      var processor := new Monitors.MonitorProcessor();
      reportCache, monitorProcessor := cache, processor;
    }

    function State(): NodeState
      reads this, reportCache, monitorProcessor
    {
      NodeState(lastPlcDetail, plcList, reportCache.caches, monitorProcessor.monitors, monitorProcessor.states,
                monitorProcessor.fillStations, meta, reportCache.Status())
    }

    method ParsePlcList(info: PlcInfo) returns (plcs: seq<PlcConfig>)
      ensures plcs == Plcs(info)
    {
      plcs := [];
      if info.items.Some? {
        var items := info.items.value;
        for i := 0 to |items|
          invariant plcs == PlcList(items[..i])
        {
          assert Front(items[..i + 1]) == items[..i];
          var item := items[i];
          if item.id.Some? && item.ipAddress.Some? && item.portNumber.Some? {
            plcs := plcs + [PlcConfig(item.id.value, item.ipAddress.value, item.portNumber.value % 0x1_0000)];
          }
        }
        assert items[..|items|] == items;
      }
    }

    method SaveMeta(definitions: seq<BlockDefinition>)
      modifies `meta
      ensures meta == InsertAll(old(meta), NamedDefinitions(definitions))
    {
      var pairs := NamedDefinitions(definitions);
      for i := 0 to |pairs|
        invariant meta == InsertAll(old(meta), pairs[..i])
      {
        assert Front(pairs[..i + 1]) == pairs[..i];
        meta := meta[pairs[i].0 := pairs[i].1];
      }
      assert pairs[..|pairs|] == pairs;
    }

    /** `answered` are the PLCs the server gets an answer for: all, on every command, whether
        the configuration changed or not. */
    method HandlePlcInfoCommand(detail: string, info: PlcInfo) returns (answered: seq<PlcConfig>)
      modifies this, reportCache, monitorProcessor
      ensures State() == HandlePlcInfo(old(State()), detail, info, false)
      ensures answered == Plcs(info)
    {
      var configChanged := lastPlcDetail != detail;
      answered := ParsePlcList(info);
      if answered == [] {
        return;
      }
      if configChanged {
        ApplyDetail(detail, info, answered);
      }
    }

    method ApplyDetail(detail: string, info: PlcInfo, plcs: seq<PlcConfig>)
      requires plcs == Plcs(info) != []
      modifies this, reportCache, monitorProcessor
      ensures State() == Apply(old(State()).(lastDetail := detail), info)
    {
      hide Plcs, ReportCache.Step;
      lastPlcDetail := detail;
      plcList := plcs;
      if info.stations != [] {
        reportCache.UpdateFillStations(info.stations);
      }
      if info.monitors != [] {
        monitorProcessor.UpdateMonitors(info.monitors);
      } else {
        assert Monitors.UpdatedStates(monitorProcessor.monitors, monitorProcessor.states, monitorProcessor.monitors)
            == monitorProcessor.states;
      }
      SaveMeta(info.definitions);
      monitorProcessor.UpdateFillStations(StationAddresses(info.stations));
    }

    method HandleReportSubmittedCommand(detail: string)
      modifies reportCache
      ensures State() == HandleReportSubmitted(old(State()), detail)
    {
      hide ReportCache.Step;
      var id := ParseInt(detail, -0x8000_0000_0000_0000, 0x7FFF_FFFF_FFFF_FFFF);
      if id.Some? {
        reportCache.DeleteReport(id.value);
      }
    }
  }
}

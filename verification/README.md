# Verification of the filling-pilot edge node

The edge node polls Siemens PLC memory, turns what it reads into reports, statuses and monitor
messages for a cloud server, and writes byte blocks back. This Dafny project models its state and
its codecs and proves what holds over whole runs. `dafny verify dfyconfig.toml` checks it.

The network is an environment: a PLC read is an optional byte string, a clock reading is a number,
sent messages are results, and the order of polls, acknowledgements and configuration updates is
arbitrary. Objects the source updates in place are classes; each method is proved equal to a
specification function, and the theorems are about those functions.

| module | models |
|---|---|
| `Prelude`, `Text`, `BigEndian`, `Streams` | bytes, hexadecimal, decimal and UTF-8 text, fixed-width integers, message streams |
| `Calendar` | BCD date arithmetic of the report cache |
| `Reports`, `ReportLedger`, `ReportCache` | report lists: one station, an account of all its reports, the whole cache with its class |
| `StatusStream` | the status sender |
| `Monitors` | the monitor scheduler, its class and its runs |
| `Codecs` | the value codecs and their registry |
| `Fields`, `BlockCodec`, `BlockRoundTrip` | the block codec of `src/deploy.rs` |
| `DataBlock`, `BlockSize` | the block codec of `src/codec/data_block.rs` |
| `Deploy` | deploying into PLC memory and observing it through a monitor |
| `Cloud` | the `plcInfo` and `reportSubmitted` commands |

How runs are modelled. The report cache releases its lock between the snapshot of the stations, each
station's commit and the collection of unsent reports (`src/report/cache.rs:183`, `:222`, `:192`), so a
run is any sequence of atomic events: a poll's commit, an acknowledgement, a configuration update. Monitor
runs are any sequence of loop iterations and state removals. Nothing in these sequences forces a tick to
be undisturbed, so the theorems cover every interleaving. The `ReadAndSendReportsDirect` and
`TriggerMonitorsDirect` methods are the undisturbed ticks. A hash map's or hash set's iteration order is
an arbitrary choice. Panics of the source are a third outcome beside success and error. The wrapping u64
difference of two clock readings is written out; only the timing theorems ask for a clock that does not
run backwards. The front's removal at capacity, the purge of sent reports and the append are kept in the
source's order. Ticks in a row are one run: `RunConcat`, `TicksAreOneRun` and `StatusTicksAreOneRun`.

Findings, each a theorem below. The code is modelled as it is.

- The first report of a station is never taken: `last_report?` (`src/report/cache.rs:302`) answers None
  without a previous report, although the comment above it calls that case the first one
  (`EmptyStaysEmpty`, `EmptyCachesStayEmpty`). All list theorems start from any list, so they do not
  depend on this.
- The guard against stamps before 2000 is dead code, because no stamp is that early (`StampsStayInRange`).
  Any six bytes the code accepts are taken for a date and time on the calendar exactly when they lie before
  2100 (`AcceptedStampsCollideExactlyBefore2100`), so impossible dates, hours and digits collide with possible
  ones (`ImpossibleDatesCollide`).
- At capacity the front is dropped before sent reports are purged, so an unsent report can go while a
  sent one is held (`AppendLosesExactlyTheUnsentFront`), even though purging first would have made room
  (`SentReportsWouldHaveMadeRoom`; `AnUnsentReportIsLost` is an instance).
- Report ids are clock readings, so one acknowledgement can end reports of several stations. It ends at most
  one exactly when no two live reports share an id (`AcknowledgementsEndOneLife`).
- A poll in flight brings a removed station back: after a configuration update the cache holds the
  configured stations and those that committed since (`InFlightPollsReviveStations`). This breaks
  skipping an unchanged configuration when ticks straddle commands (`InFlightPollBreaksSkipping`).
- The heartbeat and the register task can handle commands at once (`src/main.rs:128-137`) and interleave
  their updates. One can then leave its updates under the other's detail, which later commands skip
  (`TwoTasksCanMixDetails`); `TasksAgreeExactlyWhenSettled` says when skipping still agrees with re-applying,
  for straddling ticks as well.
- A monitor whose offset lies beyond its block panics at its first answered read, which ends the tick and
  its messages. Its running flag stays set until its state is dropped, and no run reads a block for it or
  sends anything (`PanickedMonitorsAreStuck`).
- `encode` in `src/deploy.rs` panics on short encodings and on properties that start past the block
  (`EncodePanicsExactlyWhen`); its mixed-case type sizes are unreachable
  (`TypeSizesMatchExceptMixedCase`).
- The decoder of `src/codec/data_block.rs` returns only the first element of an array
  (`ArraysDecodeOnlyTheirFirstElement`, `FixedWidthDecodersAgreeExactlyOnScalars`).
- The computed size of a data block leaves a field outside the block whenever the layout has a gap
  (`ComputedSizeFitsExactlyTilings`); if each field's last element is in the content and encodes, the encoder
  then skips an element, and only then (`GapsDropElements`).
- A monitor with an empty block never sends (`EmptyBlocksAreNeverSent`).

## Model

| member | source | states |
|---|---|---|
| Prelude.UnhexHex | src/report/monitor.rs:312-374 | The hexadecimal text of a block decodes to the block. |
| Prelude.HexIsInjective | src/report/cache.rs:248-249 | Comparing hexadecimal texts is comparing bytes. |
| Prelude.HexIsLowerCase | src/report/monitor.rs:312-312 | Hexadecimal texts use the digits 0-9 and a-f only. |
| Prelude.ElapsedLeadsToNow | src/report/monitor.rs:287-291 | The elapsed time is the one 64-bit number that leads from the earlier reading to the later, through the wrap-around if the clock went back. |
| Prelude.InsertAllIsOneUpdate | src/report/monitor.rs:258-264 | A loop of insertions is one map update, hence idempotent. |
| Prelude.InsertAllTakesTheLast | src/report/monitor.rs:258-264 | Of several insertions under one key the last one stands. |
| Prelude.InsertAllKeepsTheRest | src/report/monitor.rs:258-264 | Keys that are not inserted keep what they had. |
| Calendar.DaysSinceEpoch | src/report/cache.rs:367-385 | The year and month loops compute the closed POSIX day formula; None exactly for months outside 1-12 or days outside 1-31. |
| Calendar.DayNumbersCountCivilDays | src/report/cache.rs:367-385 | Day numbers are 0 on 1 January 1970 and grow by one from every civil date to the next, across months, years and leap days. |
| Calendar.StampsStayInRange | src/report/cache.rs:279-283 | For any bytes, an extracted stamp is at least 946684800000 and fits an i64. |
| Calendar.StampOrderEmbedding | src/report/cache.rs:334-359 | On packed-decimal calendar stamps, lexicographic order of the six bytes is the order of the milliseconds, both directions, and distinct stamps never collide. |
| Calendar.ImpossibleDatesCollide | src/report/cache.rs:367-385 | Of the months and days the code accepts, a date shares its day number with another date on the calendar if and only if it is not itself on the calendar, for every year from 1970. |
| Calendar.FebruaryThirtiethIsMarchSecond | src/report/cache.rs:334-385 | A pair of byte stamps that collide: 30 February and 2 March 2001. |
| Calendar.StampsAreTheSecondsOfTheCentury | src/report/cache.rs:334-359 | Extraction is a bijection from the packed-decimal calendar stamps onto the seconds from 2000 to 2099, with `StampOf` as its inverse. |
| Calendar.ExtractsTheSecond | src/report/cache.rs:334-359 | The stamp of a second, anywhere in the data, extracts as that second. |
| Calendar.AcceptedStampsCollideExactlyBefore2100 | src/report/cache.rs:334-389 | Any six bytes that are accepted extract as a calendar stamp does if and only if the result lies before 2100. |
| Calendar.BcdCounts | src/report/cache.rs:361-364 | Packed digits count tens and ones, beyond nine too. |
| Calendar.ExtractionIsPosixTime | src/report/cache.rs:334-389 | Every accepted stamp, on the calendar or off it, extracts as the closed POSIX formula for its six fields. |
| BigEndian.ReadWrite | src/codec/codec.rs:51-154 | Reading what was written gives the number modulo 256^k, unsigned or as two's complement, at every width. |
| BigEndian.WriteReadSigned | src/codec/codec.rs:51-154 | Writing what was read restores the bytes, signed and unsigned, and the signed value fits. |
| BigEndian.WrapKeepsExactlyWhatFits | src/codec/codec.rs:51-154 | The casts keep a number if and only if it fits the width. |
| BigEndian.MostSignificantFirst | src/codec/codec.rs:60-62 | Byte i of an encoding is the i-th base-256 digit from the top. |
| Text.ParsePrint | src/codec/codec.rs:327-341 | Printing a number and parsing it within its range gives the number back. |
| Text.ParsesExactlySpellings | src/codec/codec.rs:36-43 | A text parses as a number if and only if it is an optional sign, leading zeros and the digits of that number, in range; a minus sign only for signed types. |
| Text.SplitAtDot | src/codec/codec.rs:247-254 | Splitting a dotted text undoes joining its parts. |
| Text.JoiningUndoesSplitting | src/codec/codec.rs:247-254 | Joining the parts of any text with dots gives the text, and no part holds a dot. |
| Text.DecodeEncodeUtf8 | src/codec/codec.rs:181-194 | Decoding the UTF-8 bytes of any string gives the string. |
| Text.EncodeDecodeUtf8 | src/codec/codec.rs:181-194 | Whatever bytes decode are the UTF-8 encoding of the result: overlong and invalid forms are refused. |
| Codecs.EncodingsHaveFixedWidth | src/codec/codec.rs:14-369 | Every accepted value of a fixed-width codec encodes to exactly its width. |
| Codecs.IntegerRoundTrip | src/codec/codec.rs:51-154 | For all integer codecs, numbers and numeric texts alike: encoding succeeds exactly for numbers and strings, and decoding gives the wrapped number, as a decimal string or narrowed where the codec says so. |
| Codecs.NumberSurvivesExactlyWhenItFits | src/codec/codec.rs:33-154 | A number comes back unchanged if and only if it fits the codec's type. |
| Codecs.NumbersOnTheWire | src/codec/codec.rs:33-154 | A JSON number is written as the low bytes of its two's-complement form, as 0 if it is no 64-bit integer; arrays, objects, booleans and null are refused. |
| Codecs.TextsOnTheWire | src/codec/codec.rs:33-154 | A text is written as the number it spells if that fits the codec's type, otherwise as 0. |
| Codecs.BooleansReadBack | src/codec/codec.rs:14-31 | Booleans, numbers and texts read back as true or false: what is not 0 is true, and so are the texts true, 1 and on in any case. |
| Codecs.CharactersReadBack | src/codec/codec.rs:262-277 | A text reads back as its first character, a number as its character, both cut to eight bits; a text survives if and only if it is one such character. |
| Codecs.BytesRoundTrip | src/codec/codec.rs:14-369 | encode(decode(b)) = b for every byte string of the codec's width; for booleans exactly if the byte is 0 or 1, for narrowed longs exactly if the value fits sixteen bits. |
| Codecs.ShortBytesFail | src/codec/codec.rs:14-369 | A fixed-width codec decodes if and only if its width is there, from those bytes alone. |
| Codecs.IpTextsAreCanonical | src/codec/codec.rs:242-257 | Every accepted address text has a canonical text naming the same bytes; two texts name one address if and only if their canonical texts agree. |
| Codecs.IpTextsAccepted | src/codec/codec.rs:242-251 | A text is accepted as an address if and only if it is four dotted spellings of octets, and becomes those octets. |
| Codecs.AddressesArePrintedPlainly | src/codec/codec.rs:252-255 | Addresses print as four plain decimal octets. |
| Codecs.StringRoundTrip | src/codec/codec.rs:177-196 | A string is accepted if and only if it has at most 254 UTF-8 bytes, and then it survives whatever follows it in the block. |
| Codecs.StringsOnTheWire | src/codec/codec.rs:177-187 | A string is written as 254, its length in bytes and its UTF-8 bytes; other values as their JSON text. |
| Codecs.StringsDecodeExactly | src/codec/codec.rs:188-194 | Bytes decode to a string if and only if they hold as many bytes of its UTF-8 form as the header says; the capacity byte and what follows are ignored. |
| Codecs.ZeroBytes | src/codec/codec.rs:14-369 | What each fixed-width codec reads from zero bytes. |
| Codecs.RegistryReads | src/codec/codec.rs:404-433 | Which names are registered, and what each makes of eight bytes. |
| BlockCodec.TypeSizesMatchExceptMixedCase | src/deploy.rs:362-377 | A registered fixed-width type name gets its codec's width if and only if it is not one of the two mixed-case names. |
| BlockCodec.CopyFromSlice | src/deploy.rs:339-349 | The copy replaces exactly the addressed bytes of the buffer. |
| BlockCodec.EncodeElement | src/deploy.rs:337-341 | One element writes its slot, clipped to the block, or panics, or writes nothing without codec or encoding. |
| BlockCodec.EncodeArray | src/deploy.rs:343-353 | The elements of an array write their slots in order, stopping at a panic. |
| BlockCodec.EncodeProperty | src/deploy.rs:330-355 | An absent property writes nothing, a scalar one slot, an array at most count slots. |
| BlockCodec.Encode | src/deploy.rs:309-359 | The in-place encoder has the outcome of performing all writes in order: error, panic or block. |
| BlockCodec.DecodeArray | src/deploy.rs:287-298 | The loop with its early exit collects every element that decodes. |
| BlockCodec.DecodeAsMap | src/deploy.rs:255-306 | The decoder inserts each property's decoded value, later names overriding earlier ones, or reports the missing definition. |
| BlockRoundTrip.EncodePanicsExactlyWhen | src/deploy.rs:335-351 | Encoding panics if and only if some encoded element starts past the block or is shorter than its clipped slice; otherwise the block has the defined size. |
| BlockRoundTrip.BytesComeFromTheirLastWriter | src/deploy.rs:328-358 | Every byte is what the last element covering it wrote, 0 where none does. |
| BlockRoundTrip.LaterPropertiesWin | src/deploy.rs:328-355 | A byte of an encoded element, clipped or not, is that element's own unless a later property reaches it, whatever earlier ones wrote. |
| BlockRoundTrip.WellFormedNeverPanics | src/deploy.rs:309-359 | A well-formed definition with matching widths always encodes. |
| BlockRoundTrip.WellFormedFieldsAreIsolated | src/deploy.rs:328-355 | In a well-formed definition with matching widths every field is isolated: in the block, apart from all others, named uniquely. |
| BlockRoundTrip.EncodedElement | src/deploy.rs:330-355 | Whenever encoding succeeds, the bytes of each element of an isolated field are that element's own encoding, or zeros, whatever the other fields do among themselves. |
| BlockRoundTrip.FieldRoundTrip | src/deploy.rs:255-359 | Whenever encoding succeeds, decoding gives each isolated field the normalised value of its own elements, even if other fields overlap, repeat names or leave the block. |
| BlockRoundTrip.PropertyIsLocal | src/deploy.rs:270-303 | A decoded property depends only on the bytes of its own elements. |
| BlockRoundTrip.LaterNamesWin | src/deploy.rs:270-303 | Where names repeat, the decoded map shows the last property of the name that decodes. |
| BlockRoundTrip.ClippedStringsDecode | src/deploy.rs:273-285 | A string decodes wherever the data end behind its bytes, although its slot reaches further. |
| BlockRoundTrip.CutFieldsKeepWholeElements | src/deploy.rs:273-302 | Of a fixed-width property cut short by the end of the data exactly the whole elements are decoded, each from its own bytes; a scalar cut short is absent. |
| BlockRoundTrip.BlockRoundTrip | src/deploy.rs:255-359 | Decoding an encoded block gives every property the normalised value of its own elements, present or absent, scalar or array, and uncovered bytes are 0. |
| BlockRoundTrip.FixedWidthsMatch | src/deploy.rs:330-355 | With fixed-width types of the right size every content has matching widths. |
| BlockRoundTrip.ArraysArePadded | src/deploy.rs:286-302 | An array reads back with exactly count elements; those beyond a short array are zero values. |
| BlockRoundTrip.NumbersReadBack | src/deploy.rs:279-285 | A scalar number reads back as itself if and only if it fits, an absent one as 0. |
| DataBlock.Block.CalculateSize | src/codec/data_block.rs:127-131 | The total is the sum of element width times count. |
| DataBlock.Block.Encode | src/codec/data_block.rs:223-259 | The encoder has the outcome of the fitting writes in order; what passes the end is skipped, a wrong width panics. |
| DataBlock.Block.Decode | src/codec/data_block.rs:185-220 | The decoder replaces the values by those of every property inside the bytes. |
| DataBlock.FittingPanicsExactlyWhen | src/codec/data_block.rs:233-251 | This encoder panics if and only if an element inside the block has another length than its width. |
| DataBlock.BytesComeFromElementsInside | src/codec/data_block.rs:223-259 | Without a panic each byte is that of the last element inside the block that covers it; an element that passes the end writes nothing. |
| DataBlock.SharedFieldsAgree | src/codec/data_block.rs:54-154 | Both schema forms resolve a property to the same codec, and to the same width whenever there is a codec. |
| DataBlock.TypesReachTheirCodecs | src/codec/data_block.rs:54-74 | Which codec each type is looked up to; four have none. |
| DataBlock.SizeTablesAgreeExactly | src/codec/data_block.rs:134-154 | The size tables of the two block codecs agree on a type if and only if it is none of the three conversion types. |
| DataBlock.EncodersAgree | src/codec/data_block.rs:223-259 | For one schema and elements inside the block, the two encoders have equal outcomes if and only if all widths match or some element is too short; overlaps and arrays included. |
| DataBlock.DecodesOneElement | src/codec/data_block.rs:189-219 | A property gives what its first element decodes to if that lies inside the bytes, wherever the others lie, and nothing otherwise. |
| DataBlock.LaterValuesWin | src/codec/data_block.rs:185-220 | Where names repeat, the values show the last property of the name that decodes. |
| DataBlock.ArraysDecodeOnlyTheirFirstElement | src/codec/data_block.rs:189-219 | Of a property inside the bytes this decoder returns what the other one returns of its first element, as an array if it has several; the two agree if and only if no element from the second on decodes. |
| DataBlock.FixedWidthDecodersAgreeExactlyOnScalars | src/codec/data_block.rs:189-219 | For fixed-width properties inside the bytes the two decoders agree if and only if the count is 1. |
| BlockSize.ComputedSizeFitsExactlyTilings | src/codec/data_block.rs:127-131 | For disjoint fields the computed size is at most the largest end, with equality, and with every field inside the block, if and only if the fields tile it. |
| BlockSize.GapsDropElements | src/codec/data_block.rs:127-131 | In a block of the computed size, disjoint fields that tile it lose no element of any content; if every field encodes up to its last element, none is skipped if and only if the fields tile the block. |
| Monitors.MonitorProcessor.UpdateMonitors | src/report/monitor.rs:231-250 | The configuration becomes the new set, and exactly the states of dropped monitors go. |
| Monitors.UpdatesForgetTheDropped | src/report/monitor.rs:231-250 | A reconfiguration is a run of state removals, in any order, for the monitors that are no longer configured as they were. |
| Monitors.MonitorProcessor.UpdateFillStations | src/report/monitor.rs:258-264 | The addresses are those before with all pairs inserted in order. |
| Monitors.MonitorProcessor.TriggerMonitor | src/report/monitor.rs:278-357 | One iteration of the loop: its timers, its change detection, its resend, its new state, and when it panics. |
| Monitors.FullBlockBytes | src/report/monitor.rs:308-312 | Byte by byte, for answers of any length: the bytes read stand at the offset as far as the block reaches, all others are 0. |
| Monitors.PayloadsAreAnswers | src/report/monitor.rs:298-357 | In every run, whatever is stored or sent for an id spells the padded block of one answered turn of that id. |
| Monitors.MonitorProcessor.TriggerMonitorsDirect | src/report/monitor.rs:268-360 | A tick is a run of one iteration for each configured monitor, each exactly once; its messages are that run's emissions. A panic is reported if and only if the last iteration panics; none before it does; it ends the tick and loses its messages. |
| Monitors.TicksTurnEachMonitorOnce | src/report/monitor.rs:268-360 | In a tick of any order a monitor alone under its id takes one turn with its own answer, from the state before the tick, and sends what that turn sends. |
| Monitors.PanickedMonitorsAreStuck | src/report/monitor.rs:278-312 | In every run in which an id's monitors have offsets beyond their blocks, nothing is read or sent for it; the running flag is set if and only if the PLC answered a turn since the state was last dropped, and until then the state is fresh. |
| Monitors.TicksAreOneRun | src/report/monitor.rs:268-360 | Ticks in a row are one run: the states go on and the emissions add up. |
| Monitors.TraceIsProjection | src/report/monitor.rs:278-357 | What happens to an id is its own share of the processor's run: ids do not influence each other. |
| Monitors.SentIsReadUpToRepeats | src/report/monitor.rs:278-357 | For every run with failures, resends and reconfigurations, the payloads sent and the blocks read are equal once repeats are collapsed; stored data is the last payload sent; the running flag is never left set. |
| Monitors.EmptyBlocksAreNeverSent | src/report/monitor.rs:308-347 | Monitors without bytes send nothing in any run. |
| Monitors.MonitorTiming | src/report/monitor.rs:287-356 | For a monitor that stays configured, in runs with any other monitors and reconfigurations: equal payloads in a row are at least the resend interval apart, reads at least the frequency apart; at its latest turn the last send is younger than the resend interval, and the last block read, if the PLC answered, younger than the frequency. Empty blocks are read on the same timers but never sent. |
| Deploy.DeployTo | src/deploy.rs:395-443 | Deploying resolves the target, encodes, cuts the window and writes it, or fails or panics leaving the memory as it was. |
| Deploy.DeploysExactlyWhen | src/deploy.rs:395-443 | When a deployment succeeds, panics or fails, in terms of target, content, block size, offset, length and data block; unless it succeeds nothing is written. |
| Deploy.DeployThenObserve | src/deploy.rs:424-439 | After a deployment, a monitor's padded block decodes to the normalised deployed value of every isolated field inside both windows, and PLC bytes outside the written window are unchanged. |
| Deploy.DeployedBytesLandModulo64K | src/deploy.rs:424-439 | After a deployment at any offset, byte j of the window is in the data block at the offset modulo 65536 plus j, and every other byte is unchanged. |
| Reports.AppendedReportDescribesTheRead | src/report/cache.rs:266-299 | An appended report names its station, address and data block; its text, task id and times are those of the bytes read, end time 0 exactly if unreadable. |
| Reports.EmptyStaysEmpty | src/report/cache.rs:301-302 | A station without reports has none after any run. |
| Reports.LengthIsBounded | src/report/cache.rs:231-244 | A list never exceeds the larger of its length at any earlier time and the configured count, so a list within the bound stays and a longer one never grows. |
| Reports.PollSettles | src/report/cache.rs:205-256 | After any poll, another poll with the same bytes would neither append nor rewrite. |
| Reports.PollingIsIdempotent | src/report/cache.rs:205-330 | After one poll with given bytes, any run of polls with the same bytes, failed reads, acknowledgements and updates appends nothing and changes no content. |
| Reports.AppendLosesExactlyTheUnsentFront | src/report/cache.rs:231-244 | An append keeps all unsent reports in order, except that it loses the front if and only if the list is full and the front unsent. |
| Reports.SentReportsWouldHaveMadeRoom | src/report/cache.rs:231-244 | When the list is just full and holds a sent report, an append that loses an unsent front loses it needlessly: all unsent reports and the new one are within the configured count. |
| Reports.AnUnsentReportIsLost | src/report/cache.rs:205-244 | An instance: of a full list of an unsent and a sent report, only the new report is left. |
| ReportLedger.ReportsAreConserved | src/report/cache.rs:158-257 | Over every interleaving the ledger erases to the list and accounts for every report: live if and only if held unsent, delivered, evicted or withdrawn otherwise; kept reports stay in append order; the back is the last one appended. |
| ReportLedger.NoDoubleAppend | src/report/cache.rs:301-329 | Of two reports appended in a row, the later has another task id, or without a task other times. |
| ReportLedger.FatesHaveCauses | src/report/cache.rs:231-244 | A live report becomes delivered, evicted or withdrawn if and only if it is acknowledged by id, is the front of a full list at an append, or its station leaves the configuration; a step appends at most one and evicts at most one. |
| ReportLedger.ReportIdsAreClockReadings | src/report/cache.rs:266-299 | Every report appended in a run is that of a successful poll of its station, another poll for each: its id is the clock reading, its content the bytes read, its station and address that station's. |
| ReportLedger.HeldReportsNameTheirStation | src/report/cache.rs:205-299 | Every report held after a run, unless there at the start, names its own station, whatever was rewritten since. |
| ReportLedger.AcknowledgementIsFinal | src/report/cache.rs:245-254 | Over every later run fates stay, sent never returns to false, a sent report held is unchanged, no report comes back, and only the newest report's content is ever rewritten. |
| ReportCache.StationsAreIndependent | src/report/cache.rs:158-257 | In every run of the whole cache each station's list is that of its own run. |
| ReportCache.EveryReportIsAccountedFor | src/report/cache.rs:158-257 | For all stations of every run of the whole cache, the ledger erases to the cached list and is complete. |
| ReportCache.TicksSendExactlyTheLive | src/report/cache.rs:190-201 | Every live report is among each tick's messages, and messages are unsent reports of the cache only. |
| ReportCache.AcknowledgementsEndOneLife | src/report/cache.rs:453-462 | After any run of the whole cache, every acknowledgement ends at most one live report if and only if no two live reports of any stations share an id. |
| ReportCache.DistinctClocksMakeAcknowledgementsExact | src/report/cache.rs:266-270 | If the reports at the start have different ids and no two successful polls read the same time, every acknowledgement ends at most one live report. |
| ReportCache.EmptyCachesStayEmpty | src/report/cache.rs:301-302 | From caches without reports no run ever takes one. |
| ReportCache.PollsAddTheirStations | src/report/cache.rs:205-257 | Over any run without configuration updates the stations are those before and those of the polls that committed. |
| ReportCache.InFlightPollsReviveStations | src/report/cache.rs:158-223 | After the last configuration update of any run, the stations are the configured ones and those that committed since: exactly the configured ones if and only if every committed poll is of a configured station. |
| ReportCache.Cache.UpdateFillStations | src/report/cache.rs:158-176 | The stations become the configured ones; kept stations keep their lists, new ones start empty. |
| ReportCache.Cache.PurgeSent | src/report/cache.rs:237-242 | The purge keeps exactly the unsent reports in order. |
| ReportCache.Cache.ReadReport | src/report/cache.rs:205-257 | A commit changes the cache by the poll step of its station and nothing else. |
| ReportCache.Cache.DeleteReport | src/report/cache.rs:453-462 | The nested loops mark exactly the reports with the id, in all stations. |
| ReportCache.Cache.CollectUnsent | src/report/cache.rs:190-201 | The messages are the unsent reports of all stations, each station once. |
| ReportCache.Cache.ReadAndSendReportsDirect | src/report/cache.rs:180-202 | A tick is a run of one poll for each station of the snapshot, each exactly once, followed by the unsent reports of the state after it. |
| ReportCache.TicksPollEachStationOnce | src/report/cache.rs:180-202 | In a tick of any order each station of the snapshot is polled once, from its list before the tick and with its own answer; others keep their lists. |
| ReportCache.Cache.ObserveStatus | src/report/cache.rs:419-435 | One status read updates the cache, decides to send and records the send time. |
| ReportCache.Cache.ReadAndSendStatusDirect | src/report/cache.rs:392-450 | A status tick visits each station exactly once, observes those with a status block that answer, and sends one message with the statuses due, none if none is. |
| ReportCache.TicksReadEachStatusOnce | src/report/cache.rs:392-422 | A status tick of any order reads a station alone under its id once, with the text of its answer, if it has a status block and answers. |
| ReportCache.ReadingsAreTheAnswers | src/report/cache.rs:392-422 | The readings of a status tick are the answers of the stations with a status block, also where ids are shared. |
| StatusStream.StatusesSentAreThoseRead | src/report/cache.rs:417-435 | Per station id, statuses sent and statuses read are equal once repeats are collapsed, and the cache holds the latest. |
| StatusStream.StatusTiming | src/report/cache.rs:424-434 | Equal statuses in a row are more than 30000 ms apart, and after each read the last send is at most 30000 ms old. |
| StatusStream.StatusTicksAreOneRun | src/report/cache.rs:392-450 | Status ticks in a row are one run: the state goes on and the statuses sent add up. |
| Cloud.ApplySettles | src/grpc/cloud.rs:423-446 | Applying a detail yields a state that already is what the detail asks for. |
| Cloud.SettledIsFixed | src/grpc/cloud.rs:423-446 | Re-applying a detail is the identity if and only if the PLC list, stations, monitors, metadata and addresses are settled for it. |
| Cloud.SkippingIsSound | src/grpc/cloud.rs:397-449 | Over every run of commands one at a time, whole ticks and acknowledgements, skipping an equal detail and always re-applying it end in the same PLC list, stations, reports, monitors, states, addresses, metadata and statuses. |
| Cloud.FreshNodesMaySkip | src/grpc/cloud.rs:90-90 | From the start of a session on, over every such run, skipping and always re-applying end in the same state. |
| Cloud.LatestConfigurationIsInForce | src/grpc/cloud.rs:397-449 | After every run, the skipping node has stored the detail of the last command that lists PLCs, and all of it is in force: PLCs, stations, monitors, addresses and definitions. |
| Cloud.UnlistedChangesNothing | src/grpc/cloud.rs:406-412 | Until a command lists PLCs the configuration is the one the run began with. |
| Cloud.KeptStationsKeepTheirReports | src/grpc/cloud.rs:423-433 | A command keeps the reports of every station that stays, applied or skipped; new stations start without, dropped ones go. |
| Cloud.DeploymentsReachConfiguredStations | src/deploy.rs:395-415 | A deployment naming a configured station goes to its address, one naming an unknown station fails, one naming none goes where its monitor is. |
| Cloud.SubmittedReportsAreMarked | src/grpc/cloud.rs:600-606 | A submitted text marks exactly the reports whose 64-bit id it spells, in every list; any other text changes nothing. |
| Cloud.WrittenPartsAreSettled | src/grpc/cloud.rs:413-446 | In any interleaving of the steps of several commands, straddling polls, ticks and acknowledgements, the PLC list, monitors, metadata and addresses stay settled for the detail they were last updated for. |
| Cloud.WrittenStationsAndCommits | src/grpc/cloud.rs:423-433 | In any such interleaving the stations are those they were last updated for and those whose polls committed since. |
| Cloud.TasksAgreeExactlyWhenSettled | src/grpc/cloud.rs:400-446 | After any interleaving, skipping the stored detail and re-applying it agree if and only if it lists no PLC or every cache is settled for it. If each cache was last updated for the detail stored last, they are settled if and only if it lists no stations or no other station's poll has committed since. |
| Cloud.TwoTasksCanMixDetails | src/grpc/cloud.rs:401-421 | For any two details with different PLC lists, the first of them new, an interleaving of two tasks that both find their detail new leaves the first list under the second detail, where skipping keeps it and re-applying would not. |
| Cloud.InFlightPollBreaksSkipping | src/grpc/cloud.rs:401-433 | Re-applying is a no-op if and only if the cache holds exactly the configured stations; a read in flight over a removal breaks that and makes the two variants differ. |
| Cloud.CloudSession.ParsePlcList | src/grpc/cloud.rs:648-669 | The list holds the items with all three parts in order, none if the detail is no array. |
| Cloud.PlcsAreTheItems | src/grpc/cloud.rs:648-669 | The PLCs listed are those of the items with all three parts, each with its own id, address and sixteen-bit port. |
| Cloud.PlcsKeepTheOrder | src/grpc/cloud.rs:648-669 | The list of joined items is the joined lists. |
| Cloud.CloudSession.SaveMeta | src/deploy.rs:227-252 | All definitions are inserted in order under their type names. |
| Cloud.CloudSession.ApplyDetail | src/grpc/cloud.rs:415-447 | The updates of the five shared caches amount to the application of the detail. |
| Cloud.CloudSession.HandlePlcInfoCommand | src/grpc/cloud.rs:397-455 | The command applies a changed detail that lists PLCs, leaves the state alone otherwise, and answers for every listed PLC each time. |
| Cloud.CloudSession.HandleReportSubmittedCommand | src/grpc/cloud.rs:600-606 | A detail that parses as an i64 acknowledges that report, any other does nothing. |

## Left out

- MonitorTiming: assumes a clock that does not run backwards from turn to turn, because the source subtracts unsigned times, a monitor that stays configured with its offset in its block, and no second monitor under its id, because state is keyed by id.
- StatusTiming: assumes a clock that does not run backwards, for the same subtraction.
- SentIsReadUpToRepeats: assumes, of the monitors under the id, blocks with at least one byte and offsets inside the block; the empty block is `EmptyBlocksAreNeverSent`, an offset beyond the block `PanickedMonitorsAreStuck`. Runs let other ids go on after a panic, where the source's background loop ends, and count as sent what that tick then loses (see `TriggerMonitorsDirect`).
- DeployThenObserve: assumes the deployment's offset, the monitor's offset and its read size below 65536, the driver's range; `DeployedBytesLandModulo64K` says where the bytes go beyond it.
- SkippingIsSound: assumes commands handled one at a time and ticks that do not straddle them; `TasksAgreeExactlyWhenSettled` treats interleaved commands and straddling polls.
- BlockRoundTrip: assumes unique names, disjoint extents inside the block and elements of positive width for the whole definition; `FieldRoundTrip` asks this of one field only, and overlaps are covered by `BytesComeFromTheirLastWriter` and `EncodersAgree`.
- Real, BigDecimal, DateTime, WString and LongAsDateTime codecs: floating point, calendar text and UTF-16 belong to libraries; block theorems hold for arbitrary functions in their place. The wide-string codec's header differs between its two directions, so it has no round trip.
- JSON text, disk persistence and configuration parsing: parsed records are inputs; JSON integers are unbounded and floats are reals.
- Overflow of offset plus width times count beyond 64 bits: schema sizes are unbounded naturals.
- The POST of a monitor payload to its local address and the callbacks in its response: they follow the cloud message one to one and call deploy.
- Connection pooling, reachability tests, gRPC, HTTP pages, signing, logging and the background loops: input and output.
- Reconnect, read, write, status and config commands: each forwards one request.
- Blocking on the runtime inside `encode` and `decode_as_map`: the definition cache is a plain map.

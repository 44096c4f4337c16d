// The status sender of ReportCache (src/report/cache.rs:391-450): it sends a station's
// status when it changes, and an unchanged one again after thirty seconds.
module StatusStream {
  import opened Prelude
  import opened Streams

  const STATUS_RESEND_MILLIS := 30_000

  /** The latest text read and the time of the last send, by station id. */
  datatype StatusState = StatusState(cache: map<string, string>, sentAt: map<string, U64>)

  const NO_STATUS := StatusState(map[], map[])

  predicate ShouldSend(s: StatusState, read: Emission) {
    || read.id !in s.cache
    || s.cache[read.id] != read.payload
    || read.id !in s.sentAt
    || ElapsedMillis(read.at, s.sentAt[read.id]) > STATUS_RESEND_MILLIS
  }

  function Observe(s: StatusState, read: Emission): StatusState {
    StatusState(s.cache[read.id := read.payload],
                if ShouldSend(s, read) then s.sentAt[read.id := read.at] else s.sentAt)
  }

  function ObserveAll(s: StatusState, readings: seq<Emission>): StatusState {
    if readings == [] then s else Observe(ObserveAll(s, Front(readings)), Last(readings))
  }

  /** The reads of a run that lead to a send. */
  function SentOf(s: StatusState, readings: seq<Emission>): seq<Emission> {
    if readings == [] then []
    else
      var before := ObserveAll(s, Front(readings));
      if ShouldSend(before, Last(readings)) then SentOf(s, Front(readings)) + [Last(readings)]
      else SentOf(s, Front(readings))
  }

  /** Status ticks in a row are one run. */
  lemma {:induction false} StatusTicksAreOneRun(s: StatusState, readings: seq<Emission>, later: seq<Emission>)
    ensures ObserveAll(s, readings + later) == ObserveAll(ObserveAll(s, readings), later)
    ensures SentOf(s, readings + later) == SentOf(s, readings) + SentOf(ObserveAll(s, readings), later)
  {
    if later == [] {
      assert readings + later == readings;
    } else {
      hide Observe, ShouldSend;
      StatusTicksAreOneRun(s, readings, Front(later));
      assert Front(readings + later) == readings + Front(later);
    }
  }

  predicate ClockRunsForward(s: seq<Emission>) {
    forall i, j :: 0 <= i <= j < |s| ==> s[i].at <= s[j].at
  }

  predicate RepeatsFartherThan(s: seq<Emission>, gap: nat) {
    forall i :: 0 < i < |s| && s[i].payload == s[i - 1].payload ==> s[i].at - s[i - 1].at > gap
  }

  /** State and streams of one id agree. */
  ghost predicate Tracks(s: StatusState, id: string, read: seq<Emission>, sent: seq<Emission>) {
    && (read == [] <==> sent == [])
    && (id in s.cache <==> read != []) && (id in s.sentAt <==> sent != [])
    && (read != [] ==>
        && s.cache[id] == Last(read).payload == Last(sent).payload
        && s.sentAt[id] == Last(sent).at)
    && Collapse(Payloads(read)) == Collapse(Payloads(sent))
  }

  ghost predicate Timely(read: seq<Emission>, sent: seq<Emission>) {
    && RepeatsFartherThan(sent, STATUS_RESEND_MILLIS)
    && (read != [] ==> sent != [] && 0 <= Last(read).at - Last(sent).at <= STATUS_RESEND_MILLIS)
  }

  lemma OneMore(s: seq<Emission>, x: Emission, id: string)
    ensures OfId(s + [x], id) == if x.id == id then OfId(s, id) + [x] else OfId(s, id)
  {
    assert Front(s + [x]) == s;
  }

  /** The last reading of a run, seen from one id. */
  lemma OneMoreReading(readings: seq<Emission>, id: string)
    requires readings != []
    ensures var front, x := Front(readings), Last(readings);
            var sent := OfId(SentOf(NO_STATUS, front), id);
            && OfId(readings, id) == (if x.id == id then OfId(front, id) + [x] else OfId(front, id))
            && OfId(SentOf(NO_STATUS, readings), id)
               == (if x.id == id && ShouldSend(ObserveAll(NO_STATUS, front), x) then sent + [x] else sent)
  {
    hide ShouldSend, Observe;
    var front, x := Front(readings), Last(readings);
    OneMore(front, x, id);
    OneMore(SentOf(NO_STATUS, front), x, id);
    assert readings == front + [x];
  }

  lemma ObserveTracks(s: StatusState, id: string, read: seq<Emission>, sent: seq<Emission>, x: Emission)
    requires Tracks(s, id, read, sent) && x.id == id
    ensures Tracks(Observe(s, x), id, read + [x], if ShouldSend(s, x) then sent + [x] else sent)
  {
    hide Collapse, Payloads;
    PayloadsSnoc(read, x);
    PayloadsSnoc(sent, x);
  }

  /** For every station id and every run: the statuses sent, repeats collapsed, are the
      statuses read, repeats collapsed; the cache holds the latest status. */
  lemma {:induction false} StatusesSentAreThoseRead(id: string, readings: seq<Emission>)
    ensures Tracks(ObserveAll(NO_STATUS, readings), id, OfId(readings, id), OfId(SentOf(NO_STATUS, readings), id))
  {
    if readings != [] {
      hide Tracks, Observe, ShouldSend, SentOf, OfId;
      var front, x := Front(readings), Last(readings);
      StatusesSentAreThoseRead(id, front);
      OneMoreReading(readings, id);
      var before := ObserveAll(NO_STATUS, front);
      if x.id == id {
        ObserveTracks(before, id, OfId(front, id), OfId(SentOf(NO_STATUS, front), id), x);
      } else {
        OthersDoNotMatter(before, id, OfId(front, id), OfId(SentOf(NO_STATUS, front), id), x);
      }
    }
  }

  lemma OthersDoNotMatter(s: StatusState, id: string, read: seq<Emission>, sent: seq<Emission>, x: Emission)
    requires Tracks(s, id, read, sent) && x.id != id
    ensures Tracks(Observe(s, x), id, read, sent)
  {
  }

  lemma ObserveIsTimely(s: StatusState, id: string, read: seq<Emission>, sent: seq<Emission>, x: Emission)
    requires Tracks(s, id, read, sent) && Timely(read, sent) && x.id == id
    requires read != [] ==> Last(read).at <= x.at
    ensures Timely(read + [x], if ShouldSend(s, x) then sent + [x] else sent)
  {
    hide Collapse, Payloads;
    if ShouldSend(s, x) && sent != [] && x.payload == Last(sent).payload {
      assert x.at - Last(sent).at > STATUS_RESEND_MILLIS;
    }
  }

  lemma {:induction false} LastOfIdIsNotLater(readings: seq<Emission>, id: string, now: U64)
    requires forall x :: x in readings ==> x.at <= now
    ensures forall x :: x in OfId(readings, id) ==> x.at <= now
  {
    if readings != [] {
      assert Last(readings) in readings;
      LastOfIdIsNotLater(Front(readings), id, now);
    }
  }

  /** On a clock that does not run backwards: equal statuses sent in a row are more than
      thirty seconds apart, and after each read the last send is at most thirty seconds old. */
  lemma {:induction false} StatusTiming(id: string, readings: seq<Emission>)
    requires ClockRunsForward(readings)
    ensures Timely(OfId(readings, id), OfId(SentOf(NO_STATUS, readings), id))
  {
    if readings != [] {
      hide Timely, Tracks, Observe, ShouldSend, ClockRunsForward, SentOf, ObserveAll, OfId;
      var front, x := Front(readings), Last(readings);
      ClockOfFront(readings, id);
      StatusTiming(id, front);
      StatusesSentAreThoseRead(id, front);
      OneMoreReading(readings, id);
      if x.id == id {
        ObserveIsTimely(ObserveAll(NO_STATUS, front), id, OfId(front, id), OfId(SentOf(NO_STATUS, front), id), x);
      }
    }
  }

  lemma ClockOfFront(readings: seq<Emission>, id: string)
    requires readings != [] && ClockRunsForward(readings)
    ensures ClockRunsForward(Front(readings))
    ensures var earlier := OfId(Front(readings), id); earlier != [] ==> Last(earlier).at <= Last(readings).at
  {
    var front, x := Front(readings), Last(readings);
    forall r | r in front ensures r.at <= x.at {
      var i :| 0 <= i < |front| && front[i] == r;
      assert readings[i].at <= readings[|readings| - 1].at;
    }
    LastOfIdIsNotLater(front, id, x.at);
    assert OfId(front, id) != [] ==> Last(OfId(front, id)) in OfId(front, id);
  }
}

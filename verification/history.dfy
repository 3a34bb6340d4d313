/** The server over a whole sequence of `/update` requests: what the read
    endpoints list after them, in terms of what each request produced. Since a
    request's outcome does not depend on the state, a run is the replay of the
    outcomes of its requests, and the lemmas are stated over outcomes. */
module History {
  import opened Results
  import Retention
  import opened App

  /** One request and the clock reading taken when it arrived. */
  datatype Submission = Submission(req: Request, now: string)

  /** The state after handling `subs` in order, starting from `st`. */
  function Run(libs: Libs, st: Store, subs: seq<Submission>): (r: Store)
    ensures Valid(st) ==> Valid(r)
    ensures |r.raw| <= |st.raw| + |subs|
    decreases |subs|
  {
    if subs == [] then st else Run(libs, Ingest(libs, st, subs[0].req, subs[0].now).store, subs[1..])
  }

  /** The outcome of each submission, in order. */
  function Outcomes(libs: Libs, subs: seq<Submission>): (os: seq<Outcome>)
    ensures |os| == |subs|
    decreases |subs|
  {
    if subs == [] then [] else [Process(libs, subs[0].req, subs[0].now)] + Outcomes(libs, subs[1..])
  }

  /** The state after applying the outcomes `os` in order. */
  function Replay(st: Store, os: seq<Outcome>): Store
    decreases |os|
  {
    if os == [] then st else Replay(Apply(st, os[0]).store, os[1..])
  }

  /** Handling the requests one by one is replaying their outcomes. */
  lemma {:induction false} RunIsReplay(libs: Libs, st: Store, subs: seq<Submission>)
    ensures Run(libs, st, subs) == Replay(st, Outcomes(libs, subs))
    decreases |subs|
  {
    if subs != [] {
      var os := Outcomes(libs, subs);
      assert os[0] == Process(libs, subs[0].req, subs[0].now) && os[1..] == Outcomes(libs, subs[1..]);
      RunIsReplay(libs, Ingest(libs, st, subs[0].req, subs[0].now).store, subs[1..]);
    }
  }

  /** The raw record, reading and alert one outcome contributes (none for a crash). */
  function RawOf(o: Outcome): seq<RawEntry> {
    if o.Recorded? then [o.entry] else []
  }

  function ReadingOf(o: Outcome): seq<Reading> {
    if o.Recorded? && o.reading.Some? then [o.reading.value] else []
  }

  function AlertOf(o: Outcome): seq<Alert> {
    if o.Recorded? && o.alert.Some? then [o.alert.value] else []
  }

  /** Every raw record the outcomes produced (one per request that did not crash). */
  function ProducedRaw(os: seq<Outcome>): seq<RawEntry>
    decreases |os|
  {
    if os == [] then [] else RawOf(os[0]) + ProducedRaw(os[1..])
  }

  /** Every reading the outcomes produced, oldest first, before any trimming. */
  function ProducedReadings(os: seq<Outcome>): seq<Reading>
    decreases |os|
  {
    if os == [] then [] else ReadingOf(os[0]) + ProducedReadings(os[1..])
  }

  /** Every alert the outcomes produced, oldest first, before any trimming. */
  function ProducedAlerts(os: seq<Outcome>): seq<Alert>
    decreases |os|
  {
    if os == [] then [] else AlertOf(os[0]) + ProducedAlerts(os[1..])
  }

  /** The alerts raised for the critical members of `rs`, in order. */
  function AlertsOfCritical(libs: Libs, rs: seq<Reading>): seq<Alert>
    decreases |rs|
  {
    if rs == [] then []
    else (if rs[0].isCritical then [AlertFor(libs, rs[0])] else []) + AlertsOfCritical(libs, rs[1..])
  }

  /** Each list keeps its cap over any run, and each listing holds exactly the
      most recent entries produced (50 raw records, 100 readings, 50 alerts), in
      the order they were produced. */
  lemma RunKeepsMostRecent(libs: Libs, st: Store, subs: seq<Submission>)
    requires Valid(st)
    ensures var os := Outcomes(libs, subs);
      && Valid(Run(libs, st, subs))
      && GetRawData(Run(libs, st, subs)) == Retention.LastN(st.raw + ProducedRaw(os), RawCap)
      && GetData(Run(libs, st, subs)) == Retention.LastN(st.readings + ProducedReadings(os), ReadingCap)
      && GetCriticalAlerts(Run(libs, st, subs)) == Retention.LastN(st.alerts + ProducedAlerts(os), AlertCap)
  {
    var os := Outcomes(libs, subs);
    RunIsReplay(libs, st, subs);
    ReplayStaysValid(st, os);
    ReplayRaw(st, os);
    ReplayReadings(st, os);
    ReplayAlerts(st, os);
  }

  /** Over any sequence of outcomes, each list stays within its cap. */
  lemma {:induction false} ReplayStaysValid(st: Store, os: seq<Outcome>)
    requires Valid(st)
    ensures Valid(Replay(st, os))
    decreases |os|
  {
    if os != [] {
      ReplayStaysValid(Apply(st, os[0]).store, os[1..]);
    }
  }

  /** One outcome extends each list by what it contributes and keeps the last N. */
  lemma ApplyAppends(st: Store, o: Outcome)
    requires Valid(st)
    ensures var next := Apply(st, o).store;
      && next.raw == Retention.LastN(st.raw + RawOf(o), RawCap)
      && next.readings == Retention.LastN(st.readings + ReadingOf(o), ReadingCap)
      && next.alerts == Retention.LastN(st.alerts + AlertOf(o), AlertCap)
  {
    assert st.raw + [] == st.raw && st.readings + [] == st.readings && st.alerts + [] == st.alerts;
  }

  lemma {:induction false} ReplayRaw(st: Store, os: seq<Outcome>)
    requires Valid(st)
    ensures Replay(st, os).raw == Retention.LastN(st.raw + ProducedRaw(os), RawCap)
    decreases |os|
  {
    if os == [] {
      assert st.raw + [] == st.raw;
    } else {
      var tail := ProducedRaw(os[1..]);
      ApplyAppends(st, os[0]);
      ReplayRaw(Apply(st, os[0]).store, os[1..]);
      Retention.LastNAppend(st.raw + RawOf(os[0]), tail, RawCap);
      Retention.AppendAssoc(st.raw, RawOf(os[0]), tail);
    }
  }

  lemma {:induction false} ReplayReadings(st: Store, os: seq<Outcome>)
    requires Valid(st)
    ensures Replay(st, os).readings == Retention.LastN(st.readings + ProducedReadings(os), ReadingCap)
    decreases |os|
  {
    if os == [] {
      assert st.readings + [] == st.readings;
    } else {
      var tail := ProducedReadings(os[1..]);
      ApplyAppends(st, os[0]);
      ReplayReadings(Apply(st, os[0]).store, os[1..]);
      Retention.LastNAppend(st.readings + ReadingOf(os[0]), tail, ReadingCap);
      Retention.AppendAssoc(st.readings, ReadingOf(os[0]), tail);
    }
  }

  lemma {:induction false} ReplayAlerts(st: Store, os: seq<Outcome>)
    requires Valid(st)
    ensures Replay(st, os).alerts == Retention.LastN(st.alerts + ProducedAlerts(os), AlertCap)
    decreases |os|
  {
    if os == [] {
      assert st.alerts + [] == st.alerts;
    } else {
      var tail := ProducedAlerts(os[1..]);
      ApplyAppends(st, os[0]);
      ReplayAlerts(Apply(st, os[0]).store, os[1..]);
      Retention.LastNAppend(st.alerts + AlertOf(os[0]), tail, AlertCap);
      Retention.AppendAssoc(st.alerts, AlertOf(os[0]), tail);
    }
  }

  /** A request yields an alert exactly when it yields a critical reading, and the
      alert is that reading's. */
  lemma ProcessAlertFollowsReading(libs: Libs, sub: Submission)
    ensures var o := Process(libs, sub.req, sub.now);
      AlertOf(o) == AlertsOfCritical(libs, ReadingOf(o))
  {
    var o := Process(libs, sub.req, sub.now);
    var rs := ReadingOf(o);
    if rs != [] {
      assert rs[1..] == [];
    }
  }

  /** The alerts the requests produced are exactly the alerts of the critical
      readings they produced: no alert without a critical reading, no critical
      reading without its alert. */
  lemma {:induction false} AlertsFollowCriticalReadings(libs: Libs, subs: seq<Submission>)
    ensures ProducedAlerts(Outcomes(libs, subs)) == AlertsOfCritical(libs, ProducedReadings(Outcomes(libs, subs)))
    decreases |subs|
  {
    if subs != [] {
      var os := Outcomes(libs, subs);
      assert os[0] == Process(libs, subs[0].req, subs[0].now) && os[1..] == Outcomes(libs, subs[1..]);
      ProcessAlertFollowsReading(libs, subs[0]);
      AlertsFollowCriticalReadings(libs, subs[1..]);
      AlertsOfCriticalAppend(libs, ReadingOf(os[0]), ProducedReadings(os[1..]));
    }
  }

  lemma {:induction false} AlertsOfCriticalAppend(libs: Libs, a: seq<Reading>, b: seq<Reading>)
    ensures AlertsOfCritical(libs, a + b) == AlertsOfCritical(libs, a) + AlertsOfCritical(libs, b)
    decreases |a|
  {
    if a == [] {
      assert a + b == b;
    } else {
      assert (a + b)[1..] == a[1..] + b;
      AlertsOfCriticalAppend(libs, a[1..], b);
    }
  }

  lemma {:induction false} AlertOfSomeCriticalReading(libs: Libs, rs: seq<Reading>, alert: Alert)
    requires alert in AlertsOfCritical(libs, rs)
    ensures exists r :: r in rs && r.isCritical && alert == AlertFor(libs, r)
    decreases |rs|
  {
    if rs[0].isCritical && alert == AlertFor(libs, rs[0]) {
    } else {
      AlertOfSomeCriticalReading(libs, rs[1..], alert);
      var r :| r in rs[1..] && r.isCritical && alert == AlertFor(libs, r);
      assert r in rs;
    }
  }

  /** Every alert `GET /critical-alerts` lists after any run from start-up was
      raised for a critical reading some request produced, and copies it. */
  lemma ListedAlertsAreCritical(libs: Libs, subs: seq<Submission>, alert: Alert)
    requires alert in GetCriticalAlerts(Run(libs, Empty, subs))
    ensures exists r :: r in ProducedReadings(Outcomes(libs, subs)) && r.isCritical && alert == AlertFor(libs, r)
    ensures alert.alertType == "CRITICAL" && alert.severity == "HIGH"
  {
    var os := Outcomes(libs, subs);
    RunKeepsMostRecent(libs, Empty, subs);
    AlertsFollowCriticalReadings(libs, subs);
    var all := ProducedAlerts(os);
    assert Empty.alerts + all == all;
    assert alert in all;
    AlertOfSomeCriticalReading(libs, ProducedReadings(os), alert);
  }

  /** After outcomes holding 101 readings, the reading list holds 100 of them:
      the first is gone and the other 100 remain in order. */
  lemma HundredAndOneReadings(os: seq<Outcome>)
    requires |ProducedReadings(os)| == 101
    ensures |Replay(Empty, os).readings| == 100
    ensures Replay(Empty, os).readings == ProducedReadings(os)[1..]
    ensures TestCounts(Replay(Empty, os)).healthData == 100
  {
    ReplayReadings(Empty, os);
    assert Empty.readings + ProducedReadings(os) == ProducedReadings(os);
  }
}

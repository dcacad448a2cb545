/** The server's reporting tick: its own `recentViolations` dictionary, the
    reduction to the violations to send, and the change gate on
    `previousSentViolations` in front of the event-stream broadcast. */
module Server {
  import opened Records
  import opened Distance
  import opened History
  import opened GetViolatingDrones

  /** `previousSentViolations`: the empty string it starts as, or the JSON
      text of a list of violations. `JSON.stringify` is injective on these
      lists, so the text is represented by the list it encodes and comparing
      texts is comparing lists. */
  datatype SentText = EmptyString | Json(violations: seq<Option<Violation>>)

  /** Everything a tick reads and writes: the dictionary, the last text and
      the log of `sse.send` payloads, oldest first. */
  datatype State = State(recent: Table, previousSent: SentText, broadcasts: seq<seq<Option<Violation>>>)

  /** The state at start-up: `{}`, `""` and nothing sent yet. */
  const Initial: State := State(Empty, EmptyString, [])

  /** `reportDrones` on the batch `nowViolatingDrones` at time `now`: merge,
      evict, reduce with `o`, send when the text differs from the last one,
      and keep the new text either way. */
  function Report(s: State, nowViolatingDrones: seq<Violation>, now: int, o: DistOrder): State
  {
    var recent := Evict(Merge(s.recent, nowViolatingDrones), now - WindowMillis);
    var violationsToSend := ClosestAll(recent, o);
    var text := Json(violationsToSend);
    State(recent, text, if text != s.previousSent then s.broadcasts + [violationsToSend] else s.broadcasts)
  }

  /** After a tick the dictionary is well formed, holds only records strictly
      after `now` minus ten minutes, and each serial's list is the recent part
      of its earlier records followed by its incoming ones in batch order. */
  lemma ReportTable(s: State, nowViolatingDrones: seq<Violation>, now: int, o: DistOrder)
    requires WellFormed(s.recent)
    ensures WellFormed(Report(s, nowViolatingDrones, now, o).recent)
    ensures forall k, v :: k in Report(s, nowViolatingDrones, now, o).recent.lists && v in Report(s, nowViolatingDrones, now, o).recent.lists[k] ==>
              v.timestamp > now - WindowMillis
    ensures forall k :: Lookup(Report(s, nowViolatingDrones, now, o).recent, k) ==
              Recent(Lookup(s.recent, k), now - WindowMillis) + Recent(OfSerial(nowViolatingDrones, k), now - WindowMillis)
  {
    MergeWellFormed(s.recent, nowViolatingDrones);
    EvictSpec(Merge(s.recent, nowViolatingDrones), now - WindowMillis);
    forall k {
      UpdateLists(s.recent, nowViolatingDrones, now - WindowMillis, k);
    }
  }

  /** `violationsToSend` has one entry per remaining key, in key order, each
      the first closest record of that key's list; a broadcast happens iff its
      text differs from the previous one, sends exactly that list, and the new
      text is stored whether or not it was sent. */
  lemma ReportGate(s: State, nowViolatingDrones: seq<Violation>, now: int, o: DistOrder)
    requires WellFormed(s.recent)
    ensures var r := Report(s, nowViolatingDrones, now, o);
            && |r.previousSent.violations| == |r.recent.order|
            && (forall i :: 0 <= i < |r.recent.order| ==>
                  IsClosestOfKey(r.recent, o, r.recent.order[i], r.previousSent.violations[i]))
            && (r.broadcasts != s.broadcasts <==> r.previousSent != s.previousSent)
            && (r.broadcasts == s.broadcasts || r.broadcasts == s.broadcasts + [r.previousSent.violations])
  {
    ReportTable(s, nowViolatingDrones, now, o);
    ClosestAllSpec(Report(s, nowViolatingDrones, now, o).recent, o);
  }

  /** The gate's invariant: the last text is `""` before any broadcast and the
      text of the last broadcast afterwards, so a client that received every
      broadcast holds the latest list. */
  ghost predicate InSync(s: State)
  {
    s.previousSent == if s.broadcasts == [] then EmptyString else Json(s.broadcasts[|s.broadcasts| - 1])
  }

  lemma ReportKeepsInSync(s: State, nowViolatingDrones: seq<Violation>, now: int, o: DistOrder)
    requires InSync(s)
    ensures InSync(Report(s, nowViolatingDrones, now, o))
  {
  }

  /** The first tick always broadcasts, even an empty list, because `""` is
      not the text of any list. */
  lemma FirstTickBroadcasts(nowViolatingDrones: seq<Violation>, now: int, o: DistOrder)
    ensures |Report(Initial, nowViolatingDrones, now, o).broadcasts| == 1
  {
  }

  /** Two consecutive ticks that compute the same list broadcast at most once:
      the second is suppressed. */
  lemma RepeatIsSuppressed(s: State, batch1: seq<Violation>, now1: int, batch2: seq<Violation>, now2: int, o: DistOrder)
    requires
      var s1 := Report(s, batch1, now1, o);
      ClosestAll(Report(s1, batch2, now2, o).recent, o) == ClosestAll(s1.recent, o)
    ensures Report(Report(s, batch1, now1, o), batch2, now2, o).broadcasts == Report(s, batch1, now1, o).broadcasts
  {
  }

  /** A drone seen once at 50 m is broadcast on the first tick; a tick exactly
      ten minutes later without it leaves the dictionary empty and broadcasts
      the empty list, since the set changed. */
  lemma ExpiryIsBroadcast(v: Violation, o: DistOrder)
    requires v.timestamp == 0 && v.dist == 5000
    ensures Report(Initial, [v], 0, o).broadcasts == [[Some(v)]]
    ensures Report(Report(Initial, [v], 0, o), [], WindowMillis, o).recent == Empty
    ensures Report(Report(Initial, [v], 0, o), [], WindowMillis, o).broadcasts == [[Some(v)], []]
  {
    var k := v.serialNumber;
    var t := Table([k], map[k := [v]]);
    assert [v][..0] == [] && [k][..0] == [];
    assert Merge(Empty, [v]) == Append(Empty, v) == t;
    assert Recent([v], 0 - WindowMillis) == [v];
    assert EvictKey(t, k, 0 - WindowMillis) == t;
    assert EvictKeys(t, [k][..0], 0 - WindowMillis) == t;
    assert Evict(t, 0 - WindowMillis) == EvictKeys(t, [k], 0 - WindowMillis) == t;
    var s1 := Report(Initial, [v], 0, o);
    assert s1.recent == t;
    assert Closest([v], o) == Some(v);
    assert ClosestAll(t, o) == [Some(v)];
    assert Recent([v], 0) == [];
    assert Without([k], k) == [];
    assert EvictKey(t, k, 0) == Empty;
    assert EvictKeys(t, [k][..0], 0) == t;
    assert Evict(t, 0) == EvictKeys(t, [k], 0) == Empty;
    assert Merge(t, []) == t;
  }

  /** One timer tick: the batch it fetched and the clock reading. */
  datatype Tick = Tick(batch: seq<Violation>, now: int)

  /** The state after running the ticks in order from start-up. */
  function Run(ticks: seq<Tick>, o: DistOrder): State
  {
    if ticks == [] then Initial
    else Report(Run(ticks[..|ticks| - 1], o), ticks[|ticks| - 1].batch, ticks[|ticks| - 1].now, o)
  }

  /** The `violationsToSend` each tick computes, in tick order. */
  function Computed(ticks: seq<Tick>, o: DistOrder): seq<seq<Option<Violation>>>
  {
    if ticks == [] then [] else Computed(ticks[..|ticks| - 1], o) + [ClosestAll(Run(ticks, o).recent, o)]
  }

  /** `xs` without each element that equals the one just before it. */
  function Collapse<T(==)>(xs: seq<T>): seq<T>
  {
    if xs == [] then []
    else if |xs| >= 2 && xs[|xs| - 2] == xs[|xs| - 1] then Collapse(xs[..|xs| - 1])
    else Collapse(xs[..|xs| - 1]) + [xs[|xs| - 1]]
  }

  lemma {:induction false} CollapseLast<T>(xs: seq<T>)
    requires xs != []
    ensures Collapse(xs) != [] && Collapse(xs)[|Collapse(xs)| - 1] == xs[|xs| - 1]
  {
    if |xs| >= 2 && xs[|xs| - 2] == xs[|xs| - 1] {
      CollapseLast(xs[..|xs| - 1]);
    }
  }

  /** No two consecutive elements of a collapsed sequence are equal. */
  lemma {:induction false} CollapseNoRepeats<T>(xs: seq<T>)
    ensures forall i :: 0 <= i < |Collapse(xs)| - 1 ==> Collapse(xs)[i] != Collapse(xs)[i + 1]
  {
    if xs != [] {
      var prefix := xs[..|xs| - 1];
      CollapseNoRepeats(prefix);
      if !(|xs| >= 2 && xs[|xs| - 2] == xs[|xs| - 1]) && prefix != [] {
        CollapseLast(prefix);
        var c := Collapse(prefix);
        assert Collapse(xs) == c + [xs[|xs| - 1]];
        assert c[|c| - 1] != xs[|xs| - 1];
      }
    }
  }

  /** Appending one element collapses it away exactly when it repeats the
      last one. */
  lemma CollapseSnoc<T>(xs: seq<T>, x: T)
    ensures Collapse(xs + [x]) == if xs != [] && xs[|xs| - 1] == x then Collapse(xs) else Collapse(xs) + [x]
  {
    var ys := xs + [x];
    assert ys[..|ys| - 1] == xs;
  }

  /** The gate of one tick in terms of the list it computes. */
  lemma ReportSends(s: State, nowViolatingDrones: seq<Violation>, now: int, o: DistOrder)
    ensures var r := Report(s, nowViolatingDrones, now, o);
            var c := ClosestAll(r.recent, o);
            && r.previousSent == Json(c)
            && r.broadcasts == if Json(c) != s.previousSent then s.broadcasts + [c] else s.broadcasts
  {
  }

  /** Over any run from start-up, the broadcasts are exactly the lists the
      ticks computed with each repeat of the previous tick's list dropped, and
      the stored text is that of the last computed list. */
  lemma {:induction false} BroadcastsAreCollapsedComputed(ticks: seq<Tick>, o: DistOrder)
    ensures |Computed(ticks, o)| == |ticks|
    ensures Run(ticks, o).broadcasts == Collapse(Computed(ticks, o))
    ensures Run(ticks, o).previousSent ==
              if ticks == [] then EmptyString else Json(Computed(ticks, o)[|ticks| - 1])
  {
    if ticks != [] {
      var prefix, last := ticks[..|ticks| - 1], ticks[|ticks| - 1];
      BroadcastsAreCollapsedComputed(prefix, o);
      var s := Run(prefix, o);
      var r := Run(ticks, o);
      assert r == Report(s, last.batch, last.now, o);
      ReportSends(s, last.batch, last.now, o);
      var xs := Computed(prefix, o);
      var c := ClosestAll(r.recent, o);
      assert Computed(ticks, o) == xs + [c];
      CollapseSnoc(xs, c);
    }
  }

  /** The backend process: its dictionary, the last text and the broadcast
      log; `distOrder` is how the reduction compares distances. */
  class Backend {
    const distOrder: DistOrder
    const recentViolations: RecentViolations
    var previousSentViolations: SentText
    var broadcasts: seq<seq<Option<Violation>>>

    ghost predicate Valid()
      reads this, recentViolations
    {
      recentViolations.Valid()
    }

    function Snapshot(): State
      reads this, recentViolations
    {
      State(recentViolations.Contents(), previousSentViolations, broadcasts)
    }

    constructor(o: DistOrder)
      ensures Valid() && fresh(recentViolations)
      ensures distOrder == o && Snapshot() == Initial
    {
      distOrder := o;
      recentViolations := new RecentViolations();
      previousSentViolations := EmptyString;
      broadcasts := [];
    }

    /** `reportDrones`, with `sse.send` appending its payload to
        `broadcasts`. */
    method ReportDrones(nowViolatingDrones: seq<Violation>, now: int)
      requires Valid()
      modifies this, recentViolations
      ensures Valid()
      ensures Snapshot() == Report(old(Snapshot()), nowViolatingDrones, now, distOrder)
    {
      recentViolations.MergeBatch(nowViolatingDrones);
      var removeTimestamp := now - WindowMillis;
      recentViolations.EvictOlderThan(removeTimestamp);
      var violationsToSend := recentViolations.GetClosestViolations(distOrder);
      var jsonStringViolations := Json(violationsToSend);
      if jsonStringViolations != previousSentViolations {
        broadcasts := broadcasts + [violationsToSend];
      }
      previousSentViolations := jsonStringViolations;
    }
  }
}

/** The per-layer debounce buffer of watch mode and the loop that drives it.

    The clock is explicit: every reading of it is an argument, in nanoseconds.
    What arrives on the channel, and when, is a list of turns; whether the n-th
    dispatch succeeds is a function. */
module Watch {
  import opened Wrappers

  type Time = nat

  datatype Layer = Spec | View | Handler | Ts | E2e

  const MILLIS := 1_000_000

  function DebounceFor(layer: Layer): Time {
    match layer
    case Spec => 500 * MILLIS
    case View => 500 * MILLIS
    case Handler => 400 * MILLIS
    case Ts => 300 * MILLIS
    case E2e => 600 * MILLIS
  }

  datatype Event = Event(layer: Layer, path: string)

  datatype Bucket = Bucket(layer: Layer, paths: seq<string>, lastSeen: Time)

  /** One hand-over to the dispatcher. */
  datatype Call = Call(layer: Layer, paths: seq<string>, at: Time)

  // ---- what the buffer operations do to the buckets ------------------------------

  predicate OneBucketPerLayer(bs: seq<Bucket>) {
    forall i, j :: 0 <= i < j < |bs| ==> bs[i].layer != bs[j].layer
  }

  function Staged(bs: seq<Bucket>, e: Event, now: Time): seq<Bucket> {
    if bs == [] then [Bucket(e.layer, [e.path], now)]
    else if bs[0].layer == e.layer then [Bucket(e.layer, bs[0].paths + [e.path], now)] + bs[1..]
    else [bs[0]] + Staged(bs[1..], e, now)
  }

  function Elapsed(now: Time, seen: Time): Time {
    if now >= seen then now - seen else 0
  }

  predicate IsReady(b: Bucket, now: Time) {
    Elapsed(now, b.lastSeen) >= DebounceFor(b.layer)
  }

  function Flushed(bs: seq<Bucket>, now: Time): seq<Call> {
    if bs == [] then []
    else
      var last := bs[|bs| - 1];
      var front := Flushed(bs[..|bs| - 1], now);
      if IsReady(last, now) then front + [Call(last.layer, last.paths, now)] else front
  }

  function Kept(bs: seq<Bucket>, now: Time): seq<Bucket> {
    if bs == [] then []
    else
      var last := bs[|bs| - 1];
      var front := Kept(bs[..|bs| - 1], now);
      if IsReady(last, now) then front else front + [last]
  }

  function Remaining(b: Bucket, now: Time): Time {
    var elapsed := Elapsed(now, b.lastSeen);
    if DebounceFor(b.layer) >= elapsed then DebounceFor(b.layer) - elapsed else 0
  }

  /** The shortest remaining window, or None when nothing is pending. */
  ghost predicate IsNextTick(bs: seq<Bucket>, now: Time, tick: Option<Time>) {
    match tick
    case None => bs == []
    case Some(d) =>
      && (exists i :: 0 <= i < |bs| && Remaining(bs[i], now) == d)
      && (forall i :: 0 <= i < |bs| ==> d <= Remaining(bs[i], now))
  }

  lemma StagedStep(bs: seq<Bucket>, e: Event, now: Time, i: nat)
    requires i < |bs| && bs[i].layer != e.layer
    ensures bs[..i] + Staged(bs[i..], e, now) == bs[..i + 1] + Staged(bs[i + 1..], e, now)
  {
    var rest := bs[i..];
    assert rest[0] == bs[i] && rest[1..] == bs[i + 1..];
    assert bs[..i + 1] == bs[..i] + [bs[i]];
  }

  lemma StagedAt(bs: seq<Bucket>, e: Event, now: Time, i: nat)
    requires i <= |bs| && (i < |bs| ==> bs[i].layer == e.layer)
    ensures bs[..i] + Staged(bs[i..], e, now) ==
              if i < |bs| then bs[i := Bucket(e.layer, bs[i].paths + [e.path], now)]
              else bs + [Bucket(e.layer, [e.path], now)]
  {
    var rest := bs[i..];
    if i < |bs| {
      assert rest[0] == bs[i] && rest[1..] == bs[i + 1..];
    }
  }

  class DebounceBuffer {
    var buckets: seq<Bucket>

    constructor ()
      ensures buckets == []
    {
      buckets := [];
    }

    method Push(e: Event, now: Time)
      modifies this
      ensures buckets == Staged(old(buckets), e, now)
    {
      var i := 0;
      while i < |buckets| && buckets[i].layer != e.layer
        invariant i <= |buckets| && buckets == old(buckets)
        invariant Staged(buckets, e, now) == buckets[..i] + Staged(buckets[i..], e, now)
      {
        StagedStep(buckets, e, now, i);
        i := i + 1;
      }
      StagedAt(buckets, e, now, i);
      if i < |buckets| {
        buckets := buckets[i := Bucket(e.layer, buckets[i].paths + [e.path], now)];
      } else {
        buckets := buckets + [Bucket(e.layer, [e.path], now)];
      }
    }

    method DrainReady(now: Time) returns (ready: seq<Call>)
      modifies this
      ensures buckets == Kept(old(buckets), now)
      ensures ready == Flushed(old(buckets), now)
    {
      ready := [];
      var kept: seq<Bucket> := [];
      for i := 0 to |buckets|
        invariant buckets == old(buckets)
        invariant ready == Flushed(buckets[..i], now) && kept == Kept(buckets[..i], now)
      {
        var b := buckets[i];
        assert buckets[..i + 1][..i] == buckets[..i];
        if IsReady(b, now) {
          ready := ready + [Call(b.layer, b.paths, now)];
        } else {
          kept := kept + [b];
        }
      }
      assert buckets[..|buckets|] == buckets;
      buckets := kept;
    }

    method NextTick(now: Time) returns (tick: Option<Time>)
      ensures IsNextTick(buckets, now, tick)
    {
      tick := None;
      for i := 0 to |buckets|
        invariant IsNextTick(buckets[..i], now, tick)
      {
        var left := Remaining(buckets[i], now);
        ghost var before := buckets[..i];
        assert buckets[..i + 1] == before + [buckets[i]];
        if tick.None? || left < tick.value {
          tick := Some(left);
          assert buckets[..i + 1][i] == buckets[i];
        } else {
          ghost var k :| 0 <= k < i && Remaining(before[k], now) == tick.value;
          assert buckets[..i + 1][k] == before[k];
        }
      }
      assert buckets[..|buckets|] == buckets;
    }
  }

  // ---- timing --------------------------------------------------------------------------

  lemma {:induction false} FlushedEmptyIff(bs: seq<Bucket>, now: Time)
    ensures Flushed(bs, now) == [] <==> forall i :: 0 <= i < |bs| ==> !IsReady(bs[i], now)
  {
    if bs != [] {
      var front := bs[..|bs| - 1];
      FlushedEmptyIff(front, now);
      assert forall i :: 0 <= i < |front| ==> front[i] == bs[i];
    }
  }

  /** With no new event, something becomes ready exactly when the announced wait
      is over: not later, so no wake-up is wasted, and not earlier. */
  lemma NextTickIsExact(bs: seq<Bucket>, asked: Time, tick: Time, now: Time)
    requires IsNextTick(bs, asked, Some(tick))
    requires asked <= now && forall b :: b in bs ==> b.lastSeen <= asked
    ensures Flushed(bs, now) != [] <==> now >= asked + tick
  {
    FlushedEmptyIff(bs, now);
    assert forall i :: 0 <= i < |bs| ==>
      bs[i] in bs && (IsReady(bs[i], now) <==> Remaining(bs[i], asked) <= now - asked);
  }

  // ---- nothing is lost, doubled or reordered --------------------------------------------

  function Pending(bs: seq<Bucket>, layer: Layer): seq<string> {
    if bs == [] then []
    else
      var front := Pending(bs[..|bs| - 1], layer);
      if bs[|bs| - 1].layer == layer then front + bs[|bs| - 1].paths else front
  }

  function PathsOf(calls: seq<Call>, layer: Layer): seq<string> {
    if calls == [] then []
    else
      var front := PathsOf(calls[..|calls| - 1], layer);
      if calls[|calls| - 1].layer == layer then front + calls[|calls| - 1].paths else front
  }

  lemma {:induction false} PathsOfConcat(p: seq<Call>, q: seq<Call>, layer: Layer)
    ensures PathsOf(p + q, layer) == PathsOf(p, layer) + PathsOf(q, layer)
    decreases |q|
  {
    if q == [] {
      assert p + q == p;
    } else {
      assert (p + q)[..|p + q| - 1] == p + q[..|q| - 1];
      PathsOfConcat(p, q[..|q| - 1], layer);
    }
  }

  lemma {:induction false} PendingConcat(p: seq<Bucket>, q: seq<Bucket>, layer: Layer)
    ensures Pending(p + q, layer) == Pending(p, layer) + Pending(q, layer)
    decreases |q|
  {
    if q == [] {
      assert p + q == p;
    } else {
      assert (p + q)[..|p + q| - 1] == p + q[..|q| - 1];
      PendingConcat(p, q[..|q| - 1], layer);
    }
  }

  lemma {:induction false} NoBucketNothingPending(bs: seq<Bucket>, layer: Layer)
    requires forall b :: b in bs ==> b.layer != layer
    ensures Pending(bs, layer) == []
  {
    if bs != [] {
      assert bs[|bs| - 1] in bs;
      NoBucketNothingPending(bs[..|bs| - 1], layer);
    }
  }

  lemma PathsOfAppend(calls: seq<Call>, c: Call, layer: Layer)
    ensures PathsOf(calls + [c], layer) == PathsOf(calls, layer) + (if c.layer == layer then c.paths else [])
  {
    assert (calls + [c])[..|calls|] == calls;
  }

  lemma PendingOne(b: Bucket, layer: Layer)
    ensures Pending([b], layer) == if b.layer == layer then b.paths else []
  {
    assert [b][..0] == [];
  }

  lemma AppendAfter<T>(a: seq<T>, b: seq<T>, c: seq<T>)
    ensures a + (b + c) == (a + b) + c
    ensures b == [] ==> (a + c) + b == a + b + c
  {
  }

  /** Staging puts the path at the end of its layer's pending list and nowhere else. */
  lemma {:induction false} StagedAppends(bs: seq<Bucket>, e: Event, now: Time, layer: Layer)
    requires OneBucketPerLayer(bs)
    ensures Pending(Staged(bs, e, now), layer) == Pending(bs, layer) + (if layer == e.layer then [e.path] else [])
    decreases |bs|
  {
    if bs == [] {
      PendingOne(Bucket(e.layer, [e.path], now), layer);
    } else {
      var added := if layer == e.layer then [e.path] else [];
      var first := if bs[0].layer == layer then bs[0].paths else [];
      PendingFront(bs, layer);
      PendingFront(Staged(bs, e, now), layer);
      AppendAfter(first, Pending(bs[1..], layer), added);
      if bs[0].layer != e.layer {
        StagedAppends(bs[1..], e, now, layer);
        assert Staged(bs, e, now)[1..] == Staged(bs[1..], e, now);
      } else {
        assert Staged(bs, e, now)[1..] == bs[1..];
        if layer == e.layer {
          NoBucketNothingPending(bs[1..], layer);
        }
      }
    }
  }

  lemma PendingFront(bs: seq<Bucket>, layer: Layer)
    requires bs != []
    ensures Pending(bs, layer) == (if bs[0].layer == layer then bs[0].paths else []) + Pending(bs[1..], layer)
  {
    assert bs == [bs[0]] + bs[1..];
    PendingConcat([bs[0]], bs[1..], layer);
    PendingOne(bs[0], layer);
  }

  lemma {:induction false} StagedLayers(bs: seq<Bucket>, e: Event, now: Time)
    requires OneBucketPerLayer(bs)
    ensures OneBucketPerLayer(Staged(bs, e, now))
    ensures forall b :: b in Staged(bs, e, now) ==>
              (b in bs && b.layer != e.layer) || (b.layer == e.layer && b.lastSeen == now)
    decreases |bs|
  {
    if bs != [] {
      StagedLayers(bs[1..], e, now);
      var rest := Staged(bs[1..], e, now);
      forall j | 0 <= j < |rest|
        ensures bs[0].layer == e.layer || rest[j].layer != bs[0].layer
      {
        assert rest[j] in rest;
      }
    }
  }

  lemma {:induction false} KeptMembers(bs: seq<Bucket>, now: Time)
    requires OneBucketPerLayer(bs)
    ensures OneBucketPerLayer(Kept(bs, now))
    ensures forall b :: b in Kept(bs, now) <==> b in bs && !IsReady(b, now)
  {
    if bs != [] {
      var front, last := bs[..|bs| - 1], bs[|bs| - 1];
      KeptMembers(front, now);
      assert bs == front + [last];
      var kept := Kept(front, now);
      forall i | 0 <= i < |kept|
        ensures kept[i].layer != last.layer
      {
        assert kept[i] in kept;
      }
    }
  }

  /** How the drain of one more bucket shows in both lists. */
  lemma DrainLast(front: seq<Bucket>, last: Bucket, now: Time, layer: Layer)
    ensures PathsOf(Flushed(front + [last], now), layer) ==
            PathsOf(Flushed(front, now), layer) +
            (if IsReady(last, now) then (if last.layer == layer then last.paths else []) else [])
    ensures Pending(Kept(front + [last], now), layer) ==
            Pending(Kept(front, now), layer) +
            (if IsReady(last, now) then [] else (if last.layer == layer then last.paths else []))
  {
    assert (front + [last])[..|front|] == front;
    var out, stay := PathsOf(Flushed(front, now), layer), Pending(Kept(front, now), layer);
    assert out + [] == out && stay + [] == stay;
    if IsReady(last, now) {
      PathsOfAppend(Flushed(front, now), Call(last.layer, last.paths, now), layer);
    } else {
      PendingConcat(Kept(front, now), [last], layer);
      PendingOne(last, layer);
    }
  }

  lemma JoinLast(p: seq<string>, k: seq<string>, x: seq<string>, flushed: bool)
    requires x == [] || (p == [] && k == [])
    ensures (p + if flushed then x else []) + (k + if flushed then [] else x) == (p + k) + x
  {
  }

  /** Draining splits each layer's pending list between the calls and what stays. */
  lemma {:induction false} DrainSplits(bs: seq<Bucket>, now: Time, layer: Layer)
    requires OneBucketPerLayer(bs)
    ensures PathsOf(Flushed(bs, now), layer) + Pending(Kept(bs, now), layer) == Pending(bs, layer)
  {
    if bs != [] {
      var front, last := bs[..|bs| - 1], bs[|bs| - 1];
      var x := if last.layer == layer then last.paths else [];
      assert bs == front + [last];
      DrainSplits(front, now, layer);
      DrainLast(front, last, now, layer);
      PendingConcat(front, [last], layer);
      PendingOne(last, layer);
      if last.layer == layer {
        NoBucketNothingPending(front, layer);
      }
      JoinLast(PathsOf(Flushed(front, now), layer), Pending(Kept(front, now), layer), x, IsReady(last, now));
    }
  }

  // ---- the loop ---------------------------------------------------------------------------

  /** One turn: the clock when the wait is computed, what was received (None for a
      timeout), the clock when it is staged, and the clock when the buffer is drained. */
  datatype Turn = Turn(asked: Time, received: Option<Event>, woke: Time, drained: Time)

  /** Handing calls over until one is refused; `lost` is what comes after it. */
  datatype Handover = Handover(calls: seq<Call>, lost: seq<Call>, ok: bool)

  function Dispatch(calls: seq<Call>, ready: seq<Call>, accepts: nat -> bool): (h: Handover)
    ensures h.calls + h.lost == calls + ready
    ensures h.ok ==> h.lost == []
    decreases |ready|
  {
    if ready == [] then Handover(calls, [], true)
    else if accepts(|calls|) then Dispatch(calls + [ready[0]], ready[1..], accepts)
    else Handover(calls + [ready[0]], ready[1..], false)
  }

  datatype Run = Run(buckets: seq<Bucket>, out: Handover)

  function Received(bs: seq<Bucket>, t: Turn): seq<Bucket> {
    match t.received
    case None => bs
    case Some(e) => Staged(bs, e, t.woke)
  }

  function Step(run: Run, t: Turn, accepts: nat -> bool): Run
    requires run.out.ok
  {
    var bs := Received(run.buckets, t);
    Run(Kept(bs, t.drained), Dispatch(run.out.calls, Flushed(bs, t.drained), accepts))
  }

  const START := Run([], Handover([], [], true))

  /** The state after the turns, or after the turn whose dispatch failed. */
  function After(turns: seq<Turn>, accepts: nat -> bool): Run {
    if turns == [] then START
    else
      var before := After(turns[..|turns| - 1], accepts);
      if before.out.ok then Step(before, turns[|turns| - 1], accepts) else before
  }

  lemma {:induction false} FailureIsFinal(turns: seq<Turn>, k: nat, accepts: nat -> bool)
    requires k <= |turns| && !After(turns[..k], accepts).out.ok
    ensures After(turns, accepts) == After(turns[..k], accepts)
    decreases |turns|
  {
    if k < |turns| {
      assert turns[..|turns| - 1][..k] == turns[..k];
      FailureIsFinal(turns[..|turns| - 1], k, accepts);
    } else {
      assert turns[..k] == turns;
    }
  }

  lemma AfterStep(turns: seq<Turn>, i: nat, accepts: nat -> bool)
    requires i < |turns|
    ensures var run := After(turns[..i], accepts);
            After(turns[..i + 1], accepts) == if run.out.ok then Step(run, turns[i], accepts) else run
  {
    assert turns[..i + 1][..i] == turns[..i];
  }

  /** Handing the ready buckets to the dispatcher, up to the first that fails. */
  method HandOver(calls: seq<Call>, ready: seq<Call>, accepts: nat -> bool) returns (ok: bool, all: seq<Call>)
    ensures ok == Dispatch(calls, ready, accepts).ok
    ensures all == Dispatch(calls, ready, accepts).calls
  {
    all := calls;
    for k := 0 to |ready|
      invariant Dispatch(all, ready[k..], accepts) == Dispatch(calls, ready, accepts)
    {
      assert ready[k..][1..] == ready[k + 1..];
      var n := |all|;
      all := all + [ready[k]];
      if !accepts(n) {
        return false, all;
      }
    }
    ok := true;
  }

  /** The loop over one channel; it ends when the channel is closed (no turn left)
      or a dispatch fails. */
  method RunWatchLoop(turns: seq<Turn>, accepts: nat -> bool) returns (ok: bool, calls: seq<Call>)
    ensures ok == After(turns, accepts).out.ok
    ensures calls == After(turns, accepts).out.calls
  {
    var buf := new DebounceBuffer();
    calls := [];
    for i := 0 to |turns|
      invariant var run := After(turns[..i], accepts);
                run.out.ok && run.out.calls == calls && run.buckets == buf.buckets
      invariant fresh(buf)
    {
      AfterStep(turns, i, accepts);
      var t := turns[i];
      var _ := buf.NextTick(t.asked);
      if t.received.Some? {
        buf.Push(t.received.value, t.woke);
      }
      var ready := buf.DrainReady(t.drained);
      ok, calls := HandOver(calls, ready, accepts);
      if !ok {
        FailureIsFinal(turns, i + 1, accepts);
        return;
      }
    }
    assert turns[..|turns|] == turns;
    ok := true;
  }

  // ---- every run ---------------------------------------------------------------------------

  function PathReceived(t: Turn, layer: Layer): seq<string> {
    if t.received.Some? && t.received.value.layer == layer then [t.received.value.path] else []
  }

  /** Paths received for a layer, in order. */
  function Pushed(turns: seq<Turn>, layer: Layer): seq<string> {
    if turns == [] then []
    else Pushed(turns[..|turns| - 1], layer) + PathReceived(turns[|turns| - 1], layer)
  }

  /** Turns taken before the loop ended. */
  function Taken(turns: seq<Turn>, accepts: nat -> bool): (n: nat)
    ensures n <= |turns|
  {
    if turns == [] then 0
    else if After(turns[..|turns| - 1], accepts).out.ok then |turns|
    else Taken(turns[..|turns| - 1], accepts)
  }

  lemma ReceivedAppends(bs: seq<Bucket>, t: Turn, layer: Layer)
    requires OneBucketPerLayer(bs)
    ensures OneBucketPerLayer(Received(bs, t))
    ensures Pending(Received(bs, t), layer) == Pending(bs, layer) + PathReceived(t, layer)
  {
    match t.received
    case None => assert Pending(bs, layer) + [] == Pending(bs, layer);
    case Some(e) =>
      StagedAppends(bs, e, t.woke, layer);
      StagedLayers(bs, e, t.woke);
  }

  lemma Regroup<T>(a: seq<T>, f: seq<T>, k: seq<T>, p: seq<T>, r: seq<T>)
    requires f + k == p + r
    ensures (a + f) + k == (a + p) + r
  {
    assert (a + f) + k == a + (f + k);
    assert (a + p) + r == a + (p + r);
  }

  /** What a run has handed over or dropped, and what is pending, are the paths received. */
  predicate Conserves(run: Run, layer: Layer, received: seq<string>) {
    && OneBucketPerLayer(run.buckets)
    && PathsOf(run.out.calls + run.out.lost, layer) + Pending(run.buckets, layer) == received
  }

  lemma StepConserves(run: Run, t: Turn, accepts: nat -> bool, layer: Layer, received: seq<string>)
    requires run.out.ok && run.out.lost == [] && Conserves(run, layer, received)
    ensures Conserves(Step(run, t, accepts), layer, received + PathReceived(t, layer))
  {
    var bs := Received(run.buckets, t);
    assert run.out.calls + run.out.lost == run.out.calls;
    ReceivedAppends(run.buckets, t, layer);
    KeptMembers(bs, t.drained);
    DrainSplits(bs, t.drained, layer);
    PathsOfConcat(run.out.calls, Flushed(bs, t.drained), layer);
    Regroup(PathsOf(run.out.calls, layer), PathsOf(Flushed(bs, t.drained), layer), Pending(Kept(bs, t.drained), layer),
            Pending(run.buckets, layer), PathReceived(t, layer));
  }

  lemma TakenStep(turns: seq<Turn>, accepts: nat -> bool)
    requires turns != []
    ensures var front := turns[..|turns| - 1];
            Taken(turns, accepts) == if After(front, accepts).out.ok then |turns| else Taken(front, accepts)
  {
  }

  lemma PushedStep(turns: seq<Turn>, layer: Layer)
    requires turns != []
    ensures Pushed(turns[..|turns|], layer)
         == Pushed(turns[..|turns| - 1], layer) + PathReceived(turns[|turns| - 1], layer)
  {
    assert turns[..|turns|] == turns;
  }

  /** At every point of every run, for each layer, the paths handed over (plus those
      dropped behind a failed dispatch) followed by the pending ones are exactly the
      paths received, in order and once each; and no layer has two buckets. */
  lemma {:induction false} NothingLostOrReordered(turns: seq<Turn>, accepts: nat -> bool, layer: Layer)
    ensures Conserves(After(turns, accepts), layer, Pushed(turns[..Taken(turns, accepts)], layer))
    ensures After(turns, accepts).out.ok ==> After(turns, accepts).out.lost == [] && Taken(turns, accepts) == |turns|
  {
    if turns != [] {
      var front, t := turns[..|turns| - 1], turns[|turns| - 1];
      NothingLostOrReordered(front, accepts, layer);
      AfterStep(turns, |front|, accepts);
      assert turns[..|front| + 1] == turns;
      TakenStep(turns, accepts);
      var run := After(front, accepts);
      if run.out.ok {
        assert front[..|front|] == front;
        PushedStep(turns, layer);
        StepConserves(run, t, accepts, layer, Pushed(front, layer));
      } else {
        assert turns[..Taken(turns, accepts)] == front[..Taken(front, accepts)];
      }
    }
  }

  /** The clock never runs backwards. */
  predicate ClockIsMonotone(turns: seq<Turn>) {
    && (forall i :: 0 <= i < |turns| ==> turns[i].asked <= turns[i].woke <= turns[i].drained)
    && (forall i, j :: 0 <= i < j < |turns| ==> turns[i].drained <= turns[j].asked)
  }

  /** Every event of a pending layer was seen no later than its bucket says. */
  predicate SeenBy(turns: seq<Turn>, bs: seq<Bucket>) {
    forall b, i :: b in bs && 0 <= i < |turns| && turns[i].received.Some? && turns[i].received.value.layer == b.layer
      ==> turns[i].woke <= b.lastSeen
  }

  lemma ReceivedSeenBy(turns: seq<Turn>, bs: seq<Bucket>)
    requires turns != [] && ClockIsMonotone(turns) && OneBucketPerLayer(bs)
    requires SeenBy(turns[..|turns| - 1], bs)
    ensures SeenBy(turns, Received(bs, turns[|turns| - 1]))
  {
    var front, t := turns[..|turns| - 1], turns[|turns| - 1];
    assert forall i :: 0 <= i < |front| ==> front[i] == turns[i];
    if t.received.Some? {
      StagedLayers(bs, t.received.value, t.woke);
    }
  }

  lemma {:induction false} BucketsSeeEverything(turns: seq<Turn>, accepts: nat -> bool)
    requires ClockIsMonotone(turns) && After(turns, accepts).out.ok
    ensures SeenBy(turns, After(turns, accepts).buckets)
  {
    if turns != [] {
      var front, t := turns[..|turns| - 1], turns[|turns| - 1];
      BucketsSeeEverything(front, accepts);
      NothingLostOrReordered(front, accepts, Spec);
      var run := After(front, accepts);
      ReceivedSeenBy(turns, run.buckets);
      if t.received.Some? {
        StagedLayers(run.buckets, t.received.value, t.woke);
      }
      KeptMembers(Received(run.buckets, t), t.drained);
    }
  }

  lemma {:induction false} FlushedIsReady(bs: seq<Bucket>, now: Time, c: Call)
    requires c in Flushed(bs, now)
    ensures c.at == now && exists b :: b in bs && b.layer == c.layer && b.paths == c.paths && IsReady(b, now)
  {
    var front, last := bs[..|bs| - 1], bs[|bs| - 1];
    assert bs == front + [last];
    assert last in bs;
    if c in Flushed(front, now) {
      FlushedIsReady(front, now, c);
    }
  }

  /** What the last turn flushes has been quiet for its whole window. */
  lemma LastFlushIsQuiet(turns: seq<Turn>, accepts: nat -> bool, c: Call, i: nat)
    requires turns != [] && ClockIsMonotone(turns)
    requires After(turns[..|turns| - 1], accepts).out.ok
    requires c in Flushed(Received(After(turns[..|turns| - 1], accepts).buckets, turns[|turns| - 1]),
                          turns[|turns| - 1].drained)
    requires i < |turns| && turns[i].received.Some? && turns[i].received.value.layer == c.layer
    ensures turns[i].woke + DebounceFor(c.layer) <= c.at
  {
    var front, t := turns[..|turns| - 1], turns[|turns| - 1];
    var run := After(front, accepts);
    BucketsSeeEverything(front, accepts);
    NothingLostOrReordered(front, accepts, Spec);
    ReceivedSeenBy(turns, run.buckets);
    FlushedIsReady(Received(run.buckets, t), t.drained, c);
  }

  /** Call number `k` of the run was made in turn `n`, from what that turn flushed. */
  ghost predicate MadeIn(turns: seq<Turn>, accepts: nat -> bool, k: nat, n: nat) {
    && n < |turns|
    && |After(turns[..n], accepts).out.calls| <= k < |After(turns[..n + 1], accepts).out.calls|
                                              <= |After(turns, accepts).out.calls|
    && After(turns, accepts).out.calls[k] in FlushedAt(turns, accepts, n)
  }

  function FlushedAt(turns: seq<Turn>, accepts: nat -> bool, n: nat): seq<Call>
    requires n < |turns|
  {
    Flushed(Received(After(turns[..n], accepts).buckets, turns[n]), turns[n].drained)
  }

  /** Every event of the call's layer received up to turn `n` came at least the layer's window
      before it. */
  predicate QuietBefore(turns: seq<Turn>, c: Call, n: nat) {
    && n < |turns| && c.at == turns[n].drained
    && forall i :: 0 <= i <= n && turns[i].received.Some? && turns[i].received.value.layer == c.layer ==>
         turns[i].woke + DebounceFor(c.layer) <= c.at
  }

  /** Dispatching puts calls out behind the old ones, in the order they were ready. */
  lemma DispatchCalls(calls: seq<Call>, ready: seq<Call>, accepts: nat -> bool)
    ensures var out := Dispatch(calls, ready, accepts).calls;
            && |calls| <= |out| <= |calls| + |ready|
            && out[..|calls|] == calls && out[|calls|..] == ready[..|out| - |calls|]
  {
    var h := Dispatch(calls, ready, accepts);
    assert |h.calls| + |h.lost| == |calls| + |ready|;
    DispatchGrows(calls, ready, accepts);
    var n := |h.calls| - |calls|;
    assert forall i :: 0 <= i < |h.calls| ==> h.calls[i] == (h.calls + h.lost)[i] == (calls + ready)[i];
    assert h.calls[..|calls|] == calls;
    assert h.calls[|calls|..] == ready[..n];
  }

  lemma {:induction false} DispatchGrows(calls: seq<Call>, ready: seq<Call>, accepts: nat -> bool)
    ensures |Dispatch(calls, ready, accepts).calls| >= |calls|
    decreases |ready|
  {
    if ready != [] && accepts(|calls|) {
      DispatchGrows(calls + [ready[0]], ready[1..], accepts);
    }
  }

  lemma LastFlushQuietBefore(turns: seq<Turn>, accepts: nat -> bool, c: Call)
    requires turns != [] && ClockIsMonotone(turns)
    requires After(turns[..|turns| - 1], accepts).out.ok
    requires c in FlushedAt(turns, accepts, |turns| - 1)
    ensures QuietBefore(turns, c, |turns| - 1)
  {
    FlushedIsReady(Received(After(turns[..|turns| - 1], accepts).buckets, turns[|turns| - 1]),
                   turns[|turns| - 1].drained, c);
    forall i | 0 <= i < |turns| && turns[i].received.Some? && turns[i].received.value.layer == c.layer
      ensures turns[i].woke + DebounceFor(c.layer) <= c.at
    {
      LastFlushIsQuiet(turns, accepts, c, i);
    }
  }

  lemma EarlierTurn(front: seq<Turn>, t: Turn, accepts: nat -> bool, n: nat)
    requires n < |front|
    ensures (front + [t])[..n] == front[..n] && (front + [t])[..n + 1] == front[..n + 1]
    ensures FlushedAt(front + [t], accepts, n) == FlushedAt(front, accepts, n)
  {
  }

  /** What an earlier turn did is what it did in the longer run. */
  lemma MadeInLonger(front: seq<Turn>, t: Turn, accepts: nat -> bool, k: nat, n: nat)
    requires MadeIn(front, accepts, k, n)
    requires After(front, accepts).out.calls <= After(front + [t], accepts).out.calls
    ensures MadeIn(front + [t], accepts, k, n)
    ensures After(front + [t], accepts).out.calls[k] == After(front, accepts).out.calls[k]
  {
    EarlierTurn(front, t, accepts, n);
    var few, all := After(front, accepts).out.calls, After(front + [t], accepts).out.calls;
    assert few[k] == all[..|few|][k] == all[k];
  }

  ghost predicate QuietCall(turns: seq<Turn>, accepts: nat -> bool, k: nat, n: nat) {
    MadeIn(turns, accepts, k, n) && QuietBefore(turns, After(turns, accepts).out.calls[k], n)
  }

  lemma QuietLonger(front: seq<Turn>, t: Turn, accepts: nat -> bool, k: nat, n: nat)
    requires QuietCall(front, accepts, k, n)
    requires After(front, accepts).out.calls <= After(front + [t], accepts).out.calls
    ensures QuietCall(front + [t], accepts, k, n)
  {
    MadeInLonger(front, t, accepts, k, n);
    assert forall i :: 0 <= i <= n ==> front[i] == (front + [t])[i];
  }

  /** A turn adds calls behind the old ones, all of them from what it flushes. */
  lemma TurnAddsCalls(front: seq<Turn>, t: Turn, accepts: nat -> bool)
    ensures var few, all := After(front, accepts).out.calls, After(front + [t], accepts).out.calls;
            && few <= all && (!After(front, accepts).out.ok ==> few == all)
            && forall k :: |few| <= k < |all| ==> all[k] in FlushedAt(front + [t], accepts, |front|)
  {
    var turns, run := front + [t], After(front, accepts);
    assert turns[..|front|] == front;
    var ready := FlushedAt(turns, accepts, |front|);
    if run.out.ok {
      DispatchCalls(run.out.calls, ready, accepts);
      var all := After(turns, accepts).out.calls;
      assert all == Dispatch(run.out.calls, ready, accepts).calls;
      forall k | |run.out.calls| <= k < |all| ensures all[k] in ready {
        assert all[k] == all[|run.out.calls|..][k - |run.out.calls|] == ready[k - |run.out.calls|];
      }
    }
  }

  lemma QuietLast(front: seq<Turn>, t: Turn, accepts: nat -> bool, k: nat)
    requires ClockIsMonotone(front + [t])
    requires |After(front, accepts).out.calls| <= k < |After(front + [t], accepts).out.calls|
    ensures QuietCall(front + [t], accepts, k, |front|)
  {
    var turns := front + [t];
    assert turns[..|front|] == front && turns[..|front| + 1] == turns;
    TurnAddsCalls(front, t, accepts);
    LastFlushQuietBefore(turns, accepts, After(turns, accepts).out.calls[k]);
  }

  lemma MonotoneFront(turns: seq<Turn>)
    requires turns != [] && ClockIsMonotone(turns)
    ensures ClockIsMonotone(turns[..|turns| - 1])
  {
    assert forall i :: 0 <= i < |turns| - 1 ==> turns[..|turns| - 1][i] == turns[i];
  }

  /** No layer is ever handed over within its window after its last event: each call of a run
      was made in a turn by which its layer had been quiet for its whole window. */
  lemma {:induction false} FlushedOnlyWhenQuiet(turns: seq<Turn>, accepts: nat -> bool, k: nat)
    requires ClockIsMonotone(turns) && k < |After(turns, accepts).out.calls|
    ensures exists n: nat :: QuietCall(turns, accepts, k, n)
    decreases |turns|
  {
    assert turns != [];
    var front, t := turns[..|turns| - 1], turns[|turns| - 1];
    assert turns == front + [t];
    if k < |After(front, accepts).out.calls| {
      MonotoneFront(turns);
      FlushedOnlyWhenQuiet(front, accepts, k);
      var n: nat :| QuietCall(front, accepts, k, n);
      TurnAddsCalls(front, t, accepts);
      QuietLonger(front, t, accepts, k, n);
      assert QuietCall(turns, accepts, k, n);
    } else {
      QuietLast(front, t, accepts, k);
      assert QuietCall(turns, accepts, k, |front|);
    }
  }

  lemma {:induction false} BucketsAreOld(turns: seq<Turn>, accepts: nat -> bool, now: Time)
    requires ClockIsMonotone(turns) && After(turns, accepts).out.ok
    requires forall i :: 0 <= i < |turns| ==> turns[i].drained <= now
    ensures forall b :: b in After(turns, accepts).buckets ==> b.lastSeen <= now
  {
    if turns != [] {
      var front, t := turns[..|turns| - 1], turns[|turns| - 1];
      BucketsAreOld(front, accepts, now);
      NothingLostOrReordered(front, accepts, Spec);
      var run := After(front, accepts);
      if t.received.Some? {
        StagedLayers(run.buckets, t.received.value, t.woke);
      }
      KeptMembers(Received(run.buckets, t), t.drained);
    }
  }

  /** A turn that waits the announced time in vain, with something pending, dispatches. */
  lemma TimeoutMakesProgress(turns: seq<Turn>, accepts: nat -> bool, tick: Time)
    requires turns != [] && ClockIsMonotone(turns)
    requires After(turns[..|turns| - 1], accepts).out.ok
    requires var t := turns[|turns| - 1];
             && t.received.None?
             && IsNextTick(After(turns[..|turns| - 1], accepts).buckets, t.asked, Some(tick))
             && t.woke >= t.asked + tick
    ensures |After(turns, accepts).out.calls| > |After(turns[..|turns| - 1], accepts).out.calls|
  {
    var front, t := turns[..|turns| - 1], turns[|turns| - 1];
    var run := After(front, accepts);
    BucketsAreOld(front, accepts, t.asked);
    NextTickIsExact(run.buckets, t.asked, tick, t.drained);
    DispatchHandsOver(run.out.calls, Flushed(run.buckets, t.drained), accepts);
  }

  lemma {:induction false} DispatchHandsOver(calls: seq<Call>, ready: seq<Call>, accepts: nat -> bool)
    ensures |Dispatch(calls, ready, accepts).calls| >= |calls|
    ensures ready != [] ==> |Dispatch(calls, ready, accepts).calls| > |calls|
    decreases |ready|
  {
    if ready != [] && accepts(|calls|) {
      DispatchHandsOver(calls + [ready[0]], ready[1..], accepts);
    }
  }
}

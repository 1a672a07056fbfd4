// Supervision of GOOSE streams by timeAllowedToLive: the polled C subscriber
// (adapters/libiec61850/src/goose_subscriber.c), composed with the publisher, and the timer-based
// Go one (adapters/dscsystems/cmd/dscsystems-goose-subscriber/main.go).
module GooseSupervision {
  import opened Octets
  import opened GoosePublisher

  datatype Signal = Timeout | Recovered

  // Signals of one stream alternate, a timeout first.
  predicate Alternates(signals: seq<Signal>) {
    forall i :: 0 <= i < |signals| ==> signals[i] == if i % 2 == 0 then Timeout else Recovered
  }

  // ----- one polled stream

  // deadline 0 is unsupervised.
  datatype Watch = Watch(deadline: nat, timedOut: bool)

  const UNSEEN: Watch := Watch(0, false)

  function PollWatch(w: Watch, now: nat): (Watch, seq<Signal>) {
    if w.deadline != 0 && !w.timedOut && now >= w.deadline then (w.(timedOut := true), [Timeout]) else (w, [])
  }

  function ArriveWatch(w: Watch, now: nat, tal: nat): (Watch, seq<Signal>) {
    (Watch(if tal != 0 then now + tal else 0, false), if w.timedOut then [Recovered] else [])
  }

  // ----- the C subscriber: all its streams

  datatype Stream = Stream(gocbRef: Text, watch: Watch)
  datatype Event = Event(gocbRef: Text, signal: Signal)

  const MAX_STREAMS: nat := 64

  predicate Known(streams: seq<Stream>, ref: Text) {
    exists i :: 0 <= i < |streams| && streams[i].gocbRef == ref
  }

  predicate OneStreamEach(streams: seq<Stream>) {
    forall i, j :: 0 <= i < j < |streams| ==> streams[i].gocbRef != streams[j].gocbRef
  }

  // The position of ref's stream.
  function StreamIndex(streams: seq<Stream>, ref: Text): (r: Option<nat>)
    ensures r.Some? ==> r.value < |streams| && streams[r.value].gocbRef == ref
    ensures r.None? <==> !Known(streams, ref)
  {
    if streams == [] then None
    else if streams[|streams| - 1].gocbRef == ref then Some(|streams| - 1)
    else
      var r := StreamIndex(streams[..|streams| - 1], ref);
      assert r.None? ==> forall i :: 0 <= i < |streams| - 1 ==> streams[i] == streams[..|streams| - 1][i];
      r
  }

  lemma IndexOnly(streams: seq<Stream>, ref: Text, i: nat)
    requires OneStreamEach(streams) && i < |streams| && streams[i].gocbRef == ref
    ensures StreamIndex(streams, ref) == Some(i)
  {
    assert Known(streams, ref);
  }

  lemma SlotOf(before: seq<Stream>, after: seq<Stream>, ref: Text, k: nat)
    requires OneStreamEach(before) && k < |after| && after[k].gocbRef == ref
    requires after == before || after == before + [Stream(ref, UNSEEN)]
    requires after == before <==> Known(before, ref)
    ensures StreamIndex(before, ref) == if Known(before, ref) then Some(k) else None
    ensures Known(before, ref) || k == |before|
  {
    assert forall i :: 0 <= i < |before| ==> after[i] == before[i];
    if Known(before, ref) {
      IndexOnly(before, ref, k);
    }
  }

  // A frame of ref: its stream starts over, a new stream is made while there is room.
  function ArriveAll(streams: seq<Stream>, ref: Text, now: nat, tal: nat): (seq<Stream>, seq<Event>) {
    match StreamIndex(streams, ref)
    case Some(i) =>
      var (w, out) := ArriveWatch(streams[i].watch, now, tal);
      (streams[i := Stream(ref, w)], if out == [] then [] else [Event(ref, Recovered)])
    case None =>
      (if |streams| == MAX_STREAMS then streams else streams + [Stream(ref, ArriveWatch(UNSEEN, now, tal).0)], [])
  }

  // There is room for 64 streams; a further one is neither kept nor signalled.
  lemma RoomFor64(streams: seq<Stream>, ref: Text, now: nat, tal: nat)
    requires !Known(streams, ref)
    ensures |streams| == 64 ==> ArriveAll(streams, ref, now, tal) == (streams, [])
    ensures |streams| < 64 ==>
              ArriveAll(streams, ref, now, tal)
              == (streams + [Stream(ref, Watch(if tal == 0 then 0 else now + tal, false))], [])
  {
  }

  function PollAll(streams: seq<Stream>, now: nat): (r: seq<Stream>)
    ensures |r| == |streams|
  {
    seq(|streams|, i requires 0 <= i < |streams| => streams[i].(watch := PollWatch(streams[i].watch, now).0))
  }

  class Subscriber {
    var streams: seq<Stream>

    ghost predicate Valid()
      reads this
    {
      |streams| <= MAX_STREAMS && OneStreamEach(streams)
    }

    constructor ()
      ensures Valid() && streams == []
    {
      streams := [];
    }

    // The index of the stream of ref, made if there is room for it.
    method StreamFor(ref: Text) returns (k: Option<nat>)
      requires Valid()
      modifies this
      ensures Valid()
      ensures k.Some? ==> k.value < |streams| && streams[k.value].gocbRef == ref
      ensures streams == old(streams) || (k.Some? && streams == old(streams) + [Stream(ref, UNSEEN)])
      ensures streams == old(streams) <==> Known(old(streams), ref) || |old(streams)| == MAX_STREAMS
      ensures k.None? <==> |old(streams)| == MAX_STREAMS && !Known(old(streams), ref)
    {
      for i := 0 to |streams|
        invariant forall j :: 0 <= j < i ==> streams[j].gocbRef != ref
      {
        if streams[i].gocbRef == ref {
          return Some(i);
        }
      }
      if |streams| == MAX_STREAMS {
        return None;
      }
      streams := streams + [Stream(ref, UNSEEN)];
      return Some(|streams| - 1);
    }

    // Polls every stream once; the events are those of the streams that time out now.
    method CheckSupervision(now: nat) returns (events: seq<Event>)
      requires Valid()
      modifies this
      ensures Valid() && streams == PollAll(old(streams), now) && events == PollEvents(old(streams), now)
    {
      events := [];
      ghost var before := streams;
      for i := 0 to |streams|
        invariant |streams| == |before|
        invariant forall j :: 0 <= j < i ==> streams[j] == before[j].(watch := PollWatch(before[j].watch, now).0)
        invariant forall j :: i <= j < |streams| ==> streams[j] == before[j]
        invariant events == PollEvents(before[..i], now)
      {
        var s := streams[i];
        assert before[..i + 1][..i] == before[..i];
        if s.watch.deadline != 0 && !s.watch.timedOut && now >= s.watch.deadline {
          streams := streams[i := s.(watch := s.watch.(timedOut := true))];
          events := events + [Event(s.gocbRef, Timeout)];
        }
      }
      assert before[..|streams|] == before;
    }

    // A frame of ref with this timeAllowedToLive.
    method Listener(ref: Text, tal: nat, now: nat) returns (events: seq<Event>)
      requires Valid()
      modifies this
      ensures Valid()
      ensures (streams, events) == ArriveAll(old(streams), ref, now, tal)
    {
      events := [];
      ghost var before := streams;
      var k := StreamFor(ref);
      if k.Some? {
        SlotOf(before, streams, ref, k.value);
        var i, s := k.value, streams[k.value];
        if s.watch.timedOut {
          s := s.(watch := s.watch.(timedOut := false));
          events := [Event(ref, Recovered)];
        }
        streams := streams[i := s.(watch := s.watch.(deadline := if tal != 0 then now + tal else 0))];
        assert !Known(before, ref) ==> streams == before + [Stream(ref, ArriveWatch(UNSEEN, now, tal).0)];
      }
    }
  }

  function PollEvents(streams: seq<Stream>, now: nat): seq<Event> {
    if streams == [] then []
    else
      var s := streams[|streams| - 1];
      PollEvents(streams[..|streams| - 1], now)
      + if PollWatch(s.watch, now).1 == [] then [] else [Event(s.gocbRef, Timeout)]
  }

  // ----- signals of one stream in a log

  function SignalsOf(log: seq<Event>, ref: Text): seq<Signal> {
    if log == [] then []
    else SignalsOf(log[..|log| - 1], ref) + if log[|log| - 1].gocbRef == ref then [log[|log| - 1].signal] else []
  }

  // ----- runs of one polled stream

  datatype Moment = Poll(now: nat) | Arrive(now: nat, tal: nat)

  function Observe(run: seq<Moment>): (Watch, seq<Signal>) {
    if run == [] then (UNSEEN, [])
    else
      var (w, out) := Observe(run[..|run| - 1]);
      match run[|run| - 1]
      case Poll(now) => var (v, s) := PollWatch(w, now); (v, out + s)
      case Arrive(now, tal) => var (v, s) := ArriveWatch(w, now, tal); (v, out + s)
  }

  lemma {:induction false} PolledSignalsAlternate(run: seq<Moment>)
    ensures var (w, out) := Observe(run); Alternates(out) && (w.timedOut <==> |out| % 2 == 1)
  {
    if run != [] {
      PolledSignalsAlternate(run[..|run| - 1]);
    }
  }

  // ----- the polled subscriber against the publisher

  predicate Ordered(run: seq<Moment>) {
    forall i, j :: 0 <= i < j < |run| ==> run[i].now <= run[j].now
  }

  function Arrivals(run: seq<Moment>): (a: seq<Moment>)
    ensures AllArrivals(a)
  {
    if run == [] then []
    else Arrivals(run[..|run| - 1]) + if run[|run| - 1].Arrive? then [run[|run| - 1]] else []
  }

  lemma {:induction false} ArrivalsOfPrefix(run: seq<Moment>, k: nat)
    requires k <= |run|
    ensures Arrivals(run[..k]) <= Arrivals(run)
  {
    if k == |run| {
      assert run[..k] == run;
    } else {
      ArrivalsOfPrefix(run[..|run| - 1], k);
      assert run[..|run| - 1][..k] == run[..k];
    }
  }

  predicate AllArrivals(a: seq<Moment>) {
    forall i :: 0 <= i < |a| ==> a[i].Arrive?
  }

  // The frame after a supervised one arrives within its timeAllowedToLive.
  predicate InTime(a: seq<Moment>)
    requires AllArrivals(a)
  {
    forall i, j :: 0 <= i && j == i + 1 < |a| && a[i].tal > 0 ==> a[j].now < a[i].now + a[i].tal
  }

  predicate EndsWithArrival(run: seq<Moment>) {
    run != [] ==> run[|run| - 1].Arrive?
  }

  // The first arrival at or after position k.
  lemma NextArrival(run: seq<Moment>, k: nat) returns (q: nat)
    requires EndsWithArrival(run) && k < |run|
    ensures k <= q < |run| && run[q].Arrive? && Arrivals(run[..q]) == Arrivals(run[..k])
  {
    q := k;
    while !run[q].Arrive?
      invariant k <= q < |run| && Arrivals(run[..q]) == Arrivals(run[..k])
      decreases |run| - q
    {
      assert run[..q + 1][..q] == run[..q];
      q := q + 1;
    }
  }

  // What the subscriber holds after these arrivals, when no poll has signalled.
  function Quiet(a: seq<Moment>): (Watch, seq<Signal>)
    requires AllArrivals(a)
  {
    (if a == [] then UNSEEN else ArriveWatch(UNSEEN, a[|a| - 1].now, a[|a| - 1].tal).0, [])
  }

  // The last of these frames, if supervised, has not expired.
  predicate Fresh(a: seq<Moment>, now: nat)
    requires AllArrivals(a)
  {
    a != [] && a[|a| - 1].tal > 0 ==> now < a[|a| - 1].now + a[|a| - 1].tal
  }

  lemma ArrivalFollows(run: seq<Moment>, front: seq<Moment>, m: Moment)
    requires m.Arrive? && |front| < |run| && run[..|front| + 1] == front + [m]
    ensures Arrivals(front) + [m] <= Arrivals(run)
  {
    ArrivalsSnoc(front, m);
    ArrivalsOfPrefix(run, |front| + 1);
  }

  lemma FreshUntilNext(a: seq<Moment>, next: Moment, all: seq<Moment>)
    requires AllArrivals(all) && InTime(all) && a + [next] <= all
    ensures AllArrivals(a) && Fresh(a, next.now)
  {
    assert a == all[..|a|] && all[|a|] == next;
  }

  lemma PollIsQuiet(run: seq<Moment>, k: nat)
    requires Ordered(run) && EndsWithArrival(run) && InTime(Arrivals(run))
    requires k < |run| && run[k].Poll?
    ensures Fresh(Arrivals(run[..k]), run[k].now)
  {
    var q := NextArrival(run, k);
    NextInRun(run, q);
    FreshUntilNext(Arrivals(run[..k]), run[q], Arrivals(run));
    assert run[k].now <= run[q].now;
  }

  lemma NextInRun(run: seq<Moment>, q: nat)
    requires q < |run| && run[q].Arrive?
    ensures Arrivals(run[..q]) + [run[q]] <= Arrivals(run)
  {
    PrefixSnoc(run, q);
    ArrivalFollows(run, run[..q], run[q]);
  }

  lemma PrefixSnoc(run: seq<Moment>, q: nat)
    requires q < |run|
    ensures run[..q + 1] == run[..q] + [run[q]]
  {
  }

  lemma {:induction false} QuietPrefix(run: seq<Moment>, k: nat)
    requires Ordered(run) && EndsWithArrival(run) && InTime(Arrivals(run)) && k <= |run|
    ensures Observe(run[..k]) == Quiet(Arrivals(run[..k]))
  {
    if k > 0 {
      QuietPrefix(run, k - 1);
      var front, m := run[..k - 1], run[k - 1];
      assert run[..k] == front + [m];
      if m.Poll? {
        PollIsQuiet(run, k - 1);
      }
      QuietStep(front, m);
    }
  }

  lemma QuietNext(a: seq<Moment>, m: Moment)
    requires AllArrivals(a) && (m.Poll? ==> Fresh(a, m.now))
    ensures var w := Quiet(a).0;
            var (v, s) := match m case Poll(now) => PollWatch(w, now) case Arrive(now, tal) => ArriveWatch(w, now, tal);
            s == [] && v == Quiet(if m.Arrive? then a + [m] else a).0
  {
  }

  lemma QuietStep(front: seq<Moment>, m: Moment)
    requires Observe(front) == Quiet(Arrivals(front))
    requires m.Poll? ==> Fresh(Arrivals(front), m.now)
    ensures Observe(front + [m]) == Quiet(Arrivals(front + [m]))
  {
    QuietNext(Arrivals(front), m);
    SeenNext(front, m);
    ArrivalsSnoc(front, m);
    assert Observe(front).1 + [] == [];
  }

  lemma ArrivalsSnoc(run: seq<Moment>, m: Moment)
    ensures Arrivals(run + [m]) == if m.Arrive? then Arrivals(run) + [m] else Arrivals(run)
  {
    assert (run + [m])[..|run|] == run;
  }

  // Whatever the polls in between, a run of frames each in time for a supervised one before it signals nothing.
  lemma NoTimeout(run: seq<Moment>)
    requires Ordered(run) && EndsWithArrival(run) && InTime(Arrivals(run))
    ensures Observe(run).1 == []
  {
    QuietPrefix(run, |run|);
    assert run[..|run|] == run;
  }

  // The first n arrivals with one poll, at the time of the last of them, just before it.
  function LatePoll(a: seq<Moment>, i: nat): seq<Moment>
    requires i + 1 < |a|
  {
    a[..i + 1] + [Poll(a[i + 1].now)] + a[i + 1..]
  }

  lemma {:induction false} ArrivalsOnly(a: seq<Moment>)
    requires AllArrivals(a)
    ensures Arrivals(a) == a && Observe(a) == Quiet(a)
  {
    if a != [] {
      var front, m := a[..|a| - 1], a[|a| - 1];
      ArrivalsOnly(front);
      var (w, out) := Observe(front);
      assert m.Arrive? && !w.timedOut && out + [] == [];
      assert front + [m] == a;
    }
  }

  lemma {:induction false} SignalsKept(run: seq<Moment>, k: nat)
    requires k <= |run|
    ensures Observe(run[..k]).1 <= Observe(run).1
  {
    if k == |run| {
      assert run[..k] == run;
    } else {
      SignalsKept(run[..|run| - 1], k);
      assert run[..|run| - 1][..k] == run[..k];
    }
  }

  lemma LatePollOrdered(a: seq<Moment>, i: nat)
    requires i + 1 < |a| && Ordered(a)
    ensures Ordered(LatePoll(a, i))
  {
    var run := LatePoll(a, i);
    forall j, k | 0 <= j < k < |run|
      ensures run[j].now <= run[k].now
    {
      var j' := if j <= i then j else if j == i + 1 then i + 1 else j - 1;
      var k' := if k <= i then k else if k == i + 1 then i + 1 else k - 1;
      assert run[j].now == a[j'].now && run[k].now == a[k'].now;
    }
  }

  lemma {:induction false} ArrivalsConcat(run: seq<Moment>, a: seq<Moment>)
    requires AllArrivals(a)
    ensures Arrivals(run + a) == Arrivals(run) + a
  {
    if a == [] {
      assert run + a == run;
    } else {
      var front, m := a[..|a| - 1], a[|a| - 1];
      ArrivalsConcat(run, front);
      assert run + a == run + front + [m] && front + [m] == a;
      ArrivalsSnoc(run + front, m);
    }
  }

  lemma LatePollArrivals(a: seq<Moment>, i: nat)
    requires i + 1 < |a| && AllArrivals(a)
    ensures Arrivals(LatePoll(a, i)) == a
  {
    ArrivalsOnly(a[..i + 1]);
    ArrivalsSnoc(a[..i + 1], Poll(a[i + 1].now));
    ArrivalsConcat(a[..i + 1] + [Poll(a[i + 1].now)], a[i + 1..]);
    assert a[..i + 1] + a[i + 1..] == a;
  }

  // A frame that misses its deadline can be caught by a poll: some run of the very same arrivals, in order
  // of time, signals a timeout.
  lemma LateFrameCaught(a: seq<Moment>, i: nat)
    requires i + 1 < |a| && AllArrivals(a) && Ordered(a)
    requires a[i].tal > 0 && a[i + 1].now >= a[i].now + a[i].tal
    ensures var run := LatePoll(a, i);
            Ordered(run) && EndsWithArrival(run) && Arrivals(run) == a && Observe(run).1 != []
  {
    var run := LatePoll(a, i);
    LatePollOrdered(a, i);
    LatePollArrivals(a, i);
    ArrivalsOnly(a[..i + 1]);
    assert run[..i + 2][..i + 1] == a[..i + 1];
    assert Observe(run[..i + 2]).1 == [Timeout];
    SignalsKept(run, i + 2);
  }

  // However the polls fall, these arrivals signal nothing.
  ghost predicate AlwaysQuiet(a: seq<Moment>) {
    forall run :: Ordered(run) && EndsWithArrival(run) && Arrivals(run) == a ==> Observe(run).1 == []
  }

  // Frames stay silent however the polls fall if and only if each is in time for a supervised one before it.
  lemma QuietExactly(a: seq<Moment>)
    requires AllArrivals(a) && Ordered(a)
    ensures InTime(a) <==> AlwaysQuiet(a)
  {
    if InTime(a) {
      forall run | Ordered(run) && EndsWithArrival(run) && Arrivals(run) == a
        ensures Observe(run).1 == []
      {
        NoTimeout(run);
      }
    } else {
      var i, j :| 0 <= i && j == i + 1 < |a| && a[i].tal > 0 && a[j].now >= a[i].now + a[i].tal;
      LateFrameCaught(a, i);
    }
  }

  // ----- composition

  // How late frame i + 1 is against the interval frame i was sent with, and how much longer it takes.
  function Lateness(frames: seq<Frame>, i: nat): int
    requires i + 1 < |frames|
  {
    frames[i + 1].sent - (frames[i].sent + frames[i].interval)
  }

  // A frame is as late as it starts past the time it is due, plus the time the last one took to send. So on
  // a clock that does not run backwards a retransmission that waits until it is due is never early.
  lemma LatenessIs(steps: seq<nat>, start: Action, acts: seq<Action>, i: nat)
    requires steps != [] && i < |acts|
    ensures var past := acts[i].at - PubAfter(steps, start, acts[..i]).nextMs;
            var sending := ClockAfter(start, acts[..i]) - LastFrame(steps, start, acts[..i]).sent;
            && Lateness(Frames(steps, start, acts), i) == past + sending
            && (past >= 0 && sending >= 0 ==> Lateness(Frames(steps, start, acts), i) >= 0)
  {
    DueAfterInterval(steps, start, acts[..i]);
    var next := acts[..i + 1];
    assert next[..i] == acts[..i];
    assert LastFrame(steps, start, next).sent == acts[i].at;
  }

  function DelayGrowth(frames: seq<Frame>, received: seq<nat>, i: nat): int
    requires i + 1 < |frames| == |received|
  {
    (received[i + 1] - frames[i + 1].sent) - (received[i] - frames[i].sent)
  }

  function Deliveries(frames: seq<Frame>, received: seq<nat>): seq<Moment>
    requires |frames| == |received|
  {
    seq(|frames|, i requires 0 <= i < |frames| => Arrive(received[i], frames[i].tal))
  }

  // For a schedule whose MaxTime is below 2^31, lateness plus delay growth below the current interval
  // is exactly arrival within timeAllowedToLive.
  lemma SlackIsOneInterval(minMs: nat, maxMs: nat, start: Action, acts: seq<Action>, received: seq<nat>, i: nat)
    requires minMs < TWO32 && maxMs < TWO32 && Bounds(minMs, maxMs).1 < TWO31
    requires i < |acts| && |received| == |acts| + 1
    ensures var frames := Frames(Schedule(minMs, maxMs), start, acts);
            && 0 < frames[i].tal
            && (received[i + 1] < received[i] + frames[i].tal <==>
                Lateness(frames, i) + DelayGrowth(frames, received, i) < frames[i].interval)
  {
    TalIsTwice(minMs, maxMs, start, acts, i);
  }

  lemma TalIsTwice(minMs: nat, maxMs: nat, start: Action, acts: seq<Action>, i: nat)
    requires minMs < TWO32 && maxMs < TWO32 && Bounds(minMs, maxMs).1 < TWO31 && i <= |acts|
    ensures var f := Frames(Schedule(minMs, maxMs), start, acts)[i]; f.interval > 0 && f.tal == 2 * f.interval
  {
    var steps := Schedule(minMs, maxMs);
    var f := Frames(steps, start, acts)[i];
    FramesAnnounceSchedule(steps, start, acts, i);
    var k :| 0 <= k < |steps| && steps[k] == f.interval;
    IntervalsInRange(minMs, maxMs, k);
  }

  // In any run of the publisher, state changes included, in which every frame is delivered in order and
  // lateness plus delay growth stays below the current interval, the subscriber never signals a timeout.
  lemma PublisherKeepsSubscriberQuiet(minMs: nat, maxMs: nat, start: Action, acts: seq<Action>, received: seq<nat>,
      run: seq<Moment>)
    requires minMs < TWO32 && maxMs < TWO32 && Bounds(minMs, maxMs).1 < TWO31
    requires |received| == |acts| + 1
    requires var frames := Frames(Schedule(minMs, maxMs), start, acts);
             && Arrivals(run) == Deliveries(frames, received)
             && forall i :: 0 <= i < |acts| ==>
                  Lateness(frames, i) + DelayGrowth(frames, received, i) < frames[i].interval
    requires Ordered(run) && EndsWithArrival(run)
    ensures Observe(run).1 == []
  {
    var frames := Frames(Schedule(minMs, maxMs), start, acts);
    var a := Deliveries(frames, received);
    forall i | 0 <= i <= |acts|
      ensures a[i].tal > 0 && (i < |acts| ==> a[i + 1].now < a[i].now + a[i].tal)
    {
      TalIsTwice(minMs, maxMs, start, acts, i);
      if i < |acts| {
        SlackIsOneInterval(minMs, maxMs, start, acts, received, i);
      }
    }
    NoTimeout(run);
  }

  // Every frame starts at most `late` past the time it is due, and takes at most `busy` to send.
  predicate Prompt(steps: seq<nat>, start: Action, acts: seq<Action>, late: nat, busy: nat)
    requires steps != []
  {
    forall i :: 0 <= i < |acts| ==>
      && acts[i].at <= PubAfter(steps, start, acts[..i]).nextMs + late
      && ClockAfter(start, acts[..i]) <= LastFrame(steps, start, acts[..i]).sent + busy
  }

  // Every frame is under way for between `delay` and `jitter` more.
  predicate Steady(frames: seq<Frame>, received: seq<nat>, delay: int, jitter: nat)
    requires |frames| == |received|
  {
    forall i :: 0 <= i < |frames| ==> delay <= received[i] - frames[i].sent <= delay + jitter
  }

  lemma IntervalAtLeast(minMs: nat, maxMs: nat, start: Action, acts: seq<Action>, i: nat)
    requires minMs < TWO32 && maxMs < TWO32 && Bounds(minMs, maxMs).1 < TWO31 && i <= |acts|
    ensures Frames(Schedule(minMs, maxMs), start, acts)[i].interval >= Bounds(minMs, maxMs).0
  {
    var steps := Schedule(minMs, maxMs);
    FramesAnnounceSchedule(steps, start, acts, i);
    var k :| 0 <= k < |steps| && steps[k] == Frames(steps, start, acts)[i].interval;
    ScheduleIncreases(minMs, maxMs);
    FirstInterval(minMs, maxMs);
    IncreasingBounds(steps, 0, k);
  }

  // So a timeout is out of reach when starting late, sending and jitter together stay below MinTime.
  lemma PromptPublisherKeepsSubscriberQuiet(minMs: nat, maxMs: nat, start: Action, acts: seq<Action>,
      received: seq<nat>, run: seq<Moment>, late: nat, busy: nat, delay: int, jitter: nat)
    requires minMs < TWO32 && maxMs < TWO32 && Bounds(minMs, maxMs).1 < TWO31
    requires late + busy + jitter < Bounds(minMs, maxMs).0
    requires Prompt(Schedule(minMs, maxMs), start, acts, late, busy)
    requires |received| == |acts| + 1 && Steady(Frames(Schedule(minMs, maxMs), start, acts), received, delay, jitter)
    requires Arrivals(run) == Deliveries(Frames(Schedule(minMs, maxMs), start, acts), received)
    requires Ordered(run) && EndsWithArrival(run)
    ensures Observe(run).1 == []
  {
    var steps := Schedule(minMs, maxMs);
    var frames := Frames(steps, start, acts);
    forall i | 0 <= i < |acts|
      ensures Lateness(frames, i) + DelayGrowth(frames, received, i) < frames[i].interval
    {
      LatenessIs(steps, start, acts, i);
      IntervalAtLeast(minMs, maxMs, start, acts, i);
      assert delay <= received[i] - frames[i].sent && received[i + 1] - frames[i + 1].sent <= delay + jitter;
    }
    PublisherKeepsSubscriberQuiet(minMs, maxMs, start, acts, received, run);
  }

  // ----- runs of all streams

  datatype Occurrence = PollAt(now: nat) | FrameAt(gocbRef: Text, now: nat, tal: nat)

  // The subscriber's streams, and what it has signalled.
  function Watched(run: seq<Occurrence>): (seq<Stream>, seq<Event>) {
    if run == [] then ([], [])
    else
      var (streams, log) := Watched(run[..|run| - 1]);
      match run[|run| - 1]
      case PollAt(now) => (PollAll(streams, now), log + PollEvents(streams, now))
      case FrameAt(ref, now, tal) => var (after, events) := ArriveAll(streams, ref, now, tal); (after, log + events)
  }

  // What concerns the stream of ref.
  function SeenBy(run: seq<Occurrence>, ref: Text): seq<Moment> {
    if run == [] then []
    else
      SeenBy(run[..|run| - 1], ref) +
      match run[|run| - 1]
      case PollAt(now) => [Poll(now)]
      case FrameAt(r, now, tal) => if r == ref then [Arrive(now, tal)] else []
  }

  function WatchIn(streams: seq<Stream>, ref: Text): Option<Watch> {
    match StreamIndex(streams, ref)
    case Some(i) => Some(streams[i].watch)
    case None => None
  }

  // The stream of ref, if it has one, is where its own occurrences lead; without one it has signalled
  // nothing, and while there is room that is because no frame of it has come.
  ghost predicate Tracks(streams: seq<Stream>, log: seq<Event>, ref: Text, seen: seq<Moment>) {
    && OneStreamEach(streams) && |streams| <= MAX_STREAMS
    && match WatchIn(streams, ref)
       case Some(w) => (w, SignalsOf(log, ref)) == Observe(seen)
       case None => SignalsOf(log, ref) == [] && (|streams| < MAX_STREAMS ==> Observe(seen) == (UNSEEN, []))
  }

  lemma {:induction false} SignalsOfConcat(a: seq<Event>, b: seq<Event>, ref: Text)
    ensures SignalsOf(a + b, ref) == SignalsOf(a, ref) + SignalsOf(b, ref)
  {
    if b == [] {
      assert a + b == a;
    } else {
      var front := b[..|b| - 1];
      assert (a + b)[..|a + b| - 1] == a + front;
      SignalsOfConcat(a, front, ref);
    }
  }

  lemma LastOnly(streams: seq<Stream>)
    requires OneStreamEach(streams) && streams != []
    ensures !Known(streams[..|streams| - 1], streams[|streams| - 1].gocbRef)
  {
    assert forall i :: 0 <= i < |streams| - 1 ==> streams[..|streams| - 1][i] == streams[i];
  }

  lemma WatchSnoc(streams: seq<Stream>, ref: Text)
    requires streams != []
    ensures var front, s := streams[..|streams| - 1], streams[|streams| - 1];
            WatchIn(streams, ref) == if s.gocbRef == ref then Some(s.watch) else WatchIn(front, ref)
    ensures WatchIn(streams, ref).None? <==> !Known(streams, ref)
  {
  }

  lemma {:induction false} PollSignals(streams: seq<Stream>, now: nat, ref: Text)
    requires OneStreamEach(streams)
    ensures SignalsOf(PollEvents(streams, now), ref)
            == match WatchIn(streams, ref) case Some(w) => PollWatch(w, now).1 case None => []
  {
    if streams != [] {
      var front, s := streams[..|streams| - 1], streams[|streams| - 1];
      PollSignals(front, now, ref);
      assert OneStreamEach(front);
      var mine: seq<Event> := if PollWatch(s.watch, now).1 == [] then [] else [Event(s.gocbRef, Timeout)];
      SignalsOfConcat(PollEvents(front, now), mine, ref);
      OneSignal(mine, ref);
      LastOnly(streams);
      WatchSnoc(streams, ref);
    }
  }

  lemma OneSignal(events: seq<Event>, ref: Text)
    requires |events| <= 1
    ensures SignalsOf(events, ref) == if events != [] && events[0].gocbRef == ref then [events[0].signal] else []
  {
    if events != [] {
      assert events[..0] == [];
    }
  }

  lemma SeenNext(seen: seq<Moment>, m: Moment)
    ensures var (w, out) := Observe(seen);
            var (v, s) := match m case Poll(now) => PollWatch(w, now) case Arrive(now, tal) => ArriveWatch(w, now, tal);
            Observe(seen + [m]) == (v, out + s)
  {
    assert (seen + [m])[..|seen|] == seen;
  }

  lemma PollSlots(streams: seq<Stream>, now: nat, ref: Text)
    requires OneStreamEach(streams)
    ensures var after := PollAll(streams, now);
            && OneStreamEach(after) && |after| == |streams|
            && WatchIn(after, ref)
               == match WatchIn(streams, ref) case Some(w) => Some(PollWatch(w, now).0) case None => None
  {
    var after := PollAll(streams, now);
    assert forall i :: 0 <= i < |streams| ==> after[i].gocbRef == streams[i].gocbRef;
    if Known(streams, ref) {
      IndexOnly(after, ref, StreamIndex(streams, ref).value);
    } else {
      assert !Known(after, ref);
    }
  }

  lemma PollTracks(streams: seq<Stream>, log: seq<Event>, ref: Text, seen: seq<Moment>, now: nat)
    requires Tracks(streams, log, ref, seen)
    ensures Tracks(PollAll(streams, now), log + PollEvents(streams, now), ref, seen + [Poll(now)])
  {
    PollSlots(streams, now, ref);
    PollSignals(streams, now, ref);
    SignalsOfConcat(log, PollEvents(streams, now), ref);
    SeenNext(seen, Poll(now));
  }

  lemma ArriveSignals(streams: seq<Stream>, r: Text, now: nat, tal: nat, ref: Text)
    ensures SignalsOf(ArriveAll(streams, r, now, tal).1, ref)
            == match WatchIn(streams, r)
               case Some(w) => if r == ref then ArriveWatch(w, now, tal).1 else []
               case None => []
  {
    OneSignal(ArriveAll(streams, r, now, tal).1, ref);
  }

  lemma ArriveSlots(streams: seq<Stream>, r: Text, now: nat, tal: nat, ref: Text)
    requires OneStreamEach(streams) && |streams| <= MAX_STREAMS
    ensures var (after, was) := (ArriveAll(streams, r, now, tal).0, WatchIn(streams, ref));
            && OneStreamEach(after) && |streams| <= |after| <= MAX_STREAMS
            && WatchIn(after, ref) == if r == ref && (was.Some? || |streams| < MAX_STREAMS)
                                      then Some(ArriveWatch(was.GetOr(UNSEEN), now, tal).0) else was
  {
    ArriveKeepsOthers(streams, r, now, tal);
    var after := ArriveAll(streams, r, now, tal).0;
    if Known(streams, ref) {
      IndexOnly(after, ref, StreamIndex(streams, ref).value);
    } else if r == ref && |streams| < MAX_STREAMS {
      IndexOnly(after, ref, |streams|);
    } else {
      assert !Known(after, ref);
    }
  }

  lemma ArriveKeepsOthers(streams: seq<Stream>, r: Text, now: nat, tal: nat)
    requires OneStreamEach(streams) && |streams| <= MAX_STREAMS
    ensures var after := ArriveAll(streams, r, now, tal).0;
            && OneStreamEach(after) && |streams| <= |after| <= MAX_STREAMS
            && forall i :: 0 <= i < |streams| ==> after[i].gocbRef == streams[i].gocbRef
                                                  && (streams[i].gocbRef != r ==> after[i] == streams[i])
  {
  }

  lemma ArriveTracks(streams: seq<Stream>, log: seq<Event>, ref: Text, seen: seq<Moment>, r: Text, now: nat, tal: nat)
    requires Tracks(streams, log, ref, seen)
    ensures var (after, events) := ArriveAll(streams, r, now, tal);
            Tracks(after, log + events, ref, if r == ref then seen + [Arrive(now, tal)] else seen)
  {
    var (after, events) := ArriveAll(streams, r, now, tal);
    ArriveSignals(streams, r, now, tal, ref);
    ArriveSlots(streams, r, now, tal, ref);
    LogGains(log, events, ref);
    SeenNext(seen, Arrive(now, tal));
  }

  lemma LogGains(log: seq<Event>, events: seq<Event>, ref: Text)
    ensures SignalsOf(log + events, ref) == SignalsOf(log, ref) + SignalsOf(events, ref)
    ensures SignalsOf(events, ref) == [] ==> SignalsOf(log + events, ref) == SignalsOf(log, ref)
  {
    SignalsOfConcat(log, events, ref);
  }

  // In a run of any streams together, each stream that has a slot signals exactly what it would alone.
  lemma {:induction false} StreamsAreIndependent(run: seq<Occurrence>, ref: Text)
    ensures var (streams, log) := Watched(run); Tracks(streams, log, ref, SeenBy(run, ref))
  {
    if run != [] {
      var front := run[..|run| - 1];
      StreamsAreIndependent(front, ref);
      var (streams, log) := Watched(front);
      match run[|run| - 1]
      case PollAt(now) => PollTracks(streams, log, ref, SeenBy(front, ref), now);
      case FrameAt(r, now, tal) =>
        ArriveTracks(streams, log, ref, SeenBy(front, ref), r, now, tal);
        assert SeenBy(front, ref) + [] == SeenBy(front, ref);
    }
  }

  // So among any other streams, a publisher within its slack is never reported.
  lemma QuietAmongOthers(minMs: nat, maxMs: nat, start: Action, acts: seq<Action>, received: seq<nat>,
      run: seq<Occurrence>, ref: Text)
    requires minMs < TWO32 && maxMs < TWO32 && Bounds(minMs, maxMs).1 < TWO31
    requires |received| == |acts| + 1
    requires var frames := Frames(Schedule(minMs, maxMs), start, acts);
             && Arrivals(SeenBy(run, ref)) == Deliveries(frames, received)
             && forall i :: 0 <= i < |acts| ==>
                  Lateness(frames, i) + DelayGrowth(frames, received, i) < frames[i].interval
    requires Ordered(SeenBy(run, ref)) && EndsWithArrival(SeenBy(run, ref))
    ensures SignalsOf(Watched(run).1, ref) == []
  {
    PublisherKeepsSubscriberQuiet(minMs, maxMs, start, acts, received, SeenBy(run, ref));
    StreamsAreIndependent(run, ref);
  }

  // ----- the Go supervisor

  datatype GoWatch = GoWatch(gen: nat, timedOut: bool)
  datatype Timer = Timer(gocbRef: Text, gen: nat)

  function WatchOf(streams: map<Text, GoWatch>, ref: Text): GoWatch {
    if ref in streams then streams[ref] else GoWatch(0, false)
  }

  // A frame of ref; with a positive timeAllowedToLive it arms a timer with the new generation.
  function GoFrame(streams: map<Text, GoWatch>, ref: Text): (map<Text, GoWatch>, seq<Event>) {
    var st := WatchOf(streams, ref);
    (streams[ref := GoWatch(st.gen + 1, false)], if st.timedOut then [Event(ref, Recovered)] else [])
  }

  // The callback of a timer.
  function GoFire(streams: map<Text, GoWatch>, t: Timer): (map<Text, GoWatch>, seq<Event>) {
    var st := WatchOf(streams, t.gocbRef);
    if st.gen != t.gen || st.timedOut then (streams, [])
    else (streams[t.gocbRef := st.(timedOut := true)], [Event(t.gocbRef, Timeout)])
  }

  class Supervisor {
    var streams: map<Text, GoWatch>

    constructor ()
      ensures streams == map[]
    {
      streams := map[];
    }

    method Frame(ref: Text, talMs: int) returns (events: seq<Event>, armed: Option<Timer>)
      modifies this
      ensures (streams, events) == GoFrame(old(streams), ref)
      ensures armed == if talMs > 0 then Some(Timer(ref, streams[ref].gen)) else None
    {
      events := [];
      if ref !in streams {
        streams := streams[ref := GoWatch(0, false)];
      }
      if streams[ref].timedOut {
        streams := streams[ref := streams[ref].(timedOut := false)];
        events := [Event(ref, Recovered)];
      }
      var gen := streams[ref].gen + 1;
      streams := streams[ref := streams[ref].(gen := gen)];
      assert streams == old(streams)[ref := GoWatch(WatchOf(old(streams), ref).gen + 1, false)];
      if talMs <= 0 {
        return events, None;
      }
      return events, Some(Timer(ref, gen));
    }

    method Callback(t: Timer) returns (events: seq<Event>)
      requires t.gocbRef in streams
      modifies this
      ensures (streams, events) == GoFire(old(streams), t)
    {
      var st := streams[t.gocbRef];
      if st.gen != t.gen || st.timedOut {
        return [];
      }
      streams := streams[t.gocbRef := st.(timedOut := true)];
      return [Event(t.gocbRef, Timeout)];
    }
  }

  // Frames and timer callbacks in the order they take the mutex. Any timer armed before, and no other, may fire
  // at any later point: Stop does not hold back a callback that has already started.
  datatype Step = OnFrame(gocbRef: Text, talMs: int) | OnTimer(timer: Timer)

  datatype World = World(streams: map<Text, GoWatch>, armed: set<Timer>, log: seq<Event>)

  function Advance(w: World, s: Step): World {
    match s
    case OnFrame(ref, talMs) =>
      var (streams, events) := GoFrame(w.streams, ref);
      World(streams, if talMs > 0 then w.armed + {Timer(ref, streams[ref].gen)} else w.armed, w.log + events)
    case OnTimer(t) =>
      if t !in w.armed then w
      else var (streams, events) := GoFire(w.streams, t); World(streams, w.armed, w.log + events)
  }

  function After(steps: seq<Step>): World {
    if steps == [] then World(map[], {}, []) else Advance(After(steps[..|steps| - 1]), steps[|steps| - 1])
  }

  function FramesOf(steps: seq<Step>, ref: Text): nat {
    if steps == [] then 0
    else
      FramesOf(steps[..|steps| - 1], ref)
      + if steps[|steps| - 1].OnFrame? && steps[|steps| - 1].gocbRef == ref then 1 else 0
  }

  // A stream's generation counts its frames, and its signals so far alternate.
  ghost predicate Sound(w: World, ref: Text, frames: nat) {
    && WatchOf(w.streams, ref).gen == frames
    && Alternates(SignalsOf(w.log, ref))
    && (WatchOf(w.streams, ref).timedOut <==> |SignalsOf(w.log, ref)| % 2 == 1)
  }

  lemma FrameKeepsSound(w: World, f: Text, talMs: int, ref: Text, frames: nat)
    requires Sound(w, ref, frames)
    ensures Sound(Advance(w, OnFrame(f, talMs)), ref, frames + if f == ref then 1 else 0)
  {
    LogGains(w.log, GoFrame(w.streams, f).1, ref);
    OneSignal(GoFrame(w.streams, f).1, ref);
  }

  lemma TimerKeepsSound(w: World, t: Timer, ref: Text, frames: nat)
    requires Sound(w, ref, frames)
    ensures Sound(Advance(w, OnTimer(t)), ref, frames)
  {
    if t in w.armed {
      var (streams, events) := GoFire(w.streams, t);
      LogGains(w.log, events, ref);
      OneSignal(events, ref);
      FiredSound(w, t, ref);
    }
  }

  lemma FiredSound(w: World, t: Timer, ref: Text)
    ensures var (streams, events) := GoFire(w.streams, t);
            && WatchOf(streams, ref).gen == WatchOf(w.streams, ref).gen
            && (WatchOf(streams, ref).timedOut <==>
                WatchOf(w.streams, ref).timedOut || (events != [] && t.gocbRef == ref))
            && |events| <= 1 && (events != [] ==> events[0] == Event(t.gocbRef, Timeout))
            && (events != [] && t.gocbRef == ref ==> !WatchOf(w.streams, ref).timedOut)
  {
  }

  lemma {:induction false} SupervisorInvariant(steps: seq<Step>, ref: Text)
    ensures Sound(After(steps), ref, FramesOf(steps, ref))
  {
    if steps != [] {
      var front, s := steps[..|steps| - 1], steps[|steps| - 1];
      SupervisorInvariant(front, ref);
      match s
      case OnFrame(f, talMs) => FrameKeepsSound(After(front), f, talMs, ref, FramesOf(front, ref));
      case OnTimer(t) => TimerKeepsSound(After(front), t, ref, FramesOf(front, ref));
    }
  }

  // In every interleaving the signals of one stream alternate timeout, recovered, timeout.
  lemma SignalsAlternate(steps: seq<Step>, ref: Text)
    ensures Alternates(SignalsOf(After(steps).log, ref))
  {
    SupervisorInvariant(steps, ref);
  }

  // An armed timer carries the number of the frame that armed it, so only the frame's own counts.
  lemma {:induction false} ArmedByFrame(steps: seq<Step>, t: Timer)
    requires t in After(steps).armed
    ensures 1 <= t.gen <= FramesOf(steps, t.gocbRef)
    ensures exists k :: 0 <= k < |steps| && steps[k].OnFrame? && steps[k].gocbRef == t.gocbRef && steps[k].talMs > 0
                        && FramesOf(steps[..k + 1], t.gocbRef) == t.gen
  {
    if steps != [] {
      var front, n := steps[..|steps| - 1], |steps| - 1;
      SupervisorInvariant(front, t.gocbRef);
      if t in After(front).armed {
        ArmedByFrame(front, t);
        var k :| 0 <= k < |front| && front[k].OnFrame? && front[k].gocbRef == t.gocbRef && front[k].talMs > 0
                 && FramesOf(front[..k + 1], t.gocbRef) == t.gen;
        assert front[..k + 1] == steps[..k + 1] && steps[k] == front[k];
      } else {
        assert steps[..n + 1] == steps;
      }
    }
  }

  // Frames of ref in the steps from n on raise the count.
  lemma {:induction false} FramesSince(steps: seq<Step>, ref: Text, n: nat)
    requires n <= |steps|
    ensures FramesOf(steps[..n], ref) <= FramesOf(steps, ref)
    ensures FramesOf(steps[..n], ref) == FramesOf(steps, ref)
            <==> forall i :: n <= i < |steps| ==> !(steps[i].OnFrame? && steps[i].gocbRef == ref)
  {
    if n == |steps| {
      assert steps[..n] == steps;
    } else {
      var front := steps[..|steps| - 1];
      FramesSince(front, ref, n);
      assert front[..n] == steps[..n];
      assert forall i :: n <= i < |front| ==> front[i] == steps[i];
    }
  }

  // Step k is the last frame of t's stream, and the one that armed t.
  predicate ArmedLast(steps: seq<Step>, t: Timer, k: nat) {
    && k < |steps| && steps[k].OnFrame? && steps[k].gocbRef == t.gocbRef && steps[k].talMs > 0
    && FramesOf(steps[..k + 1], t.gocbRef) == t.gen
    && forall i :: k < i < |steps| ==> !(steps[i].OnFrame? && steps[i].gocbRef == t.gocbRef)
  }

  lemma LatestIsLast(steps: seq<Step>, t: Timer)
    requires t in After(steps).armed
    ensures t.gen == FramesOf(steps, t.gocbRef) <==> exists k: nat :: ArmedLast(steps, t, k)
  {
    ArmedByFrame(steps, t);
    var k: nat :| k < |steps| && steps[k].OnFrame? && steps[k].gocbRef == t.gocbRef && steps[k].talMs > 0
                  && FramesOf(steps[..k + 1], t.gocbRef) == t.gen;
    FramesSince(steps, t.gocbRef, k + 1);
    if t.gen == FramesOf(steps, t.gocbRef) {
      assert ArmedLast(steps, t, k);
    }
    forall n: nat | ArmedLast(steps, t, n)
      ensures t.gen == FramesOf(steps, t.gocbRef)
    {
      LastIsLatest(steps, t, n);
    }
  }

  lemma LastIsLatest(steps: seq<Step>, t: Timer, k: nat)
    requires ArmedLast(steps, t, k)
    ensures t.gen == FramesOf(steps, t.gocbRef)
  {
    FramesSince(steps, t.gocbRef, k + 1);
  }

  // The callback of an armed timer signals a timeout if and only if the last frame of its stream armed it and
  // the signals of the stream do not already end in a timeout.
  lemma OnlyLatestTimerSignals(steps: seq<Step>, t: Timer)
    requires t in After(steps).armed
    ensures var w, v := After(steps), After(steps + [OnTimer(t)]);
            && (v.log != w.log <==> (exists k: nat :: ArmedLast(steps, t, k)) && |SignalsOf(w.log, t.gocbRef)| % 2 == 0)
            && (v.log != w.log ==> v.log == w.log + [Event(t.gocbRef, Timeout)])
  {
    var both := steps + [OnTimer(t)];
    assert both[..|steps|] == steps;
    SupervisorInvariant(steps, t.gocbRef);
    LatestIsLast(steps, t);
  }

  // A frame with a positive timeAllowedToLive arms one timer, with its number; nothing else arms or disarms any.
  lemma FrameArms(steps: seq<Step>, s: Step)
    ensures After(steps + [s]).armed
            == After(steps).armed + if s.OnFrame? && s.talMs > 0 then {Timer(s.gocbRef, FramesOf(steps, s.gocbRef) + 1)}
                                    else {}
  {
    assert (steps + [s])[..|steps|] == steps;
    if s.OnFrame? {
      SupervisorInvariant(steps, s.gocbRef);
    }
  }

  lemma {:induction false} StaysArmed(steps: seq<Step>, later: seq<Step>, t: Timer)
    requires t in After(steps).armed
    ensures t in After(steps + later).armed
  {
    if later == [] {
      assert steps + later == steps;
    } else {
      var front, s := later[..|later| - 1], later[|later| - 1];
      StaysArmed(steps, front, t);
      FrameArms(steps + front, s);
      assert steps + front + [s] == steps + later;
    }
  }

  lemma SilentArmed(steps: seq<Step>, ref: Text, talMs: int, later: seq<Step>)
    requires talMs > 0 && forall i :: 0 <= i < |later| ==> !(later[i].OnFrame? && later[i].gocbRef == ref)
    ensures var all := steps + [OnFrame(ref, talMs)] + later;
            Timer(ref, FramesOf(steps, ref) + 1) in After(all).armed && FramesOf(all, ref) == FramesOf(steps, ref) + 1
  {
    var heard := steps + [OnFrame(ref, talMs)];
    var all := heard + later;
    FrameArms(steps, OnFrame(ref, talMs));
    StaysArmed(heard, later, Timer(ref, FramesOf(steps, ref) + 1));
    assert heard[..|steps|] == steps;
    assert all[..|heard|] == heard;
    FramesSince(all, ref, |heard|);
  }

  lemma FiredOdd(w: World, t: Timer)
    requires Sound(w, t.gocbRef, t.gen) && t in w.armed
    ensures |SignalsOf(Advance(w, OnTimer(t)).log, t.gocbRef)| % 2 == 1
  {
    var events := GoFire(w.streams, t).1;
    SignalsOfConcat(w.log, events, t.gocbRef);
    OneSignal(events, t.gocbRef);
  }

  // A stream that falls silent is signalled: once the timer of its last frame has fired, whatever happened in
  // between, its signals end in a timeout.
  lemma SilenceSignalled(steps: seq<Step>, ref: Text, talMs: int, later: seq<Step>)
    requires talMs > 0 && forall i :: 0 <= i < |later| ==> !(later[i].OnFrame? && later[i].gocbRef == ref)
    ensures var all := steps + [OnFrame(ref, talMs)] + later;
            var t := Timer(ref, FramesOf(steps, ref) + 1);
            t in After(all).armed && |SignalsOf(After(all + [OnTimer(t)]).log, ref)| % 2 == 1
  {
    var all := steps + [OnFrame(ref, talMs)] + later;
    var t := Timer(ref, FramesOf(steps, ref) + 1);
    SilentArmed(steps, ref, talMs, later);
    SupervisorInvariant(all, ref);
    FiredOdd(After(all), t);
    assert (all + [OnTimer(t)])[..|all|] == all;
  }

  // A frame of ref signals recovery exactly when the stream had timed out.
  lemma FrameRecovers(steps: seq<Step>, ref: Text, talMs: int)
    ensures var w, v := After(steps), After(steps + [OnFrame(ref, talMs)]);
            && v.log == w.log + (if |SignalsOf(w.log, ref)| % 2 == 1 then [Event(ref, Recovered)] else [])
            && !WatchOf(v.streams, ref).timedOut
  {
    var both := steps + [OnFrame(ref, talMs)];
    assert both[..|steps|] == steps;
    SupervisorInvariant(steps, ref);
  }
}

// The GOOSE retransmission publisher of adapters/libiec61850/src/goose_publisher.c
// (clause 18.1 of IEC 61850-8-1).
module GoosePublisher {
  import opened Octets

  const MAX_STEPS: nat := 17
  const TWO31: int := 0x8000_0000

  // ----- the schedule

  // MinTime and MaxTime as they are used, from the ones configured.
  function Bounds(minMs: nat, maxMs: nat): (r: (nat, nat))
    ensures 0 < r.0 <= r.1
    ensures 0 < minMs <= maxMs ==> r == (minMs, maxMs)
  {
    var (lo, hi) := if minMs == 0 && maxMs == 0 then (4, 1000) else (minMs, maxMs);
    var first := if lo == 0 then (if hi / 64 != 0 then hi / 64 else 1) else lo;
    (first, Octets.Max(hi, first))
  }

  // Without either, MinTime is 4 and MaxTime 1000; without MinTime it is a 64th of MaxTime, but at least 1; a
  // MinTime above MaxTime is both.
  lemma BoundsMeaning(minMs: nat, maxMs: nat)
    ensures Bounds(0, 0) == (4, 1000)
    ensures maxMs > 0 ==> Bounds(0, maxMs) == (if maxMs < 64 then 1 else maxMs / 64, maxMs)
    ensures minMs > maxMs ==> Bounds(minMs, maxMs) == (minMs, minMs)
    ensures 0 < minMs <= maxMs ==> Bounds(minMs, maxMs) == (minMs, maxMs)
  {
  }

  // Doublings of d below hi, in 32 bits, with n intervals already taken.
  function Doublings(d: nat, hi: nat, n: nat): (s: seq<nat>)
    ensures n <= MAX_STEPS - 1 ==> |s| <= MAX_STEPS - 1 - n
    decreases MAX_STEPS - n, d
  {
    if d < hi && n < MAX_STEPS - 1 then [d] + Doublings(U32(d * 2), hi, n + 1) else []
  }

  function Schedule(minMs: nat, maxMs: nat): (s: seq<nat>)
    ensures 1 <= |s| <= MAX_STEPS && s[|s| - 1] == Bounds(minMs, maxMs).1
  {
    var (lo, hi) := Bounds(minMs, maxMs);
    Doublings(lo, hi, 0) + [hi]
  }

  method BuildSchedule(minMs: nat, maxMs: nat, out: array<nat>) returns (n: nat)
    requires minMs < TWO32 && maxMs < TWO32 && out.Length == MAX_STEPS
    modifies out
    ensures n <= MAX_STEPS && out[..n] == Schedule(minMs, maxMs)
  {
    var lo, hi := minMs, maxMs;
    if lo == 0 && hi == 0 {
      lo, hi := 4, 1000;
    }
    if lo == 0 {
      lo := if hi / 64 != 0 then hi / 64 else 1;
    }
    if hi < lo {
      hi := lo;
    }
    n := FillSchedule(lo, hi, out);
  }

  // The doublings below hi, and hi.
  method FillSchedule(lo: nat, hi: nat, out: array<nat>) returns (n: nat)
    requires out.Length == MAX_STEPS
    modifies out
    ensures n <= MAX_STEPS && out[..n] == Doublings(lo, hi, 0) + [hi]
  {
    n := 0;
    ghost var all := Doublings(lo, hi, 0);
    var d: nat := lo;
    while d < hi && n < MAX_STEPS - 1
      invariant n <= MAX_STEPS - 1
      invariant out[..n] + Doublings(d, hi, n) == all
      decreases MAX_STEPS - n
    {
      ghost var taken := out[..n];
      out[n] := d;
      assert out[..n + 1] == taken + [d];
      DoublingsNext(taken, d, hi, n);
      d := U32(d * 2);
      n := n + 1;
    }
    assert out[..n] == all;
    out[n] := hi;
    n := n + 1;
    assert out[..n] == all + [hi];
  }

  lemma DoublingsNext(taken: seq<nat>, d: nat, hi: nat, n: nat)
    requires d < hi && n < MAX_STEPS - 1
    ensures taken + Doublings(d, hi, n) == taken + [d] + Doublings(U32(d * 2), hi, n + 1)
  {
    assert Doublings(d, hi, n) == [d] + Doublings(U32(d * 2), hi, n + 1);
  }

  predicate Increasing(s: seq<nat>) {
    forall i :: 0 <= i < |s| - 1 ==> s[i] < s[i + 1]
  }

  // A doubling reaches 2^31 below hi with room for another one after it.
  ghost predicate Overflows(d: nat, hi: nat, n: nat) {
    exists k: nat :: n + k < MAX_STEPS - 2 && TWO31 <= d * Pow2(k) < hi
  }

  lemma OverflowsNow(d: nat, hi: nat, n: nat)
    requires n < MAX_STEPS - 2 && TWO31 <= d < hi
    ensures Overflows(d, hi, n)
  {
    assert d * Pow2(0) == d;
  }

  lemma OverflowsLater(d: nat, hi: nat, n: nat)
    requires d < TWO31
    ensures Overflows(d, hi, n) <==> Overflows(2 * d, hi, n + 1)
  {
    if Overflows(d, hi, n) {
      var k: nat :| n + k < MAX_STEPS - 2 && TWO31 <= d * Pow2(k) < hi;
      assert k > 0;
      DoubleFirst(d, k - 1);
      assert n + 1 + (k - 1) < MAX_STEPS - 2 && TWO31 <= 2 * d * Pow2(k - 1) < hi;
    }
    if Overflows(2 * d, hi, n + 1) {
      var k: nat :| n + 1 + k < MAX_STEPS - 2 && TWO31 <= 2 * d * Pow2(k) < hi;
      DoubleFirst(d, k);
      assert n + (k + 1) < MAX_STEPS - 2 && TWO31 <= d * Pow2(k + 1) < hi;
    }
  }

  lemma DoubleFirst(d: nat, k: nat)
    ensures d * Pow2(k + 1) == 2 * d * Pow2(k)
  {
  }

  lemma NoOverflowBelow(d: nat, hi: nat, n: nat)
    requires d >= hi
    ensures !Overflows(d, hi, n)
  {
    forall k: nat
      ensures d * Pow2(k) >= d
    {
      Grows(d, Pow2(k));
    }
  }

  lemma Grows(d: nat, p: nat)
    requires p > 0
    ensures d * p >= d
  {
  }

  lemma IncreasingCons(d: nat, s: seq<nat>)
    requires s != []
    ensures Increasing([d] + s) <==> d < s[0] && Increasing(s)
  {
    var t := [d] + s;
    assert t[1..] == s;
    if Increasing(t) {
      assert t[0] < t[1];
      forall i | 0 <= i < |s| - 1
        ensures s[i] < s[i + 1]
      {
        assert t[i + 1] < t[i + 2];
      }
    }
  }

  lemma FirstOf(d: nat, hi: nat, n: nat)
    ensures (Doublings(d, hi, n) + [hi])[0] == if d < hi && n < MAX_STEPS - 1 then d else hi
  {
  }

  lemma {:induction false} DoublingsIncrease(d: nat, hi: nat, n: nat)
    requires 0 < d < TWO32 && hi < TWO32 && n <= MAX_STEPS - 1
    ensures Increasing(Doublings(d, hi, n) + [hi]) <==> !Overflows(d, hi, n)
    decreases MAX_STEPS - n
  {
    if d < hi && n < MAX_STEPS - 1 {
      var e := U32(d * 2);
      var rest := Doublings(e, hi, n + 1) + [hi];
      assert Doublings(d, hi, n) + [hi] == [d] + rest;
      IncreasingCons(d, rest);
      FirstOf(e, hi, n + 1);
      if d < TWO31 {
        assert e == 2 * d;
        DoublingsIncrease(e, hi, n + 1);
        OverflowsLater(d, hi, n);
      } else if n < MAX_STEPS - 2 {
        assert e == 2 * d - TWO32 < d;
        OverflowsNow(d, hi, n);
      } else {
        assert rest == [hi];
      }
    } else if d >= hi {
      NoOverflowBelow(d, hi, n);
    }
  }

  // For any 32-bit times, the intervals are positive and strictly increasing exactly when no
  // doubling that another one follows reaches 2^31; below an effective MaxTime of 2^31 none does.
  lemma ScheduleIncreases(minMs: nat, maxMs: nat)
    requires minMs < TWO32 && maxMs < TWO32
    ensures var (lo, hi) := Bounds(minMs, maxMs);
            && (Increasing(Schedule(minMs, maxMs)) <==> !Overflows(lo, hi, 0))
            && (hi <= TWO31 ==> Increasing(Schedule(minMs, maxMs)))
  {
    var (lo, hi) := Bounds(minMs, maxMs);
    DoublingsIncrease(lo, hi, 0);
  }

  lemma {:induction false} DoublingsAt(d: nat, hi: nat, n: nat, i: nat)
    requires 0 < d && hi <= TWO31 && n <= MAX_STEPS - 1 && i < |Doublings(d, hi, n)|
    ensures Doublings(d, hi, n)[i] == d * Pow2(i) < hi
    decreases i
  {
    var rest := Doublings(2 * d, hi, n + 1);
    assert Doublings(d, hi, n) == [d] + rest;
    if i > 0 {
      DoublingsAt(2 * d, hi, n + 1, i - 1);
      DoubleFirst(d, i - 1);
      assert Doublings(d, hi, n)[i] == rest[i - 1];
    } else {
      assert d * Pow2(0) == d;
    }
  }

  lemma DoublingsSplit(d: nat, hi: nat, n: nat)
    requires d < hi <= TWO31 && n < MAX_STEPS - 1
    ensures Doublings(d, hi, n) == [d] + Doublings(2 * d, hi, n + 1)
  {
  }

  lemma {:induction false} DoublingsEnd(d: nat, hi: nat, n: nat)
    requires 0 < d && hi <= TWO31 && n <= MAX_STEPS - 1
    ensures |Doublings(d, hi, n)| == MAX_STEPS - 1 - n || d * Pow2(|Doublings(d, hi, n)|) >= hi
    decreases MAX_STEPS - n
  {
    if d < hi && n < MAX_STEPS - 1 {
      DoublingsSplit(d, hi, n);
      DoublingsEnd(2 * d, hi, n + 1);
      DoubleFirst(d, |Doublings(2 * d, hi, n + 1)|);
    } else {
      assert d * Pow2(0) == d;
    }
  }

  // With a MaxTime of at most 2^31 the intervals are MinTime doubled and doubled again as long as that stays
  // below MaxTime, sixteen at most, and then MaxTime.
  lemma ScheduleDoubles(minMs: nat, maxMs: nat)
    requires Bounds(minMs, maxMs).1 <= TWO31
    ensures var (lo, hi) := Bounds(minMs, maxMs);
            var s := Schedule(minMs, maxMs);
            var k := |s| - 1;
            && (forall i :: 0 <= i < k ==> s[i] == lo * Pow2(i) < hi)
            && s[k] == hi && k <= 16 && (k == 16 || lo * Pow2(k) >= hi)
  {
    var (lo, hi) := Bounds(minMs, maxMs);
    DoublingsEnd(lo, hi, 0);
    forall i | 0 <= i < |Doublings(lo, hi, 0)|
      ensures Schedule(minMs, maxMs)[i] == lo * Pow2(i) < hi
    {
      DoublingsAt(lo, hi, 0, i);
    }
  }

  // An increasing schedule is positive and at most its last interval, MaxTime.
  lemma {:induction false} IncreasingBounds(s: seq<nat>, i: nat, j: nat)
    requires Increasing(s) && i <= j < |s|
    ensures s[i] <= s[j]
    decreases j - i
  {
    if i < j {
      IncreasingBounds(s, i, j - 1);
    }
  }

  lemma FirstInterval(minMs: nat, maxMs: nat)
    ensures Schedule(minMs, maxMs)[0] == Bounds(minMs, maxMs).0
  {
  }

  // With a MaxTime below 2^31 every interval is positive and twice it fits 32 bits.
  lemma IntervalsInRange(minMs: nat, maxMs: nat, i: nat)
    requires minMs < TWO32 && maxMs < TWO32 && Bounds(minMs, maxMs).1 < TWO31 && i < |Schedule(minMs, maxMs)|
    ensures var s := Schedule(minMs, maxMs); 0 < s[i] <= Bounds(minMs, maxMs).1 && U32(2 * s[i]) == 2 * s[i]
  {
    ScheduleIncreases(minMs, maxMs);
    FirstInterval(minMs, maxMs);
    RangeOf(Schedule(minMs, maxMs), i);
  }

  lemma RangeOf(s: seq<nat>, i: nat)
    requires Increasing(s) && i < |s| && 0 < s[0] && s[|s| - 1] < TWO31
    ensures 0 < s[i] <= s[|s| - 1] && U32(2 * s[i]) == 2 * s[i]
  {
    IncreasingBounds(s, 0, i);
    IncreasingBounds(s, i, |s| - 1);
  }

  // Every timeAllowedToLive is twice its interval if and only if the effective MaxTime is below 2^31.
  lemma TalTwiceExactly(minMs: nat, maxMs: nat)
    requires minMs < TWO32 && maxMs < TWO32
    ensures (forall i :: 0 <= i < |Schedule(minMs, maxMs)| ==>
               U32(2 * Schedule(minMs, maxMs)[i]) == 2 * Schedule(minMs, maxMs)[i])
            <==> Bounds(minMs, maxMs).1 < TWO31
  {
    var s := Schedule(minMs, maxMs);
    if Bounds(minMs, maxMs).1 < TWO31 {
      forall i | 0 <= i < |s|
        ensures U32(2 * s[i]) == 2 * s[i]
      {
        IntervalsInRange(minMs, maxMs, i);
      }
    } else {
      assert 2 * s[|s| - 1] >= TWO32;
    }
  }

  // A witness: at a MaxTime of 2^31 the last timeAllowedToLive wraps to zero, which means unsupervised.
  lemma MaxTimeWraps()
    ensures Schedule(0x8000_0000, 0x8000_0000) == [0x8000_0000] && U32(2 * 0x8000_0000) == 0
  {
  }

  // ----- the publisher

  datatype Pub = Pub(stNum: nat, sqNum: nat, steps: seq<nat>, step: nat, nextMs: nat)

  // A frame on the wire: when it was sent, the interval until the next one, its numbers and timeAllowedToLive.
  datatype Frame = Frame(sent: nat, interval: nat, stNum: nat, sqNum: nat, tal: nat)

  function Next32(n: nat): nat {
    if U32(n + 1) == 0 then 1 else U32(n + 1)
  }

  function IntervalOf(p: Pub): nat
    requires p.steps != []
  {
    p.steps[if p.step < |p.steps| then p.step else |p.steps| - 1]
  }

  // Sends the current state at `at`; `clock` is the monotonic time read afterwards, `ok` whether the library sent it.
  function Send(p: Pub, at: nat, clock: nat, ok: bool): (Pub, Option<Frame>)
    requires p.steps != []
  {
    var interval := IntervalOf(p);
    (Pub(p.stNum, if ok then Next32(p.sqNum) else p.sqNum, p.steps, p.step + 1, clock + interval),
     if ok then Some(Frame(at, interval, p.stNum, p.sqNum, U32(2 * interval))) else None)
  }

  function Change(p: Pub, at: nat, clock: nat, ok: bool): (Pub, Option<Frame>)
    requires p.steps != []
  {
    Send(p.(stNum := Next32(p.stNum), sqNum := 0, step := 0), at, clock, ok)
  }

  // A send that fails uses up its interval but no sequence number.
  lemma FailedSend(p: Pub, at: nat, clock: nat)
    requires p.steps != []
    ensures var (q, frame) := Send(p, at, clock, false);
            var (r, sent) := Send(p, at, clock, true);
            && frame == None && q == r.(sqNum := p.sqNum) && q.step == p.step + 1 && q.stNum == p.stNum
            && sent.Some? && q.nextMs == clock + sent.value.interval && sent.value.sent == at
  {
  }

  class Publisher {
    var stNum: nat
    var sqNum: nat
    const steps: array<nat>
    var stepCount: nat
    var step: nat
    var nextMs: nat

    ghost predicate Valid()
      reads this, steps
    {
      0 < stepCount <= steps.Length
    }

    ghost function View(): Pub
      requires Valid()
      reads this, steps
    {
      Pub(stNum, sqNum, steps[..stepCount], step, nextMs)
    }

    constructor (minMs: nat, maxMs: nat)
      requires minMs < TWO32 && maxMs < TWO32
      ensures Valid() && View() == Pub(1, 0, Schedule(minMs, maxMs), 0, 0)
    {
      var out := new nat[MAX_STEPS];
      var n := BuildSchedule(minMs, maxMs, out);
      steps := out;
      stepCount := n;
      stNum, sqNum, step, nextMs := 1, 0, 0, 0;
    }

    method SendFrame(at: nat, clock: nat, ok: bool) returns (frame: Option<Frame>)
      requires Valid()
      modifies this
      ensures Valid() && (View(), frame) == Send(old(View()), at, clock, ok)
    {
      var idx := if step < stepCount then step else stepCount - 1;
      var interval := steps[idx];
      var tal := U32(2 * interval);
      frame := None;
      if ok {
        frame := Some(Frame(at, interval, stNum, sqNum, tal));
        sqNum := U32(sqNum + 1);
        if sqNum == 0 {
          sqNum := 1;
        }
      }
      step := step + 1;
      nextMs := clock + interval;
    }

    method StateChange(at: nat, clock: nat, ok: bool) returns (frame: Option<Frame>)
      requires Valid()
      modifies this
      ensures Valid() && (View(), frame) == Change(old(View()), at, clock, ok)
    {
      stNum := U32(stNum + 1);
      if stNum == 0 {
        stNum := 1;
      }
      sqNum := 0;
      step := 0;
      frame := SendFrame(at, clock, ok);
    }
  }

  // ----- runs of the publisher

  // A retransmission, which the main loop starts once nextMs has passed, or a state change at any time.
  datatype Action = Action(change: bool, at: nat, clock: nat)

  // The publisher after the first frame and the actions, no send failing.
  function PubAfter(steps: seq<nat>, start: Action, acts: seq<Action>): (p: Pub)
    requires steps != []
    ensures p.steps == steps
  {
    if acts == [] then Send(Pub(1, 0, steps, 0, 0), start.at, start.clock, true).0
    else Act(PubAfter(steps, start, acts[..|acts| - 1]), acts[|acts| - 1]).0
  }

  function Act(p: Pub, a: Action): (Pub, Option<Frame>)
    requires p.steps != []
  {
    if a.change then Change(p, a.at, a.clock, true) else Send(p, a.at, a.clock, true)
  }

  // The frame the last of these actions sends, or the first frame.
  function LastFrame(steps: seq<nat>, start: Action, acts: seq<Action>): Frame
    requires steps != []
  {
    if acts == [] then Send(Pub(1, 0, steps, 0, 0), start.at, start.clock, true).1.value
    else Act(PubAfter(steps, start, acts[..|acts| - 1]), acts[|acts| - 1]).1.value
  }

  function Frames(steps: seq<nat>, start: Action, acts: seq<Action>): (f: seq<Frame>)
    requires steps != []
    ensures |f| == |acts| + 1
  {
    seq(|acts| + 1, i requires 0 <= i <= |acts| => LastFrame(steps, start, acts[..i]))
  }

  // Every frame of every run announces twice an interval of the schedule, across state changes too.
  lemma FramesAnnounceSchedule(steps: seq<nat>, start: Action, acts: seq<Action>, i: nat)
    requires steps != [] && i <= |acts|
    ensures var f := Frames(steps, start, acts)[i]; f.tal == U32(2 * f.interval) && f.interval in steps
  {
  }

  // When the last of these actions, or the first frame, was done.
  function ClockAfter(start: Action, acts: seq<Action>): nat {
    if acts == [] then start.clock else acts[|acts| - 1].clock
  }

  // The next frame is due one announced interval after the last one was sent.
  lemma DueAfterInterval(steps: seq<nat>, start: Action, acts: seq<Action>)
    requires steps != []
    ensures PubAfter(steps, start, acts).nextMs == ClockAfter(start, acts) + LastFrame(steps, start, acts).interval
  {
  }

  // Between two state changes the frames walk the schedule: the k-th frame of a state carries interval
  // min(k, last) and sequence number k.
  lemma {:induction false} FramesWalkSchedule(steps: seq<nat>, start: Action, acts: seq<Action>, k: nat)
    requires steps != [] && k <= |acts| < TWO31
    requires forall i :: |acts| - k <= i < |acts| ==> !acts[i].change
    requires k == |acts| || acts[|acts| - k - 1].change
    ensures var p, f := PubAfter(steps, start, acts), LastFrame(steps, start, acts);
            && p.step == k + 1 && p.sqNum == k + 1 && f.sqNum == k && f.stNum == p.stNum
            && f.interval == steps[if k < |steps| then k else |steps| - 1]
  {
    if k > 0 {
      FramesWalkSchedule(steps, start, acts[..|acts| - 1], k - 1);
    }
  }

  function Changes(acts: seq<Action>): nat {
    if acts == [] then 0 else Changes(acts[..|acts| - 1]) + if acts[|acts| - 1].change then 1 else 0
  }

  // The state number of a frame counts the state changes so far: from 1 up to 2^32 - 1 and, without
  // passing 0, from 1 again.
  lemma {:induction false} StateNumberCounts(steps: seq<nat>, start: Action, acts: seq<Action>)
    requires steps != []
    ensures PubAfter(steps, start, acts).stNum == 1 + Changes(acts) % (TWO32 - 1)
    ensures LastFrame(steps, start, acts).stNum == 1 + Changes(acts) % (TWO32 - 1)
  {
    if acts != [] {
      var front := acts[..|acts| - 1];
      StateNumberCounts(steps, start, front);
      NextCounts(Changes(front));
    }
  }

  lemma NextCounts(n: nat)
    ensures Next32(1 + n % (TWO32 - 1)) == 1 + (n + 1) % (TWO32 - 1)
  {
    var q, r := n / (TWO32 - 1), n % (TWO32 - 1);
    if r < TWO32 - 2 {
      ModUnique(n + 1, TWO32 - 1, q, r + 1);
    } else {
      ModUnique(n + 1, TWO32 - 1, q + 1, 0);
    }
  }
}

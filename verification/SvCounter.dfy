// Loss accounting over the wrapping smpCnt of Sampled Values: the three subscribers' counters
// (adapters/iec61850-rust/src/bin/sv_subscriber.rs, adapters/dscsystems/cmd/dscsystems-sv-subscriber/main.go,
// adapters/libiec61850/src/sv_subscriber.c) and the publisher they listen to
// (adapters/libiec61850/src/sv_publisher.c).
module SvCounter {
  import opened Octets

  datatype Tally = Tally(received: nat, lost: nat, duplicates: nat, outOfOrder: nat)

  // The reference smpCnt and the largest one seen. A wrap of 0 is learned as the largest seen plus one.
  datatype Track = Track(prev: Option<nat>, maxSeen: nat)

  datatype Counter = Counter(track: Track, tally: Tally)

  const FRESH: Counter := Counter(Track(None, 0), Tally(0, 0, 0, 0))

  function WrapOf(wrap: nat, maxSeen: nat): (w: nat)
    ensures w > 0
  {
    if wrap == 0 then maxSeen + 1 else wrap
  }

  // How each subscriber turns the samples missing over a wrap into an unsigned addend.
  datatype Language = Rust | Go | C

  function WrapLoss(lang: Language, w: nat, prev: nat, cur: nat): nat {
    match lang
    case Rust => Max(w - 1 - prev + cur, 0)
    case Go => U64(w - 1 - prev + cur)
    case C => U32(w - 1 - prev) + cur
  }

  // One ASDU.
  function Count(lang: Language, wrap: nat, s: Counter, cur: nat): Counter {
    var t := s.tally.(received := s.tally.received + 1);
    var m := Max(s.track.maxSeen, cur);
    match s.track.prev
    case None => Counter(Track(Some(cur), m), t)
    case Some(prev) =>
      var w := WrapOf(wrap, m);
      if cur == prev + 1 then Counter(Track(Some(cur), m), t)
      else if cur == prev then Counter(Track(Some(prev), m), t.(duplicates := t.duplicates + 1))
      else if cur > prev then Counter(Track(Some(cur), m), t.(lost := t.lost + (cur - prev - 1)))
      else if prev - cur > w / 2 then Counter(Track(Some(cur), m), t.(lost := t.lost + WrapLoss(lang, w, prev, cur)))
      else Counter(Track(Some(prev), m), t.(outOfOrder := t.outOfOrder + 1))
  }

  function Run(lang: Language, wrap: nat, s: Counter, cnts: seq<nat>): Counter {
    if cnts == [] then s else Count(lang, wrap, Run(lang, wrap, s, cnts[..|cnts| - 1]), cnts[|cnts| - 1])
  }

  // ----- the Rust subscriber

  class RustStats {
    var received: nat
    var lost: nat
    var duplicates: nat
    var outOfOrder: nat

    ghost function View(): Tally
      reads this
    {
      Tally(received, lost, duplicates, outOfOrder)
    }

    constructor ()
      ensures View() == FRESH.tally
    {
      received, lost, duplicates, outOfOrder := 0, 0, 0, 0;
    }
  }

  class RustStream {
    var prev: Option<nat>
    var maxSeen: nat
    const wrap: Option<nat>

    ghost function View(): Track
      reads this
    {
      Track(prev, maxSeen)
    }

    constructor (wrap: Option<nat>)
      ensures View() == FRESH.track && this.wrap == wrap
    {
      this.prev, this.maxSeen, this.wrap := None, 0, wrap;
    }

    method CountAsdu(smpCnt: nat, st: RustStats)
      requires wrap != Some(0)
      modifies this, st
      ensures Counter(View(), st.View()) == Count(Rust, wrap.GetOr(0), old(Counter(View(), st.View())), smpCnt)
    {
      st.received := st.received + 1;
      maxSeen := Max(maxSeen, smpCnt);
      if prev.None? {
        prev := Some(smpCnt);
        return;
      }
      var p := prev.value;
      var w := match wrap case Some(x) => x case None => maxSeen + 1;
      var d: int := smpCnt - p;
      if d == 1 {
        prev := Some(smpCnt);
      } else if d == 0 {
        st.duplicates := st.duplicates + 1;
      } else if d > 1 {
        st.lost := st.lost + (d - 1);
        prev := Some(smpCnt);
      } else if p - smpCnt > w / 2 {
        st.lost := st.lost + Max((w - 1 - p) + smpCnt, 0);
        prev := Some(smpCnt);
      } else {
        st.outOfOrder := st.outOfOrder + 1;
      }
    }
  }

  // ----- the Go subscriber

  class GoStream {
    var started: bool
    var prev: nat
    var maxSeen: nat
    const wrap: nat

    ghost function View(): Track
      reads this
    {
      Track(if started then Some(prev) else None, maxSeen)
    }

    constructor (wrap: nat)
      ensures View() == FRESH.track && this.wrap == wrap
    {
      started, prev, maxSeen, this.wrap := false, 0, 0, wrap;
    }
  }

  class GoStats {
    var received: nat
    var lost: nat
    var duplicates: nat
    var outOfOrder: nat

    ghost function View(): Tally
      reads this
    {
      Tally(received, lost, duplicates, outOfOrder)
    }

    constructor ()
      ensures View() == FRESH.tally
    {
      received, lost, duplicates, outOfOrder := 0, 0, 0, 0;
    }

    // smpCnt is 16 bits wide on the wire.
    method CountAsdu(st: GoStream, smpCnt: nat)
      requires smpCnt < 65536
      modifies this, st
      ensures Counter(st.View(), View()) == Count(Go, st.wrap, old(Counter(st.View(), View())), smpCnt)
    {
      received := received + 1;
      if smpCnt > st.maxSeen {
        st.maxSeen := smpCnt;
      }
      if !st.started {
        st.started, st.prev := true, smpCnt;
        return;
      }
      var wrap := st.wrap;
      if wrap == 0 {
        wrap := st.maxSeen + 1;
      }
      var d: int := smpCnt - st.prev;
      if d == 1 {
      } else if d == 0 {
        duplicates := duplicates + 1;
      } else if d > 1 {
        lost := lost + U64(d - 1);
      } else if st.prev - smpCnt > wrap / 2 {
        lost := lost + U64((wrap - 1 - st.prev) + smpCnt);
      } else {
        outOfOrder := outOfOrder + 1;
        return;
      }
      st.prev := smpCnt;
    }
  }

  // ----- the C subscriber

  class CCounters {
    var received: nat
    var lost: nat
    var duplicates: nat
    var outOfOrder: nat

    ghost function View(): Tally
      reads this
    {
      Tally(received, lost, duplicates, outOfOrder)
    }

    constructor ()
      ensures View() == FRESH.tally
    {
      received, lost, duplicates, outOfOrder := 0, 0, 0, 0;
    }
  }

  class CStream {
    var hasLast: bool
    var last: nat
    var maxSeen: nat
    const wrap: nat

    ghost predicate Valid()
      reads this
    {
      maxSeen < 65536 && last < 65536 && (!hasLast ==> maxSeen == 0)
    }

    ghost function View(): Track
      reads this
    {
      Track(if hasLast then Some(last) else None, maxSeen)
    }

    constructor (wrap: nat)
      ensures Valid() && View() == FRESH.track && this.wrap == wrap
    {
      hasLast, last, maxSeen, this.wrap := false, 0, 0, wrap;
    }

    // smpCnt is 16 bits wide on the wire.
    method CountAsdu(smpCnt: nat, g: CCounters)
      requires Valid() && smpCnt < 65536
      modifies this, g
      ensures Valid() && Counter(View(), g.View()) == Count(C, wrap, old(Counter(View(), g.View())), smpCnt)
    {
      g.received := g.received + 1;
      if !hasLast {
        hasLast, last, maxSeen := true, smpCnt, smpCnt;
        return;
      }
      if smpCnt > maxSeen {
        maxSeen := smpCnt;
      }
      var d: int := smpCnt - last;
      if d == 1 {
        last := smpCnt;
      } else if d == 0 {
        g.duplicates := g.duplicates + 1;
      } else if d > 1 {
        g.lost := g.lost + (d - 1);
        last := smpCnt;
      } else {
        var w := if wrap != 0 then wrap else maxSeen + 1;
        var back := U32(last - smpCnt);
        assert back == last - smpCnt;
        if back > w / 2 {
          var missed := U32(w - 1 - last) + smpCnt;
          g.lost := g.lost + missed;
          last := smpCnt;
        } else {
          g.outOfOrder := g.outOfOrder + 1;
        }
      }
    }
  }

  // ----- the three agree

  predicate Sixteen(n: nat) {
    n < 65536
  }

  // The one step on which the counters differ: a wrap past a reference the wrap does not exceed.
  predicate WrapsFrom(wrap: nat, s: Counter, cur: nat) {
    s.track.prev.Some? && cur < s.track.prev.value
    && s.track.prev.value - cur > WrapOf(wrap, Max(s.track.maxSeen, cur)) / 2
  }

  // From equal states, C and Rust agree on a step exactly when it does not wrap or the wrap exceeds
  // the reference; Go and Rust exactly when, besides, the missing count is not negative.
  lemma StepAgreement(wrap: nat, s: Counter, cur: nat)
    requires Sixteen(cur) && wrap <= 65536 && Sixteen(s.track.maxSeen)
    requires s.track.prev.Some? ==> Sixteen(s.track.prev.value)
    ensures var w := WrapOf(wrap, Max(s.track.maxSeen, cur));
            && (Count(C, wrap, s, cur) == Count(Rust, wrap, s, cur) <==>
                (WrapsFrom(wrap, s, cur) ==> s.track.prev.value < w))
            && (Count(Go, wrap, s, cur) == Count(Rust, wrap, s, cur) <==>
                (WrapsFrom(wrap, s, cur) ==> w - 1 - s.track.prev.value + cur >= 0))
  {
  }

  predicate Tracked(wrap: nat, s: Counter) {
    && Sixteen(s.track.maxSeen)
    && (s.track.prev.Some? ==> s.track.prev.value <= s.track.maxSeen && (wrap == 0 || s.track.prev.value < wrap))
  }

  // Fed the same smpCnt sequence, the three hold equal counts and references after every step,
  // when the wrap is learned or exceeds every smpCnt.
  lemma {:induction false} CountersAgree(wrap: nat, cnts: seq<nat>)
    requires wrap <= 65536
    requires forall i :: 0 <= i < |cnts| ==> Sixteen(cnts[i]) && (wrap == 0 || cnts[i] < wrap)
    ensures Run(Rust, wrap, FRESH, cnts) == Run(Go, wrap, FRESH, cnts) == Run(C, wrap, FRESH, cnts)
    ensures Tracked(wrap, Run(Rust, wrap, FRESH, cnts))
  {
    if cnts == [] {
    } else {
      var front, cur := cnts[..|cnts| - 1], cnts[|cnts| - 1];
      CountersAgree(wrap, front);
      StepAgreement(wrap, Run(Rust, wrap, FRESH, front), cur);
    }
  }

  // What makes C, or Go, count a step as Rust does.
  predicate Alike(lang: Language, wrap: nat, s: Counter, cur: nat) {
    WrapsFrom(wrap, s, cur) ==>
      var w := WrapOf(wrap, Max(s.track.maxSeen, cur));
      match lang
      case Rust => true
      case Go => w - 1 - s.track.prev.value + cur >= 0
      case C => s.track.prev.value < w
  }

  predicate AllAlike(lang: Language, wrap: nat, cnts: seq<nat>) {
    cnts != [] ==>
      AllAlike(lang, wrap, cnts[..|cnts| - 1])
      && Alike(lang, wrap, Run(Rust, wrap, FRESH, cnts[..|cnts| - 1]), cnts[|cnts| - 1])
  }

  // Equal but for the count of lost samples, which is not below Rust's.
  predicate NoLessLost(c: Counter, r: Counter) {
    c.track == r.track && c.tally.lost >= r.tally.lost && c.tally.(lost := r.tally.lost) == r.tally
  }

  lemma StepNoLess(lang: Language, wrap: nat, c: Counter, r: Counter, cur: nat)
    requires NoLessLost(c, r) && Sixteen(cur) && wrap <= 65536 && Sixteen(r.track.maxSeen)
    requires r.track.prev.Some? ==> Sixteen(r.track.prev.value)
    ensures NoLessLost(Count(lang, wrap, c, cur), Count(Rust, wrap, r, cur))
    ensures Count(lang, wrap, c, cur) == Count(Rust, wrap, r, cur) <==> c == r && Alike(lang, wrap, r, cur)
    ensures var t := Count(Rust, wrap, r, cur).track; Sixteen(t.maxSeen) && (t.prev.Some? ==> Sixteen(t.prev.value))
  {
  }

  lemma {:induction false} RunNoLess(lang: Language, wrap: nat, cnts: seq<nat>)
    requires wrap <= 65536 && forall i :: 0 <= i < |cnts| ==> Sixteen(cnts[i])
    ensures NoLessLost(Run(lang, wrap, FRESH, cnts), Run(Rust, wrap, FRESH, cnts))
    ensures Run(lang, wrap, FRESH, cnts) == Run(Rust, wrap, FRESH, cnts) <==> AllAlike(lang, wrap, cnts)
    ensures var t := Run(Rust, wrap, FRESH, cnts).track; Sixteen(t.maxSeen) && (t.prev.Some? ==> Sixteen(t.prev.value))
  {
    if cnts != [] {
      var front, cur := cnts[..|cnts| - 1], cnts[|cnts| - 1];
      RunNoLess(lang, wrap, front);
      StepNoLess(lang, wrap, Run(lang, wrap, FRESH, front), Run(Rust, wrap, FRESH, front), cur);
    }
  }

  // Over any run the three counters end equal if and only if no step wraps past a reference that the wrap
  // does not exceed. A difference, once made, is never made good.
  lemma RunsAgreeExactly(wrap: nat, cnts: seq<nat>)
    requires wrap <= 65536 && forall i :: 0 <= i < |cnts| ==> Sixteen(cnts[i])
    ensures Run(C, wrap, FRESH, cnts) == Run(Rust, wrap, FRESH, cnts) <==> AllAlike(C, wrap, cnts)
    ensures Run(Go, wrap, FRESH, cnts) == Run(Rust, wrap, FRESH, cnts) <==> AllAlike(Go, wrap, cnts)
    ensures AllAlike(C, wrap, cnts) ==> AllAlike(Go, wrap, cnts)
  {
    RunNoLess(C, wrap, cnts);
    RunNoLess(Go, wrap, cnts);
    AlikeImplies(wrap, cnts);
  }

  lemma {:induction false} AlikeImplies(wrap: nat, cnts: seq<nat>)
    ensures AllAlike(C, wrap, cnts) ==> AllAlike(Go, wrap, cnts)
  {
    if cnts != [] {
      AlikeImplies(wrap, cnts[..|cnts| - 1]);
    }
  }

  // A configured wrap below the counts sets the C counter apart: it adds 2^32 + 1 where Rust adds 1.
  lemma SmallWrapDiffers()
    ensures var cnts := [20, 12];
            && Run(Rust, 10, FRESH, cnts).tally == Tally(2, 1, 0, 0)
            && Run(C, 10, FRESH, cnts).tally == Tally(2, 0x1_0000_0001, 0, 0)
  {
    var cnts := [20, 12];
    assert cnts[..1] == [20] && [20][..0] == [];
    forall lang: Language
      ensures Run(lang, 10, FRESH, [20]) == Counter(Track(Some(20), 20), Tally(1, 0, 0, 0))
    {
      assert Run(lang, 10, FRESH, []) == FRESH;
    }
  }

  // ----- conservation

  // From sample number s to sample number s + k, numbered modulo w.
  predicate Accountable(w: nat, s: nat, k: nat)
    requires w > 0
  {
    1 <= k < w && (s % w + k < w || w - k > w / 2)
  }

  predicate Accounts(before: Counter, after: Counter, w: nat, s: nat, k: nat)
    requires w > 0 && k > 0
  {
    && after.tally
       == Tally(before.tally.received + 1, before.tally.lost + k - 1, before.tally.duplicates, before.tally.outOfOrder)
    && after.track.prev == Some((s + k) % w)
  }

  lemma NumberAfter(w: nat, s: nat, k: nat)
    requires w > 0 && 1 <= k
    ensures k < w ==> (s + k) % w == if s % w + k < w then s % w + k else s % w + k - w
    ensures (s + k) % w < w
  {
    var q, r := s / w, s % w;
    assert s == q * w + r;
    if k < w {
      if r + k < w {
        ModUnique(s + k, w, q, r + k);
      } else {
        ModUnique(s + k, w, q + 1, r + k - w) by {
          assert (q + 1) * w == q * w + w;
        }
      }
    }
  }

  // One advance by k samples is received, with exactly k - 1 lost, if and only if it is accountable.
  lemma StepConserves(w: nat, before: Counter, s: nat, k: nat)
    requires w > 0 && k >= 1 && before.track.prev == Some(s % w)
    ensures Accounts(before, Count(Rust, w, before, (s + k) % w), w, s, k) <==> Accountable(w, s, k)
  {
    NumberAfter(w, s, k);
  }

  // A sample k before the reference counts as out of order, and the reference stays, if and only if it is at
  // most half the wrap back and the numbers between do not pass the wrap.
  lemma LateSampleExactly(w: nat, before: Counter, s: nat, k: nat)
    requires w > 0 && 1 <= k < w && k <= s && before.track.prev == Some(s % w)
    ensures var after := Count(Rust, w, before, (s - k) % w);
            after.tally
            == before.tally.(received := before.tally.received + 1, outOfOrder := before.tally.outOfOrder + 1)
            && after.track.prev == before.track.prev
            <==> k <= s % w && k <= w / 2
  {
    NumberBefore(w, s, k);
  }

  // A first sample is only received; one with the number of the reference is a duplicate and nothing else.
  // So it is in all three languages and with any wrap.
  lemma FirstAndRepeated(lang: Language, wrap: nat, s: Counter, cur: nat)
    ensures s.track.prev == None ==>
              Count(lang, wrap, s, cur)
              == Counter(Track(Some(cur), Max(s.track.maxSeen, cur)), s.tally.(received := s.tally.received + 1))
    ensures s.track.prev == Some(cur) ==>
              Count(lang, wrap, s, cur)
              == Counter(Track(Some(cur), Max(s.track.maxSeen, cur)),
                         s.tally.(received := s.tally.received + 1, duplicates := s.tally.duplicates + 1))
  {
  }

  // Any other sample is an advance or out of order, and what an advance adds to lost is the numbers skipped:
  // the plain difference upward, and over the wrap `w - 1 - prev + cur`, taken as 0, as a 64-bit number or with
  // 2^32 too many where that is negative or the reference is not below the wrap.
  lemma LossOfStep(lang: Language, w: nat, s: Counter, cur: nat)
    requires 0 < w <= 65536 && Sixteen(cur) && s.track.prev.Some? && Sixteen(s.track.prev.value)
    requires s.track.prev != Some(cur)
    ensures var prev, after := s.track.prev.value, Count(lang, w, s, cur);
            var missing := if cur > prev then cur - prev - 1 else w - 1 - prev + cur;
            && after.tally.received == s.tally.received + 1 && after.tally.duplicates == s.tally.duplicates
            && after.track.maxSeen == Max(s.track.maxSeen, cur)
            && if cur < prev && prev - cur <= w / 2 then
                 after.tally.outOfOrder == s.tally.outOfOrder + 1 && after.tally.lost == s.tally.lost
                 && after.track.prev == Some(prev)
               else
                 after.tally.outOfOrder == s.tally.outOfOrder && after.track.prev == Some(cur)
                 && after.tally.lost - s.tally.lost
                    == if cur > prev then missing
                       else match lang
                            case Rust => if missing < 0 then 0 else missing
                            case Go => if missing < 0 then missing + 0x1_0000_0000_0000_0000 else missing
                            case C => if prev >= w then missing + 0x1_0000_0000 else missing
  {
    if cur < s.track.prev.value {
      GoAndCWords(w, s.track.prev.value, cur);
    }
  }

  lemma GoAndCWords(w: nat, prev: nat, cur: nat)
    requires 0 < w <= 65536 && Sixteen(cur) && Sixteen(prev)
    ensures var missing := w - 1 - prev + cur;
            && WrapLoss(Go, w, prev, cur) == (if missing < 0 then missing + TWO64 else missing)
            && WrapLoss(C, w, prev, cur) == (if prev >= w then missing + TWO32 else missing)
  {
    if w - 1 - prev + cur < 0 {
      ModUnique(w - 1 - prev + cur, TWO64, -1, w - 1 - prev + cur + TWO64);
    }
    if w - 1 - prev < 0 {
      ModUnique(w - 1 - prev, TWO32, -1, w - 1 - prev + TWO32);
    }
  }

  // A wrap that is not configured counts as the largest number seen plus one.
  lemma LearnedAsConfigured(lang: Language, s: Counter, cur: nat)
    ensures Count(lang, 0, s, cur) == Count(lang, Max(s.track.maxSeen, cur) + 1, s, cur)
  {
  }

  // The largest number seen is one of those that came, and none is larger.
  lemma {:induction false} LargestSeen(lang: Language, wrap: nat, cnts: seq<nat>)
    ensures var m := Run(lang, wrap, FRESH, cnts).track.maxSeen;
            (cnts != [] ==> m in cnts) && forall c :: c in cnts ==> c <= m
  {
    if cnts != [] {
      var front, last := cnts[..|cnts| - 1], cnts[|cnts| - 1];
      LargestSeen(lang, wrap, front);
      assert cnts == front + [last];
      assert Run(lang, wrap, FRESH, cnts).track.maxSeen == Max(Run(lang, wrap, FRESH, front).track.maxSeen, last);
      if front == [] {
        assert Run(lang, wrap, FRESH, front) == FRESH;
      }
    }
  }

  lemma NumberBefore(w: nat, s: nat, k: nat)
    requires w > 0 && 1 <= k < w && k <= s
    ensures (s - k) % w == if k <= s % w then s % w - k else s % w - k + w
  {
    var q, r := s / w, s % w;
    assert s == q * w + r;
    if k <= r {
      ModUnique(s - k, w, q, r - k);
    } else {
      ModUnique(s - k, w, q - 1, r - k + w) by {
        assert (q - 1) * w == q * w - w;
      }
    }
  }

  // The samples of a trace: a first one, then one per advance.
  function SampleAt(first: nat, steps: seq<nat>): nat {
    if steps == [] then first else SampleAt(first, steps[..|steps| - 1]) + steps[|steps| - 1]
  }

  function Numbers(w: nat, first: nat, steps: seq<nat>): seq<nat>
    requires w > 0
  {
    if steps == [] then [first % w] else Numbers(w, first, steps[..|steps| - 1]) + [SampleAt(first, steps) % w]
  }

  // An advance of none is a repeat of the sample.
  predicate AllAccountable(w: nat, first: nat, steps: seq<nat>)
    requires w > 0
  {
    steps != [] ==>
      AllAccountable(w, first, steps[..|steps| - 1])
      && (steps[|steps| - 1] == 0 || Accountable(w, SampleAt(first, steps[..|steps| - 1]), steps[|steps| - 1]))
  }

  function Repeats(steps: seq<nat>): nat {
    if steps == [] then 0 else Repeats(steps[..|steps| - 1]) + if steps[|steps| - 1] == 0 then 1 else 0
  }

  // What is received or lost, a repeat counting once only.
  function Held(c: Counter): int {
    c.tally.received + c.tally.lost - c.tally.duplicates
  }

  // Any advance raises outOfOrder, or accounts for no more than its samples, and for all of them if and only
  // if it is accountable or a repeat.
  lemma StepBounds(w: nat, before: Counter, s: nat, k: nat)
    requires w > 0 && before.track.prev == Some(s % w)
    ensures var after := Count(Rust, w, before, (s + k) % w);
            || after.tally.outOfOrder > before.tally.outOfOrder
            || (after.tally.outOfOrder == before.tally.outOfOrder && after.track.prev == Some((s + k) % w)
                && Held(after) - Held(before) <= k
                && (Held(after) - Held(before) == k <==> k == 0 || Accountable(w, s, k)))
  {
    if k == 0 {
      FirstAndRepeated(Rust, w, before, s % w);
    } else {
      NumberAfter(w, s, k);
    }
  }

  // received + lost, without the repeats, is the number of samples sent; the repeats are the duplicates, and
  // nothing is out of order.
  predicate Conserved(r: Counter, samples: int, repeats: nat) {
    Held(r) == samples && r.tally.duplicates == repeats && r.tally.outOfOrder == 0
  }

  function Received(w: nat, first: nat, steps: seq<nat>): Counter
    requires w > 0
  {
    Run(Rust, w, FRESH, Numbers(w, first, steps))
  }

  lemma ReceivedSnoc(w: nat, first: nat, steps: seq<nat>)
    requires w > 0 && steps != []
    ensures var front, k := steps[..|steps| - 1], steps[|steps| - 1];
            Received(w, first, steps) == Count(Rust, w, Received(w, first, front), (SampleAt(first, front) + k) % w)
  {
    var cnts := Numbers(w, first, steps);
    assert cnts[..|cnts| - 1] == Numbers(w, first, steps[..|steps| - 1]);
  }

  // Over any trace of accountable advances and repeats, every sample sent is either received or counted lost,
  // every repeat is counted as a duplicate, and nothing is out of order.
  lemma {:induction false} LossConserved(w: nat, first: nat, steps: seq<nat>)
    requires w > 0 && AllAccountable(w, first, steps)
    ensures var r := Received(w, first, steps);
            && r.tally.received + r.tally.lost - r.tally.duplicates == SampleAt(first, steps) - first + 1
            && r.tally.received == |steps| + 1
            && r.tally.duplicates == Repeats(steps) && r.tally.outOfOrder == 0
            && r.track.prev == Some(SampleAt(first, steps) % w)
  {
    if steps == [] {
      assert [first % w][..0] == [] && Run(Rust, w, FRESH, []) == FRESH;
    } else {
      var front, k := steps[..|steps| - 1], steps[|steps| - 1];
      LossConserved(w, first, front);
      ReceivedSnoc(w, first, steps);
      HeldStep(w, Received(w, first, front), SampleAt(first, front), k);
    }
  }

  lemma HeldStep(w: nat, before: Counter, s: nat, k: nat)
    requires w > 0 && before.track.prev == Some(s % w) && (k == 0 || Accountable(w, s, k))
    ensures var after := Count(Rust, w, before, (s + k) % w);
            && after.tally.received == before.tally.received + 1 && Held(after) == Held(before) + k
            && after.tally.duplicates == before.tally.duplicates + (if k == 0 then 1 else 0)
            && after.tally.outOfOrder == before.tally.outOfOrder && after.track.prev == Some((s + k) % w)
  {
    if k == 0 {
      FirstAndRepeated(Rust, w, before, s % w);
    } else {
      StepConserves(w, before, s, k);
    }
  }

  // Out of order, or at sample `at` with no more than `sent` samples accounted for, and all of them exactly
  // when `all` holds.
  predicate Accounted(r: Counter, w: nat, at: nat, sent: int, all: bool)
    requires w > 0
  {
    || r.tally.outOfOrder > 0
    || (r.track.prev == Some(at % w) && Held(r) <= sent && (Held(r) == sent <==> all))
  }

  lemma AccountedStep(w: nat, r: Counter, at: nat, sent: int, all: bool, k: nat)
    requires w > 0 && Accounted(r, w, at, sent, all)
    ensures Accounted(Count(Rust, w, r, (at + k) % w), w, at + k, sent + k,
                      all && (k == 0 || Accountable(w, at, k)))
  {
    if r.tally.outOfOrder == 0 {
      StepBounds(w, r, at, k);
    }
  }

  lemma AccountedFirst(w: nat, first: nat)
    requires w > 0
    ensures Accounted(Received(w, first, []), w, first, 1, true)
  {
    assert [first % w][..0] == [];
    assert Run(Rust, w, FRESH, []) == FRESH;
  }

  lemma {:induction false} TraceBounds(w: nat, first: nat, steps: seq<nat>)
    requires w > 0
    ensures Accounted(Received(w, first, steps), w, SampleAt(first, steps), SampleAt(first, steps) - first + 1,
                      AllAccountable(w, first, steps))
  {
    if steps == [] {
      AccountedFirst(w, first);
    } else {
      var front, k := steps[..|steps| - 1], steps[|steps| - 1];
      var at := SampleAt(first, front);
      TraceBounds(w, first, front);
      ReceivedSnoc(w, first, steps);
      AccountedStep(w, Received(w, first, front), at, at - first + 1, AllAccountable(w, first, front), k);
    }
  }

  // Over any in-order trace, repeats included, every sample sent is received or counted lost, the repeats are
  // the duplicates and nothing is out of order, if and only if every advance is accountable.
  lemma LossConservedExactly(w: nat, first: nat, steps: seq<nat>)
    requires w > 0
    ensures Conserved(Received(w, first, steps), SampleAt(first, steps) - first + 1, Repeats(steps))
            <==> AllAccountable(w, first, steps)
  {
    TraceBounds(w, first, steps);
    if AllAccountable(w, first, steps) {
      LossConserved(w, first, steps);
    }
  }

  // Advances of less than half the wrap are always accountable.
  lemma {:induction false} ShortAdvances(w: nat, first: nat, steps: seq<nat>)
    requires w > 0 && forall i :: 0 <= i < |steps| ==> 2 * steps[i] < w
    ensures AllAccountable(w, first, steps)
  {
    if steps == [] {
    } else {
      ShortAdvances(w, first, steps[..|steps| - 1]);
    }
  }

  // ----- the publisher

  datatype Reason = Start | Set | Periodic

  class Publisher {
    const noAsdu: nat
    const wrap: nat
    const reportEvery: nat
    var smpCnt: nat
    var frames: nat
    var samples: nat
    var afterSet: bool

    ghost predicate Valid()
      reads this
    {
      0 < wrap <= 65536 && noAsdu > 0 && reportEvery > 0 && smpCnt < wrap
      && samples == frames * noAsdu && smpCnt == samples % wrap
    }

    constructor (noAsdu: nat, wrap: nat, reportEvery: nat)
      requires noAsdu > 0 && 0 < wrap <= 65536 && reportEvery > 0
      ensures Valid() && samples == 0 && this.noAsdu == noAsdu && this.wrap == wrap
    {
      this.noAsdu, this.wrap, this.reportEvery := noAsdu, wrap, reportEvery;
      smpCnt, frames, samples, afterSet := 0, 0, 0, false;
    }

    // The smpCnt of each ASDU of the frame, and why it is announced, if it is.
    method SendFrame() returns (cnts: seq<nat>, reason: Option<Reason>)
      requires Valid()
      modifies this
      ensures Valid() && samples == old(samples) + noAsdu
      ensures cnts == seq(noAsdu, a requires 0 <= a => (old(samples) + a) % wrap)
      ensures reason == if old(frames) == 0 then Some(Start)
                        else if old(afterSet) then Some(Set)
                        else if samples / reportEvery != old(samples) / reportEvery then Some(Periodic) else None
      ensures !afterSet
    {
      cnts := [];
      ghost var base := samples;
      for a := 0 to noAsdu
        invariant smpCnt == (base + a) % wrap && samples == base
        invariant frames == old(frames) && afterSet == old(afterSet)
        invariant cnts == seq(a, i requires 0 <= i => (base + i) % wrap)
      {
        cnts := cnts + [smpCnt];
        NextNumber(base + a, wrap);
        smpCnt := (smpCnt + 1) % wrap;
      }
      var before := samples;
      frames := frames + 1;
      samples := samples + noAsdu;
      reason := if frames == 1 then Some(Start)
                else if afterSet then Some(Set)
                else if samples / reportEvery != before / reportEvery then Some(Periodic) else None;
      afterSet := false;
    }
  }

  lemma NextNumber(n: nat, w: nat)
    requires w > 0
    ensures (n + 1) % w == (n % w + 1) % w
  {
    ModShift(n + 1, n % w + 1, w, n / w);
  }

  // The numbers of the first n samples published.
  function Published(w: nat, n: nat): seq<nat>
    requires w > 0
  {
    seq(n, i requires 0 <= i => i % w)
  }

  lemma PublishedSnoc(w: nat, n: nat)
    requires w > 0 && n > 0
    ensures Published(w, n)[..n - 1] == Published(w, n - 1) && Published(w, n)[n - 1] == (n - 1) % w
  {
  }

  // A frame continues the numbers of the samples before it.
  lemma FrameContinues(w: nat, samples: nat, noAsdu: nat)
    requires w > 0
    ensures Published(w, samples) + seq(noAsdu, a requires 0 <= a => (samples + a) % w)
            == Published(w, samples + noAsdu)
  {
  }

  predicate Clean(c: Counter) {
    c.tally.lost == 0 && c.tally.duplicates == 0 && c.tally.outOfOrder == 0
  }

  // i % w, counted up.
  function Residue(w: nat, i: nat): (r: nat)
    requires w > 0
    ensures r < w && (i < w ==> r == i)
  {
    if i == 0 then 0 else if Residue(w, i - 1) + 1 < w then Residue(w, i - 1) + 1 else 0
  }

  lemma {:induction false} ResidueIsMod(w: nat, i: nat)
    requires w > 0
    ensures Residue(w, i) == i % w
  {
    if i > 0 {
      ResidueIsMod(w, i - 1);
      if w > 1 {
        NumberAfter(w, i - 1, 1);
      }
    }
  }

  lemma {:induction false} PublishedRun(w: nat, wrap: nat, n: nat)
    requires w >= 3 && (wrap == w || wrap == 0) && n > 0
    ensures Run(Rust, wrap, FRESH, Published(w, n))
            == Counter(Track(Some(Residue(w, n - 1)), if n < w then n - 1 else w - 1), Tally(n, 0, 0, 0))
  {
    PublishedSnoc(w, n);
    ResidueIsMod(w, n - 1);
    if n == 1 {
      assert Published(w, 0) == [];
    } else {
      PublishedRun(w, wrap, n - 1);
      PublishedStep(w, wrap, Residue(w, n - 2), Residue(w, n - 1), n);
    }
  }

  // One more sample in order, on the way up or over the wrap.
  lemma PublishedStep(w: nat, wrap: nat, prev: nat, cur: nat, n: nat)
    requires w >= 3 && (wrap == w || wrap == 0) && n >= 2 && prev < w
    requires cur == if prev + 1 < w then prev + 1 else 0
    requires n <= w ==> prev == n - 2
    ensures Count(Rust, wrap,
                  Counter(Track(Some(prev), if n - 1 < w then n - 2 else w - 1), Tally(n - 1, 0, 0, 0)), cur)
            == Counter(Track(Some(cur), if n < w then n - 1 else w - 1), Tally(n, 0, 0, 0))
  {
  }

  // Nothing dropped is counted as nothing lost, repeated or reordered, for every run, if and only if
  // the wrap is at least three; configured and learned wraps alike.
  lemma CleanExactly(w: nat, wrap: nat)
    requires w > 0 && (wrap == w || wrap == 0)
    ensures (forall n: nat :: Clean(Run(Rust, wrap, FRESH, Published(w, n)))) <==> w >= 3
  {
    if w >= 3 {
      forall n: nat
        ensures Clean(Run(Rust, wrap, FRESH, Published(w, n)))
      {
        if n > 0 {
          PublishedRun(w, wrap, n);
        }
      }
    } else {
      ShortWrapNotClean(w, wrap);
    }
  }

  lemma ShortWrapNotClean(w: nat, wrap: nat)
    requires 1 <= w <= 2 && (wrap == w || wrap == 0)
    ensures !Clean(Run(Rust, wrap, FRESH, Published(w, 3)))
  {
    var p := Published(w, 3);
    assert p == [0, 1 % w, 0];
    assert p[..2] == [0, 1 % w] && p[..2][..1] == [0] && p[..2][..1][..0] == [];
    assert Run(Rust, wrap, FRESH, [0]) == Counter(Track(Some(0), 0), Tally(1, 0, 0, 0)) by {
      assert [0][..0] == [];
    }
    assert Run(Rust, wrap, FRESH, [0, 1 % w]) == Count(Rust, wrap, Run(Rust, wrap, FRESH, [0]), 1 % w) by {
      assert [0, 1 % w][..1] == [0];
    }
  }
}

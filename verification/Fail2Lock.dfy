/** The plugin that locks an entity after too many attempts to authenticate within an interval. The clock
    and the configuration are parameters. */
module Fail2Lock {
  import opened Text
  import opened StringSlices

  type Time = int

  /** How many of the times lie in the window (from, from + length]. */
  function InWindow(times: seq<Time>, from: Time, length: Time): nat {
    if times == [] then 0
    else
      InWindow(times[..|times| - 1], from, length) + if from < times[|times| - 1] <= from + length then 1 else 0
  }

  function After(times: seq<Time>, from: Time): nat {
    if times == [] then 0
    else After(times[..|times| - 1], from) + if from < times[|times| - 1] then 1 else 0
  }

  lemma {:induction false} AfterCounts(times: seq<Time>, from: Time)
    ensures After(times, from) == |set i | 0 <= i < |times| && from < times[i]|
  {
    if times != [] {
      var init, n := times[..|times| - 1], |times| - 1;
      AfterCounts(init, from);
      var before, all := set i | 0 <= i < n && from < init[i], set i | 0 <= i < |times| && from < times[i];
      assert all == before + if from < times[n] then {n} else {};
    }
  }

  /** Every window of the interval's length holds at most as many of the times as are allowed. */
  ghost predicate WindowsBounded(times: seq<Time>, interval: Time, allowed: int) {
    forall w :: InWindow(times, w, interval) <= if allowed > 0 then allowed else 0
  }

  lemma {:induction false} WindowWithinAfter(times: seq<Time>, from: Time, length: Time, from': Time)
    requires from' <= from
    ensures InWindow(times, from, length) <= After(times, from')
  {
    if times != [] {
      WindowWithinAfter(times[..|times| - 1], from, length, from');
    }
  }

  /** On times that have all passed, the plugin's count is the count of the window that ends now. */
  lemma {:induction false} AfterIsWindow(times: seq<Time>, now: Time, interval: Time)
    requires forall i :: 0 <= i < |times| ==> times[i] <= now
    ensures After(times, now - interval) == InWindow(times, now - interval, interval)
  {
    if times != [] {
      AfterIsWindow(times[..|times| - 1], now, interval);
    }
  }

  /** An attempt checked at `now` against fewer than `allowed` recent ones, and recorded at `stamp`, keeps
      every window bounded - also the windows that end after both. */
  lemma {:induction false} RecordingKeepsBound(times: seq<Time>, now: Time, stamp: Time, interval: Time, allowed: int)
    requires WindowsBounded(times, interval, allowed)
    requires now <= stamp && After(times, now - interval) < allowed
    ensures WindowsBounded(times + [stamp], interval, allowed)
  {
    forall w ensures InWindow(times + [stamp], w, interval) <= allowed {
      assert (times + [stamp])[..|times|] == times;
      if w < stamp <= w + interval {
        WindowWithinAfter(times, w, interval, now - interval);
      }
    }
  }

  // ----- the plugin -----

  datatype Entity = Entity(id: string, untypedMeta: seq<string>, locked: bool)

  const FLAG := "fail2lock"

  /** The one entry under the plugin's key asks for a reset. */
  ghost predicate AsksReset(meta: seq<string>) {
    var flags := ReadSelection(meta, FLAG);
    |flags| == 1 && ':' in flags[0] && BeforeColon(AfterColon(flags[0])) == "RESET"
  }

  datatype Outcome = Reset | Locked | Passed(stamp: Time) | Cleared

  /** A reset is asked for exactly when a single entry is the plugin's, whatever index its key carries, and its
      second field is the word. */
  lemma {:induction false} ResetAsked(meta: seq<string>)
    requires forall kv :: kv in meta ==> ':' in kv
    ensures AsksReset(meta)
       <==> exists i: nat :: OnlyAt(meta, IsFlag, i) && meta[i] in meta && BeforeColon(AfterColon(meta[i])) == "RESET"
  {
    forall kv ensures FuzzyKeyed(FLAG)(kv) <==> IsFlag(kv) {
      FlagKeyed(kv);
    }
    AsksWhenOnly(meta, IsFlag);
    SameSelection(meta, FuzzyKeyed(FLAG), IsFlag);
  }

  predicate IsFlag(kv: string) {
    StripIndex(BeforeColon(kv)) == "fail2lock"
  }

  lemma {:induction false} FlagKeyed(kv: string)
    ensures FuzzyKeyed(FLAG)(kv) <==> IsFlag(kv)
  {
    StripPlain(FLAG);
  }

  lemma {:induction false} SameSelection(q: seq<string>, p: string -> bool, p': string -> bool)
    requires forall x :: p(x) == p'(x)
    ensures Select(q, p, true) == Select(q, p', true)
  {
    if q != [] {
      SameSelection(q[..|q| - 1], p, p');
    }
  }

  lemma {:induction false} AsksWhenOnly(meta: seq<string>, p: string -> bool)
    requires forall kv :: kv in meta ==> ':' in kv
    ensures var flags := Select(meta, p, true);
            |flags| == 1 && ':' in flags[0] && BeforeColon(AfterColon(flags[0])) == "RESET"
            <==> exists i: nat :: OnlyAt(meta, p, i) && meta[i] in meta && BeforeColon(AfterColon(meta[i])) == "RESET"
  {
    OnlyOne(meta, p);
    if |Select(meta, p, true)| == 1 {
      var i: nat :| OnlyAt(meta, p, i);
      assert meta[i] in meta;
    }
  }

  ghost predicate OnlyAt(q: seq<string>, p: string -> bool, i: nat) {
    i < |q| && p(q[i]) && forall j :: 0 <= j < |q| && j != i ==> !p(q[j])
  }

  lemma {:induction false} NoneSelected(q: seq<string>, p: string -> bool)
    ensures Select(q, p, true) == [] <==> forall x :: x in q ==> !p(x)
  {
    SelectElements(q, p, true);
    HeadIn(Select(q, p, true));
  }

  /** A selection has one element exactly when one position qualifies. */
  lemma {:induction false} OnlyOne(q: seq<string>, p: string -> bool)
    ensures |Select(q, p, true)| == 1 <==> exists i: nat :: OnlyAt(q, p, i)
    ensures forall i: nat :: OnlyAt(q, p, i) ==> Select(q, p, true) == [q[i]]
  {
    if q != [] {
      var init, last := q[..|q| - 1], q[|q| - 1];
      OnlyOne(init, p);
      NoneSelected(init, p);
      if p(last) {
        forall i: nat | OnlyAt(q, p, i) ensures i == |init| && Select(init, p, true) == [] {
          assert forall x :: x in init ==> !p(x);
        }
        if Select(init, p, true) == [] {
          assert OnlyAt(q, p, |init|);
        }
      } else {
        forall i: nat ensures OnlyAt(q, p, i) <==> OnlyAt(init, p, i) {
          assert forall j :: 0 <= j < |init| ==> init[j] == q[j];
        }
      }
    }
  }

  /** What an attempt leads to, given the attempts recorded so far and whether a reset is asked for. */
  function Verdict(log: seq<Time>, reset: bool, now: Time, stamp: Time, interval: Time, allowed: int): Outcome {
    if reset then Reset
    else if After(log, now - interval) >= allowed then Locked
    else Passed(stamp)
  }

  /** Without a reset an attempt locks exactly when at least the allowed number of recorded ones are recent. */
  lemma {:induction false} VerdictExact(log: seq<Time>, now: Time, stamp: Time, interval: Time, allowed: int)
    ensures Verdict(log, false, now, stamp, interval, allowed)
         == if |set i | 0 <= i < |log| && now - interval < log[i]| >= allowed then Locked else Passed(stamp)
  {
    AfterCounts(log, now - interval);
  }

  /** The recorded attempts after an outcome. */
  function Recorded(log: seq<Time>, o: Outcome): seq<Time> {
    match o
    case Reset => []
    case Cleared => []
    case Locked => log
    case Passed(stamp) => log + [stamp]
  }

  function Log(failDB: map<string, seq<Time>>, id: string): seq<Time> {
    if id in failDB then failDB[id] else []
  }

  method ReadsReset(meta: seq<string>) returns (reset: bool)
    requires forall kv :: kv in meta ==> ':' in kv
    ensures reset == AsksReset(meta)
  {
    var flags := PatchKeyValueSlice(meta, Read, FLAG, "");
    ghost var selected := ReadSelection(meta, FLAG);
    SelectElements(meta, FuzzyKeyed(FLAG), true);
    OneElement(flags, selected);
    reset := false;
    if |flags| == 1 {
      assert selected[0] in selected;
      reset := BeforeColon(AfterColon(flags[0])) == "RESET";
    }
  }

  lemma {:induction false} OneElement<T>(a: seq<T>, b: seq<T>)
    requires multiset(a) == multiset(b)
    ensures |a| == |b| && (|a| == 1 ==> a[0] == b[0])
  {
    assert |a| == |multiset(a)| == |multiset(b)| == |b|;
    if |a| == 1 {
      assert a == [a[0]] && b == [b[0]] && a[0] in multiset(a);
    }
  }

  method CountAfter(log: seq<Time>, startTime: Time) returns (n: int)
    ensures n == After(log, startTime)
  {
    n := 0;
    for i := 0 to |log|
      invariant n == After(log[..i], startTime)
    {
      assert log[..i + 1][..i] == log[..i];
      if startTime < log[i] {
        n := n + 1;
      }
    }
    assert log[..|log|] == log;
  }

  class Fail2Lock {
    const interval: Time
    const allowed: int
    var failDB: map<string, seq<Time>>

    constructor (interval: Time, allowed: int)
      ensures this.interval == interval && this.allowed == allowed && failDB == map[]
    {
      this.interval, this.allowed, failDB := interval, allowed, map[];
    }

    /** Decides on an attempt; now and stamp are the two readings of the clock it takes. A reset forgets the
        recorded attempts. Without one the entity is locked exactly when at least the allowed number of them are
        recent, and otherwise the attempt is let through and recorded. Metadata entries are always written with a
        colon. */
    method PreAuthCheck(e: Entity, now: Time, stamp: Time) returns (r: Entity, ghost o: Outcome)
      requires forall kv :: kv in e.untypedMeta ==> ':' in kv
      modifies this`failDB
      ensures o == Verdict(old(Log(failDB, e.id)), AsksReset(e.untypedMeta), now, stamp, interval, allowed)
      ensures Log(failDB, e.id) == Recorded(old(Log(failDB, e.id)), o)
      ensures forall id :: id != e.id ==> Log(failDB, id) == old(Log(failDB, id))
      ensures AsksReset(e.untypedMeta) ==>
                o == Reset && Log(failDB, e.id) == []
                && r == e.(untypedMeta := ClearFuzzySpec(e.untypedMeta, FLAG))
      ensures !AsksReset(e.untypedMeta) ==>
                var log := old(Log(failDB, e.id));
                if |set i | 0 <= i < |log| && now - interval < log[i]| >= allowed
                then o == Locked && r == e.(locked := true) && Log(failDB, e.id) == log
                else o == Passed(stamp) && r == e && Log(failDB, e.id) == log + [stamp]
    {
      VerdictExact(Log(failDB, e.id), now, stamp, interval, allowed);
      var reset := ReadsReset(e.untypedMeta);
      var d := Decide(e.id, reset, now, stamp);
      o := d;
      r := e;
      if d.Reset? {
        var cleared := PatchKeyValueSlice(e.untypedMeta, ClearFuzzy, FLAG, "");
        r := e.(untypedMeta := cleared);
      } else if d.Locked? {
        r := e.(locked := true);
      }
    }

    /** The decision on an attempt and its effect on what is recorded. */
    method Decide(id: string, reset: bool, now: Time, stamp: Time) returns (o: Outcome)
      modifies this`failDB
      ensures o == Verdict(old(Log(failDB, id)), reset, now, stamp, interval, allowed)
      ensures Log(failDB, id) == Recorded(old(Log(failDB, id)), o)
      ensures forall other :: other != id ==> Log(failDB, other) == old(Log(failDB, other))
    {
      if reset {
        failDB := failDB - {id};
        return Reset;
      }
      var log := Log(failDB, id);
      var inIntervalFails := CountAfter(log, now - interval);
      if inIntervalFails >= allowed {
        return Locked;
      }
      failDB := failDB[id := log + [stamp]];
      return Passed(stamp);
    }

    /** A successful authentication forgets the recorded attempts. */
    method PostAuthCheck(e: Entity) returns (r: Entity)
      modifies this`failDB
      ensures r == e
      ensures Log(failDB, e.id) == [] == Recorded(old(Log(failDB, e.id)), Cleared)
      ensures forall id :: id != e.id ==> Log(failDB, id) == old(Log(failDB, id))
    {
      failDB := failDB - {e.id};
      r := e;
    }
  }

  // ----- whole runs -----

  /** What happens to one entity: an attempt, with or without a reset asked for, or a success. */
  datatype Event = Attempt(reset: bool, now: Time, stamp: Time) | Success

  ghost function OutcomeOf(log: seq<Time>, e: Event, interval: Time, allowed: int): Outcome {
    match e
    case Attempt(reset, now, stamp) => Verdict(log, reset, now, stamp, interval, allowed)
    case Success => Cleared
  }

  /** The recorded attempts after a run. */
  ghost function RunLog(events: seq<Event>, interval: Time, allowed: int): seq<Time> {
    if events == [] then []
    else
      var log := RunLog(events[..|events| - 1], interval, allowed);
      Recorded(log, OutcomeOf(log, events[|events| - 1], interval, allowed))
  }

  ghost function RunOutcomes(events: seq<Event>, interval: Time, allowed: int): (os: seq<Outcome>)
    ensures |os| == |events|
  {
    if events == [] then []
    else
      var init := events[..|events| - 1];
      RunOutcomes(init, interval, allowed)
      + [OutcomeOf(RunLog(init, interval, allowed), events[|events| - 1], interval, allowed)]
  }

  /** The clock does not run backwards within an attempt. */
  ghost predicate ClockForward(events: seq<Event>) {
    forall i :: 0 <= i < |events| && events[i].Attempt? ==> events[i].now <= events[i].stamp
  }

  /** When the attempts that were let through happened. */
  function PassedAt(os: seq<Outcome>): seq<Time> {
    if os == [] then []
    else PassedAt(os[..|os| - 1]) + if os[|os| - 1].Passed? then [os[|os| - 1].stamp] else []
  }

  ghost predicate Unbroken(os: seq<Outcome>) {
    forall i :: 0 <= i < |os| ==> !os[i].Reset? && !os[i].Cleared?
  }

  lemma {:induction false} RunBounded(events: seq<Event>, interval: Time, allowed: int)
    requires ClockForward(events)
    ensures WindowsBounded(RunLog(events, interval, allowed), interval, allowed)
  {
    if events != [] {
      var init, e := events[..|events| - 1], events[|events| - 1];
      RunBounded(init, interval, allowed);
      var log := RunLog(init, interval, allowed);
      if OutcomeOf(log, e, interval, allowed).Passed? {
        RecordingKeepsBound(log, e.now, e.stamp, interval, allowed);
      }
    }
  }

  lemma {:induction false} SuffixInWindow(a: seq<Time>, b: seq<Time>, w: Time, length: Time)
    ensures InWindow(b, w, length) <= InWindow(a + b, w, length)
  {
    if b != [] {
      assert (a + b)[..|a + b| - 1] == a + b[..|b| - 1];
      SuffixInWindow(a, b[..|b| - 1], w, length);
    }
  }

  /** What is recorded after a run ends with what was let through since any point after the last reset. */
  lemma {:induction false} LogEndsWithPassed(events: seq<Event>, i: nat, interval: Time, allowed: int)
    returns (front: seq<Time>)
    requires i <= |events| && Unbroken(RunOutcomes(events, interval, allowed)[i..])
    ensures RunLog(events, interval, allowed) == front + PassedAt(RunOutcomes(events, interval, allowed)[i..])
    decreases |events|
  {
    var os := RunOutcomes(events, interval, allowed);
    if i == |events| {
      front := RunLog(events, interval, allowed);
      assert os[i..] == [];
    } else {
      var init := events[..|events| - 1];
      var os', last := RunOutcomes(init, interval, allowed), os[|os| - 1];
      assert os == os' + [last] && os[i..] == os'[i..] + [last];
      UnbrokenLast(os'[i..], last);
      front := LogEndsWithPassed(init, i, interval, allowed);
      PassedLast(os'[i..], last);
    }
  }

  lemma {:induction false} UnbrokenLast(os: seq<Outcome>, last: Outcome)
    requires Unbroken(os + [last])
    ensures Unbroken(os) && !last.Reset? && !last.Cleared?
  {
    assert forall i :: 0 <= i < |os| ==> (os + [last])[i] == os[i];
    assert (os + [last])[|os|] == last;
  }

  lemma {:induction false} PassedLast(os: seq<Outcome>, last: Outcome)
    ensures PassedAt(os + [last]) == PassedAt(os) + if last.Passed? then [last.stamp] else []
  {
    assert (os + [last])[..|os|] == os;
  }

  /** Between resets and successes, over any sequence of attempts, every window of the interval's length
      holds at most the allowed number of attempts that were let through. */
  lemma {:induction false} SlidingWindow(events: seq<Event>, i: nat, j: nat, interval: Time, allowed: int)
    requires i <= j <= |events| && ClockForward(events)
    requires Unbroken(RunOutcomes(events, interval, allowed)[i..j])
    ensures WindowsBounded(PassedAt(RunOutcomes(events, interval, allowed)[i..j]), interval, allowed)
  {
    OutcomesOfPrefix(events, j, interval, allowed);
    var os := RunOutcomes(events[..j], interval, allowed);
    assert os[i..] == RunOutcomes(events, interval, allowed)[i..j];
    RunBounded(events[..j], interval, allowed);
    var front := LogEndsWithPassed(events[..j], i, interval, allowed);
    forall w ensures InWindow(PassedAt(os[i..]), w, interval) <= if allowed > 0 then allowed else 0 {
      SuffixInWindow(front, PassedAt(os[i..]), w, interval);
    }
  }

  lemma {:induction false} OutcomesOfPrefix(events: seq<Event>, j: nat, interval: Time, allowed: int)
    requires j <= |events|
    ensures RunOutcomes(events[..j], interval, allowed) == RunOutcomes(events, interval, allowed)[..j]
    decreases |events|
  {
    if j == |events| {
      assert events[..j] == events;
    } else {
      var init := events[..|events| - 1];
      assert init[..j] == events[..j];
      OutcomesOfPrefix(init, j, interval, allowed);
    }
  }

  // ----- when an attempt is let through -----

  predicate Breaks(e: Event) {
    e.Success? || e.reset
  }

  lemma {:induction false} RunOutcomesAt(events: seq<Event>, n: nat, interval: Time, allowed: int)
    requires n < |events|
    ensures RunOutcomes(events, interval, allowed)[n]
         == OutcomeOf(RunLog(events[..n], interval, allowed), events[n], interval, allowed)
  {
    OutcomesOfPrefix(events, n + 1, interval, allowed);
    assert events[..n + 1][..n] == events[..n];
  }

  lemma {:induction false} RunLogNext(events: seq<Event>, n: nat, interval: Time, allowed: int)
    requires 0 < n <= |events|
    ensures var o := RunOutcomes(events, interval, allowed)[n - 1];
            && RunLog(events[..n], interval, allowed) == Recorded(RunLog(events[..n - 1], interval, allowed), o)
            && (o == Reset || o == Cleared <==> Breaks(events[n - 1]))
  {
    RunOutcomesAt(events, n - 1, interval, allowed);
    assert events[..n][..n - 1] == events[..n - 1] && events[..n][n - 1] == events[n - 1];
  }

  lemma {:induction false} BreakEmpties(events: seq<Event>, s: nat, interval: Time, allowed: int)
    requires s <= |events| && (s == 0 || Breaks(events[s - 1]))
    ensures RunLog(events[..s], interval, allowed) == []
  {
    if s > 0 {
      RunLogNext(events, s, interval, allowed);
    }
  }

  lemma {:induction false} RecordedPassed(os: seq<Outcome>, s: nat, n: nat)
    requires s < n <= |os| && !os[n - 1].Reset? && !os[n - 1].Cleared?
    ensures Recorded(PassedAt(os[s..n - 1]), os[n - 1]) == PassedAt(os[s..n])
  {
    assert os[s..n] == os[s..n - 1] + [os[n - 1]];
    PassedLast(os[s..n - 1], os[n - 1]);
  }

  /** What is recorded is what was let through since the last reset or success. */
  lemma {:induction false} LogSinceBreak(events: seq<Event>, s: nat, n: nat, interval: Time, allowed: int)
    requires s <= n <= |events| && (s == 0 || Breaks(events[s - 1]))
    requires forall i :: s <= i < n ==> !Breaks(events[i])
    ensures RunLog(events[..n], interval, allowed) == PassedAt(RunOutcomes(events, interval, allowed)[s..n])
  {
    var os := RunOutcomes(events, interval, allowed);
    if s == n {
      BreakEmpties(events, s, interval, allowed);
      assert os[s..n] == [];
    } else {
      LogSinceBreak(events, s, n - 1, interval, allowed);
      RunLogNext(events, n, interval, allowed);
      RecordedPassed(os, s, n);
    }
  }

  ghost function PassedSet(os: seq<Outcome>, s: nat, n: nat, from: Time): set<int>
    requires n <= |os|
  {
    set i | s <= i < n && os[i].Passed? && from < os[i].stamp
  }

  lemma {:induction false} AfterAppend(times: seq<Time>, t: Time, from: Time)
    ensures After(times + [t], from) == After(times, from) + if from < t then 1 else 0
  {
    assert (times + [t])[..|times|] == times;
  }

  lemma {:induction false} PassedSetNext(os: seq<Outcome>, s: nat, n: nat, from: Time)
    requires s < n <= |os|
    ensures |PassedSet(os, s, n, from)|
         == |PassedSet(os, s, n - 1, from)| + if os[n - 1].Passed? && from < os[n - 1].stamp then 1 else 0
  {
    var last := if os[n - 1].Passed? && from < os[n - 1].stamp then {n - 1} else {};
    assert PassedSet(os, s, n, from) == PassedSet(os, s, n - 1, from) + last;
  }

  lemma {:induction false} PassedCount(os: seq<Outcome>, s: nat, n: nat, from: Time)
    requires s <= n <= |os|
    ensures After(PassedAt(os[s..n]), from) == |PassedSet(os, s, n, from)|
  {
    if s == n {
      assert os[s..n] == [] && PassedSet(os, s, n, from) == {};
    } else {
      PassedCount(os, s, n - 1, from);
      PassedSetNext(os, s, n, from);
      assert os[s..n] == os[s..n - 1] + [os[n - 1]];
      PassedLast(os[s..n - 1], os[n - 1]);
      if os[n - 1].Passed? {
        AfterAppend(PassedAt(os[s..n - 1]), os[n - 1].stamp, from);
      } else {
        assert PassedAt(os[s..n - 1]) + [] == PassedAt(os[s..n - 1]);
      }
    }
  }

  /** Over any run, an attempt without a reset is let through exactly when fewer than the allowed number of the
      attempts let through since the last reset or success lie within the interval; otherwise it locks. */
  lemma {:induction false} LetThroughExactly(events: seq<Event>, s: nat, n: nat, interval: Time, allowed: int)
    requires s <= n < |events| && (s == 0 || Breaks(events[s - 1]))
    requires events[n].Attempt? && forall i :: s <= i <= n ==> !Breaks(events[i])
    ensures var os := RunOutcomes(events, interval, allowed);
            var from := events[n].now - interval;
            os[n] == if |set i | s <= i < n && os[i].Passed? && from < os[i].stamp| < allowed
                     then Passed(events[n].stamp) else Locked
  {
    LogSinceBreak(events, s, n, interval, allowed);
    RunOutcomesAt(events, n, interval, allowed);
    PassedCount(RunOutcomes(events, interval, allowed), s, n, events[n].now - interval);
  }
}

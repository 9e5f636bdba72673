/**
 The throttle on key-set fetches: a time stamp guarded by a mutex, shared by all
 requests to one issuer.
 */
module Throttle {
  import opened Wrappers
  import opened Auth

  /** Thirty seconds. */
  const INTERVAL := 30 * SECOND

  predicate Throttled(now: int, last: int) {
    Sub(now, last) < INTERVAL
  }

  lemma ThrottledExactly(now: int, last: int)
    ensures Throttled(now, last) <==> now - last < 30_000_000_000
  {
    SubSaturates(now, last);
  }

  // ----- one request -----

  datatype Forwarding = NotHttps | TooSoon | Forwarded

  class Transport {
    const keySetUrl: string
    var lastFetch: int

    constructor (keySetUrl: string, lastFetch: int)
      ensures this.keySetUrl == keySetUrl && this.lastFetch == lastFetch
    {
      this.keySetUrl := keySetUrl;
      this.lastFetch := lastFetch;
    }

    /** Forwards a request unless it is not https, or fetches the key set less
        than an interval after the last fetch that was forwarded. The clock is
        read once for the check and, if that passes, once for the stamp. */
    method RoundTrip(https: bool, url: string, checked: int, stamped: int) returns (r: Forwarding)
      requires checked <= stamped
      modifies this`lastFetch
      ensures r == NotHttps <==> !https
      ensures r == TooSoon <==> https && keySetUrl != "" && url == keySetUrl && checked - old(lastFetch) < INTERVAL
      ensures r == Forwarded && keySetUrl != "" && url == keySetUrl ==>
                lastFetch == stamped && lastFetch >= old(lastFetch) + INTERVAL
      ensures r != Forwarded || url != keySetUrl ==> lastFetch == old(lastFetch)
    {
      if !https {
        return NotHttps;
      }
      if keySetUrl != "" && url == keySetUrl {
        ThrottledExactly(checked, lastFetch);
        var throttled := Throttled(checked, lastFetch);
        if !throttled {
          lastFetch := stamped;
        }
        if throttled {
          return TooSoon;
        }
      }
      return Forwarded;
    }
  }

  // ----- many requests at once -----

  /** Where one fetch is: waiting for the mutex, holding it, or past it. */
  datatype Phase = Waiting | Locked | Passed | Refused | Stamped | Sending | Finished

  /** A request that was sent, and which stamp admitted it. */
  datatype Sent = Sent(at: int, stamp: nat)

  /** `slots` records, for each fetch that is admitted and not yet sent, its
      stamp by position in `stamps`. */
  datatype State = State(
    clock: int,
    last: int,
    holder: Option<nat>,
    phases: map<nat, Phase>,
    stamps: seq<int>,
    slots: map<nat, nat>,
    sends: seq<Sent>)

  datatype Action =
    | Tick(d: nat)
    | Begin(t: nat)
    | Lock(t: nat)
    | Check(t: nat)
    | Stamp(t: nat)
    | Unlock(t: nat)
    | Send(t: nat)

  predicate InPhase(s: State, t: nat, p: Phase) {
    t in s.phases && s.phases[t] == p
  }

  predicate Enabled(s: State, a: Action) {
    match a
    case Tick(_) => true
    case Begin(t) => t !in s.phases
    case Lock(t) => InPhase(s, t, Waiting) && s.holder == None
    case Check(t) => InPhase(s, t, Locked)
    case Stamp(t) => InPhase(s, t, Passed)
    case Unlock(t) => InPhase(s, t, Stamped) || InPhase(s, t, Refused)
    case Send(t) => InPhase(s, t, Sending) && t in s.slots
  }

  function Moved(s: State, t: nat, p: Phase): State {
    s.(phases := s.phases[t := p])
  }

  function Step(s: State, a: Action): State
    requires Enabled(s, a)
  {
    match a
    case Tick(d) => s.(clock := s.clock + d)
    case Begin(t) => Moved(s, t, Waiting)
    case Lock(t) => Moved(s, t, Locked).(holder := Some(t))
    case Check(t) => Moved(s, t, if Throttled(s.clock, s.last) then Refused else Passed)
    case Stamp(t) =>
      Moved(s, t, Stamped).(last := s.clock, stamps := s.stamps + [s.clock], slots := s.slots[t := |s.stamps|])
    case Unlock(t) => Moved(s, t, if InPhase(s, t, Stamped) then Sending else Finished).(holder := None)
    case Send(t) => Moved(s, t, Finished).(sends := s.sends + [Sent(s.clock, s.slots[t])], slots := s.slots - {t})
  }

  function Init(clock: int, last: int): State {
    State(clock, last, None, map[], [], map[], [])
  }

  predicate Runs(s: State, actions: seq<Action>)
    decreases |actions|
  {
    actions == [] || (Enabled(s, actions[0]) && Runs(Step(s, actions[0]), actions[1..]))
  }

  function Final(s: State, actions: seq<Action>): State
    requires Runs(s, actions)
    decreases |actions|
  {
    if actions == [] then s else Final(Step(s, actions[0]), actions[1..])
  }

  // ----- the invariant -----

  predicate Holding(p: Phase) {
    p in {Locked, Passed, Refused, Stamped}
  }

  /** Only the holder of the mutex is between locking and unlocking. */
  ghost predicate MutuallyExclusive(s: State) {
    forall t :: (t in s.phases && Holding(s.phases[t])) <==> s.holder == Some(t)
  }

  /** A fetch that passed its check still may: nothing moved the stamp. */
  ghost predicate PassedHolds(s: State) {
    forall t :: InPhase(s, t, Passed) ==> s.clock - s.last >= INTERVAL
  }

  ghost predicate Spaced(stamps: seq<int>) {
    forall i :: 0 <= i < |stamps| - 1 ==> stamps[i + 1] - stamps[i] >= INTERVAL
  }

  ghost predicate StampsInOrder(s: State) {
    Spaced(s.stamps) && (s.stamps != [] ==> s.last == s.stamps[|s.stamps| - 1] && s.last <= s.clock)
  }

  /** An admitted fetch that is not yet sent holds a stamp, and no other does. */
  ghost predicate SlotsHeld(s: State) {
    forall t :: t in s.slots <==> t in s.phases && s.phases[t] in {Stamped, Sending}
  }

  /** Every stamp pays for one request, sent or still to be sent. */
  ghost predicate SlotsDistinct(s: State) {
    && (forall t :: t in s.slots ==> s.slots[t] < |s.stamps|)
    && (forall t, u :: t in s.slots && u in s.slots && t != u ==> s.slots[t] != s.slots[u])
    && (forall k :: 0 <= k < |s.sends| ==> s.sends[k].stamp < |s.stamps|)
    && (forall k, l :: 0 <= k < l < |s.sends| ==> s.sends[k].stamp != s.sends[l].stamp)
    && (forall k, t :: 0 <= k < |s.sends| && t in s.slots ==> s.sends[k].stamp != s.slots[t])
  }

  ghost predicate Accounted(s: State) {
    |s.sends| + |s.slots| == |s.stamps|
  }

  /** Requests go out in the order of the clock, each after its stamp. */
  ghost predicate SentInOrder(s: State) {
    && (forall k :: 0 <= k < |s.stamps| ==> s.stamps[k] <= s.clock)
    && (forall k :: 0 <= k < |s.sends| ==> s.sends[k].at <= s.clock)
    && (forall k, l :: 0 <= k < l < |s.sends| ==> s.sends[k].at <= s.sends[l].at)
    && (forall k :: 0 <= k < |s.sends| && s.sends[k].stamp < |s.stamps| ==> s.stamps[s.sends[k].stamp] <= s.sends[k].at)
  }

  ghost predicate Inv(s: State) {
    && MutuallyExclusive(s) && PassedHolds(s) && StampsInOrder(s)
    && SlotsHeld(s) && SlotsDistinct(s) && Accounted(s) && SentInOrder(s)
  }

  lemma StepKeepsMutex(s: State, a: Action)
    requires Enabled(s, a) && MutuallyExclusive(s)
    ensures MutuallyExclusive(Step(s, a))
  {
    match a
    case Tick(_) =>
    case _ =>
      var s' := Step(s, a);
      assert forall t :: t != a.t && t in s.phases ==> s'.phases[t] == s.phases[t];
  }

  lemma StepKeepsSpacing(s: State, a: Action)
    requires Enabled(s, a) && MutuallyExclusive(s) && PassedHolds(s) && StampsInOrder(s)
    ensures PassedHolds(Step(s, a)) && StampsInOrder(Step(s, a))
  {
    var s' := Step(s, a);
    if a.Stamp? {
      assert s.holder == Some(a.t);
      forall t: nat ensures !InPhase(s', t, Passed) {
        assert InPhase(s, t, Passed) ==> Holding(s.phases[t]);
        assert InPhase(s, t, Passed) ==> s.holder == Some(t);
      }
    } else {
      forall t: nat | InPhase(s', t, Passed) ensures s'.clock - s'.last >= INTERVAL {
        if a == Check(t) {
          ThrottledExactly(s.clock, s.last);
        } else {
          assert InPhase(s, t, Passed);
        }
      }
    }
  }

  lemma StepKeepsHeld(s: State, a: Action)
    requires Enabled(s, a) && SlotsHeld(s)
    ensures SlotsHeld(Step(s, a))
  {
  }

  lemma StepKeepsDistinct(s: State, a: Action)
    requires Enabled(s, a) && SlotsDistinct(s)
    ensures SlotsDistinct(Step(s, a))
  {
    var s' := Step(s, a);
    match a
    case Stamp(t) => assert s'.sends == s.sends;
    case Send(t) => assert forall u :: u in s'.slots ==> u in s.slots && u != t && s'.slots[u] == s.slots[u];
    case _ => assert s'.slots == s.slots && s'.sends == s.sends && s'.stamps == s.stamps;
  }

  lemma StepKeepsAccounts(s: State, a: Action)
    requires Enabled(s, a) && SlotsHeld(s) && Accounted(s)
    ensures Accounted(Step(s, a))
  {
    var s' := Step(s, a);
    match a
    case Stamp(t) =>
      assert t !in s.slots;
      assert s'.slots.Keys == s.slots.Keys + {t};
    case Send(t) => assert s'.slots.Keys == s.slots.Keys - {t};
    case _ => assert s'.slots == s.slots;
  }

  lemma StepKeepsOrder(s: State, a: Action)
    requires Enabled(s, a) && SlotsDistinct(s) && SentInOrder(s)
    ensures SentInOrder(Step(s, a))
  {
  }

  lemma StepKeepsInv(s: State, a: Action)
    requires Inv(s) && Enabled(s, a)
    ensures Inv(Step(s, a))
  {
    StepKeepsMutex(s, a);
    StepKeepsSpacing(s, a);
    StepKeepsHeld(s, a);
    StepKeepsDistinct(s, a);
    StepKeepsAccounts(s, a);
    StepKeepsOrder(s, a);
  }

  lemma {:induction false} RunsKeepInv(s: State, actions: seq<Action>)
    requires Inv(s) && Runs(s, actions)
    ensures Inv(Final(s, actions))
    decreases |actions|
  {
    if actions != [] {
      StepKeepsInv(s, actions[0]);
      RunsKeepInv(Step(s, actions[0]), actions[1..]);
    }
  }

  lemma ReachableInv(clock: int, last: int, actions: seq<Action>)
    requires Runs(Init(clock, last), actions)
    ensures Inv(Final(Init(clock, last), actions))
  {
    InitInv(clock, last);
    RunsKeepInv(Init(clock, last), actions);
  }

  lemma InitInv(clock: int, last: int)
    ensures Inv(Init(clock, last))
  {
  }

  /** The next step of a fetch, once it holds the mutex or has passed it. */
  function NextStep(t: nat, p: Phase): Action {
    match p
    case Waiting => Lock(t)
    case Locked => Check(t)
    case Passed => Stamp(t)
    case Refused => Unlock(t)
    case Stamped => Unlock(t)
    case Sending => Send(t)
    case Finished => Tick(0)
  }

  /** Nothing gets stuck: in every state of every run the holder of the mutex
      can take its next step, without a holder every fetch that is not finished
      can, an admitted fetch can be sent in any case, and a new fetch can
      begin. */
  lemma NothingIsStuck(clock: int, last: int, actions: seq<Action>, t: nat)
    requires Runs(Init(clock, last), actions)
    ensures var s := Final(Init(clock, last), actions);
            && (t !in s.phases ==> Enabled(s, Begin(t)))
            && (t in s.phases && s.phases[t] != Finished
                && (s.holder == None || s.holder == Some(t) || s.phases[t] == Sending) ==>
                  Enabled(s, NextStep(t, s.phases[t])))
  {
    ReachableInv(clock, last, actions);
  }

  /** Only the mutex makes a fetch wait, and its holder gives it up within three
      steps. */
  lemma MutexIsReleased(clock: int, last: int, actions: seq<Action>) returns (more: seq<Action>)
    requires Runs(Init(clock, last), actions)
    ensures |more| <= 3 && Runs(Final(Init(clock, last), actions), more)
    ensures Final(Final(Init(clock, last), actions), more).holder == None
  {
    ReachableInv(clock, last, actions);
    more := Release(Final(Init(clock, last), actions), 3);
  }

  function StepsLeft(p: Phase): nat {
    match p
    case Locked => 3
    case Passed => 2
    case Refused => 1
    case Stamped => 1
    case _ => 0
  }

  lemma {:induction false} Release(s: State, n: nat) returns (more: seq<Action>)
    requires Inv(s)
    requires forall t :: s.holder == Some(t) && t in s.phases ==> StepsLeft(s.phases[t]) <= n
    ensures |more| <= n && Runs(s, more) && Final(s, more).holder == None
    decreases n
  {
    if s.holder == None {
      more := [];
    } else {
      var t := s.holder.value;
      assert t in s.phases && Holding(s.phases[t]);
      var a := NextStep(t, s.phases[t]);
      StepKeepsInv(s, a);
      var rest := Release(Step(s, a), n - 1);
      StepThen(s, a, rest);
      more := [a] + rest;
    }
  }

  lemma {:induction false} SpacedApart(stamps: seq<int>, i: nat, j: nat)
    requires Spaced(stamps) && i <= j < |stamps|
    ensures stamps[j] - stamps[i] >= (j - i) * INTERVAL
    decreases j - i
  {
    if i < j {
      SpacedApart(stamps, i, j - 1);
      assert stamps[j - 1 + 1] - stamps[j - 1] >= INTERVAL;
    }
  }

  // ----- admissions -----

  /** In every interleaving, the fetches admitted within any window of length
      `w` are at most floor(w / INTERVAL) + 1. */
  lemma AdmittedPerWindow(clock: int, last: int, actions: seq<Action>, i: nat, j: nat, w: nat)
    requires Runs(Init(clock, last), actions)
    requires i <= j < |Final(Init(clock, last), actions).stamps|
    requires var stamps := Final(Init(clock, last), actions).stamps; stamps[j] - stamps[i] <= w
    ensures j - i + 1 <= w / INTERVAL + 1
  {
    ReachableInv(clock, last, actions);
    SpacedApart(Final(Init(clock, last), actions).stamps, i, j);
  }

  /** No more requests are sent than fetches were admitted, so the number sent
      since the first admission is bounded by the time that has passed. */
  lemma SentAtMostAdmitted(clock: int, last: int, actions: seq<Action>)
    requires Runs(Init(clock, last), actions)
    ensures var s := Final(Init(clock, last), actions);
            |s.sends| <= |s.stamps| && (s.sends != [] ==> |s.sends| <= (s.clock - s.stamps[0]) / INTERVAL + 1)
  {
    ReachableInv(clock, last, actions);
    SentWithin(Final(Init(clock, last), actions));
  }

  lemma SentWithin(s: State)
    requires StampsInOrder(s) && Accounted(s)
    ensures |s.sends| <= |s.stamps| && (s.sends != [] ==> |s.sends| <= (s.clock - s.stamps[0]) / INTERVAL + 1)
  {
    if s.stamps != [] {
      SpacedApart(s.stamps, 0, |s.stamps| - 1);
      CountWithin(|s.stamps|, s.clock - s.stamps[0]);
    }
  }

  lemma CountWithin(n: nat, elapsed: int)
    requires elapsed >= (n - 1) * INTERVAL
    ensures n <= elapsed / INTERVAL + 1
  {
  }

  // ----- requests -----

  /** No request is sent more than `delay` after its stamp. */
  ghost predicate DelaysAtMost(s: State, delay: int) {
    forall k :: 0 <= k < |s.sends| && s.sends[k].stamp < |s.stamps| ==>
      s.sends[k].at - s.stamps[s.sends[k].stamp] <= delay
  }

  ghost predicate SendsApart(s: State, gap: int) {
    forall k, l :: 0 <= k < l < |s.sends| ==> s.sends[l].at - s.sends[k].at >= gap
  }

  /** A delay eats into the interval between requests, and into nothing else. */
  lemma DelayBoundsSpacing(s: State, delay: nat)
    requires Inv(s) && DelaysAtMost(s, delay)
    ensures SendsApart(s, INTERVAL - delay) && SendsApart(s, 0)
  {
    forall k, l | 0 <= k < l < |s.sends| ensures s.sends[l].at - s.sends[k].at >= INTERVAL - delay {
      var a, b := s.sends[k].stamp, s.sends[l].stamp;
      assert a != b && a < |s.stamps| && b < |s.stamps|;
      SpacedApart(s.stamps, if a < b then a else b, if a < b then b else a);
    }
  }

  /** Every run from a fresh transport whose requests leave within `delay` of
      their stamps spaces its requests by `gap`. */
  ghost predicate AlwaysApart(delay: nat, gap: int) {
    forall clock, last, actions | Runs(Init(clock, last), actions) ::
      DelaysAtMost(Final(Init(clock, last), actions), delay) ==> SendsApart(Final(Init(clock, last), actions), gap)
  }

  /** Exactly how far apart requests are: with delays up to `delay`, by what the
      longest delay leaves of the interval, and not by more. */
  lemma RequestSpacingExactly(delay: nat, gap: int)
    ensures AlwaysApart(delay, gap) <==> gap <= 0 || gap <= INTERVAL - delay
  {
    if gap <= 0 || gap <= INTERVAL - delay {
      forall clock, last, actions | Runs(Init(clock, last), actions)
        ensures DelaysAtMost(Final(Init(clock, last), actions), delay) ==>
                  SendsApart(Final(Init(clock, last), actions), gap)
      {
        ReachableInv(clock, last, actions);
        if DelaysAtMost(Final(Init(clock, last), actions), delay) {
          DelayBoundsSpacing(Final(Init(clock, last), actions), delay);
        }
      }
    } else {
      var actions := DelayedRun(if delay < INTERVAL then delay else INTERVAL);
      var s := Final(Init(INTERVAL, 0), actions);
      assert s.sends[1].at - s.sends[0].at < gap;
    }
  }

  /** One request per interval is what every run keeps iff no request is
      delayed at all after its stamp. */
  lemma FullIntervalIffNoDelay(delay: nat)
    ensures AlwaysApart(delay, INTERVAL) <==> delay == 0
  {
    RequestSpacingExactly(delay, INTERVAL);
  }

  // ----- a run with a delayed request -----

  lemma {:induction false} RunsConcat(s: State, a: seq<Action>, b: seq<Action>)
    requires Runs(s, a) && Runs(Final(s, a), b)
    ensures Runs(s, a + b) && Final(s, a + b) == Final(Final(s, a), b)
    decreases |a|
  {
    if a == [] {
      assert a + b == b;
    } else {
      assert (a + b)[1..] == a[1..] + b;
      RunsConcat(Step(s, a[0]), a[1..], b);
    }
  }

  lemma StepThen(s: State, a: Action, rest: seq<Action>)
    requires Enabled(s, a) && Runs(Step(s, a), rest)
    ensures Runs(s, [a] + rest) && Final(s, [a] + rest) == Final(Step(s, a), rest)
  {
    assert ([a] + rest)[1..] == rest;
  }

  lemma OneStep(s: State, a: Action)
    requires Enabled(s, a)
    ensures Runs(s, [a]) && Final(s, [a]) == Step(s, a)
  {
  }

  /** One fetch from the start of the mutex section to its end. */
  function Admission(t: nat): seq<Action> {
    [Begin(t), Lock(t), Check(t), Stamp(t), Unlock(t)]
  }

  lemma AdmissionRuns(s: State, t: nat)
    requires t !in s.phases && s.holder == None && s.clock - s.last >= INTERVAL
    ensures Runs(s, Admission(t))
    ensures Final(s, Admission(t)) ==
            State(s.clock, s.clock, None, s.phases[t := Sending], s.stamps + [s.clock], s.slots[t := |s.stamps|],
                  s.sends)
  {
    ThrottledExactly(s.clock, s.last);
    var s1 := Step(s, Begin(t));
    var s2 := Step(s1, Lock(t));
    var s3 := Step(s2, Check(t));
    var s4 := Step(s3, Stamp(t));
    OneStep(s4, Unlock(t));
    StepThen(s3, Stamp(t), [Unlock(t)]);
    StepThen(s2, Check(t), [Stamp(t)] + [Unlock(t)]);
    StepThen(s1, Lock(t), [Check(t)] + ([Stamp(t)] + [Unlock(t)]));
    StepThen(s, Begin(t), [Lock(t)] + ([Check(t)] + ([Stamp(t)] + [Unlock(t)])));
    assert Admission(t) == [Begin(t)] + ([Lock(t)] + ([Check(t)] + ([Stamp(t)] + [Unlock(t)])));
    assert Step(s4, Unlock(t)).phases == s.phases[t := Sending];
  }

  /** A fetch admitted at time `s.clock` and sent `delay` later. */
  lemma DelayedFetch(s: State, t: nat, delay: nat) returns (actions: seq<Action>)
    requires t !in s.phases && s.holder == None && s.clock - s.last >= INTERVAL && s.slots == map[]
    ensures Runs(s, actions)
    ensures Final(s, actions) ==
            State(s.clock + delay, s.clock, None, s.phases[t := Finished], s.stamps + [s.clock], map[],
                  s.sends + [Sent(s.clock + delay, |s.stamps|)])
  {
    AdmissionRuns(s, t);
    var s1 := Final(s, Admission(t));
    var s2 := Step(s1, Tick(delay));
    OneStep(s2, Send(t));
    StepThen(s1, Tick(delay), [Send(t)]);
    RunsConcat(s, Admission(t), [Tick(delay)] + [Send(t)]);
    actions := Admission(t) + ([Tick(delay)] + [Send(t)]);
    assert Step(s2, Send(t)).phases == s.phases[t := Finished];
    assert Step(s2, Send(t)).slots == map[];
  }

  /** The first request leaves `delay` after its stamp, and the next is admitted
      as soon as the interval has passed and leaves at once. */
  lemma DelayedRun(delay: nat) returns (actions: seq<Action>)
    requires delay <= INTERVAL
    ensures Runs(Init(INTERVAL, 0), actions)
    ensures var s := Final(Init(INTERVAL, 0), actions);
            DelaysAtMost(s, delay) && |s.sends| == 2 && s.sends[1].at - s.sends[0].at == INTERVAL - delay
  {
    var s0 := Init(INTERVAL, 0);
    var first := DelayedFetch(s0, 0, delay);
    var s1 := Final(s0, first);
    var wait := [Tick(INTERVAL - delay)];
    OneStep(s1, Tick(INTERVAL - delay));
    RunsConcat(s0, first, wait);
    var s2 := Final(s0, first + wait);
    var second := DelayedFetch(s2, 1, 0);
    RunsConcat(s0, first + wait, second);
    actions := first + wait + second;
  }
}

/** The token bucket throttle: a queue of requests, and an asynchronous loop that releases them one by one. */
module Throttling {
  import opened Basics

  /** delay is in seconds; clock readings are in milliseconds, and refillRate is in tokens per millisecond. */
  datatype Config = Config(refillRate: real, delay: real, capacity: real, maxCapacity: nat, cost: real)

  /** id numbers the accepted requests in the order of their calls. */
  datatype Request = Request(id: nat, cost: real)

  /** Where the loop is: not running, in the context switch behind a release, or asleep. */
  datatype Phase = Idle | Yielded | Sleeping

  datatype State = State(tokens: real, queue: seq<Request>, running: bool, lastTimestamp: real, phase: Phase,
                         released: seq<Request>, accepted: nat)

  datatype Event = Call(cost: Option<real>, now: real) | Resume(now: real)

  // ----- the steps between two awaits --------------------------------------

  /** One turn of the loop, up to its await. */
  function Turn(s: State): State
    requires s.queue != []
  {
    if s.tokens >= 0.0 then
      s.(tokens := s.tokens - s.queue[0].cost, released := s.released + [s.queue[0]], queue := s.queue[1..],
         phase := Yielded)
    else s.(phase := Sleeping)
  }

  /** A call of the throttle: refused when the queue is over its capacity. */
  function Called(c: Config, s: State, cost: Option<real>, now: real): State {
    if |s.queue| > c.maxCapacity then s
    else
      var request := Request(s.accepted, if cost.None? then c.cost else cost.value);
      var s1 := s.(queue := s.queue + [request], accepted := s.accepted + 1);
      if s1.running then s1 else Turn(s1.(running := true, lastTimestamp := now))
  }

  function AfterYield(s: State): State {
    if s.queue == [] then s.(running := false, phase := Idle) else Turn(s)
  }

  /** The tokens that come in over a time. */
  function Earned(c: Config, elapsed: real): real {
    c.refillRate * elapsed
  }

  function AfterSleep(c: Config, s: State, now: real): State
    requires s.queue != []
  {
    var elapsed := now - s.lastTimestamp;
    var tokens := s.tokens + Earned(c, elapsed);
    Turn(s.(lastTimestamp := now, tokens := RealMin(tokens, c.capacity)))
  }

  /** The state behind an event; an idle loop has nothing to resume. */
  function After(c: Config, s: State, e: Event): State
    requires Inv(c, s)
  {
    match e
    case Call(cost, now) => Called(c, s, cost, now)
    case Resume(now) =>
      match s.phase
      case Idle => s
      case Yielded => AfterYield(s)
      case Sleeping => AfterSleep(c, s, now)
  }

  class Throttle {
    const config: Config
    var tokens: real
    var queue: seq<Request>
    var running: bool
    var lastTimestamp: real
    var phase: Phase
    var released: seq<Request>
    var accepted: nat

    ghost function View(): State
      reads this
    {
      State(tokens, queue, running, lastTimestamp, phase, released, accepted)
    }

    constructor (config: Config, tokens: real)
      ensures this.config == config && View() == Initial(tokens) && Inv(config, View())
    {
      this.config, this.tokens := config, tokens;
      queue, running, lastTimestamp, phase := [], false, 0.0, Idle;
      released, accepted := [], 0;
    }

    /** The loop from its head to the next await. */
    method LoopTurn()
      requires queue != []
      modifies this
      ensures View() == Turn(old(View()))
      ensures HeadIsTried(old(tokens), old(released), old(queue))
      ensures running == old(running) && lastTimestamp == old(lastTimestamp) && accepted == old(accepted)
    {
      var head := queue[0];
      if tokens >= 0.0 {
        tokens := tokens - head.cost;
        released := released + [head];
        queue := queue[1..];
        phase := Yielded;
      } else {
        phase := Sleeping;
      }
    }

    /** With some tokens, the head of a queue is released if they are not below zero, and waits otherwise. */
    ghost predicate HeadIsTried(before: real, past: seq<Request>, waiting: seq<Request>)
      requires waiting != []
      reads this
    {
      if before >= 0.0 then
        phase == Yielded && tokens == before - waiting[0].cost && released == past + [waiting[0]] && queue == waiting[1..]
      else
        phase == Sleeping && tokens == before && released == past && queue == waiting
    }

    /** False when the call throws. */
    method Inner(cost: Option<real>, now: real) returns (ok: bool)
      requires Inv(config, View())
      modifies this
      ensures View() == After(config, old(View()), Call(cost, now)) && Inv(config, View())
      ensures ok <==> |old(queue)| <= config.maxCapacity
      ensures !ok ==> View() == old(View())
      ensures ok ==>
        var request := Request(old(accepted), if cost.None? then config.cost else cost.value);
        && accepted == old(accepted) + 1 && running
        && released + queue == old(released) + old(queue) + [request]
        && (old(running) ==>
          && released == old(released) && tokens == old(tokens)
          && lastTimestamp == old(lastTimestamp) && phase == old(phase))
        && (!old(running) ==> lastTimestamp == now && HeadIsTried(old(tokens), old(released), [request]))
    {
      StepKeepsInv(config, View(), Call(cost, now));
      if |queue| > config.maxCapacity {
        return false;
      }
      var requestCost := if cost.None? then config.cost else cost.value;
      queue := queue + [Request(accepted, requestCost)];
      accepted := accepted + 1;
      if !running {
        running := true;
        lastTimestamp := now;
        LoopTurn();
      }
      ok := true;
    }

    /** The loop continues behind its await. */
    method Continue(now: real)
      requires Inv(config, View()) && phase != Idle
      modifies this
      ensures View() == After(config, old(View()), Resume(now)) && Inv(config, View())
      ensures accepted == old(accepted)
      ensures old(phase) == Yielded ==> lastTimestamp == old(lastTimestamp)
      ensures old(phase) == Yielded && old(queue) == [] ==>
        !running && phase == Idle && tokens == old(tokens) && released == old(released) && queue == []
      ensures old(phase) == Yielded && old(queue) != [] ==>
        running && HeadIsTried(old(tokens), old(released), old(queue))
      ensures old(phase) == Sleeping ==>
        var sum := old(tokens) + config.refillRate * (now - old(lastTimestamp));
        && old(queue) != [] && running && lastTimestamp == now
        && HeadIsTried(if sum <= config.capacity then sum else config.capacity, old(released), old(queue))
    {
      hide Turn, Inv;
      StepKeepsInv(config, View(), Resume(now));
      PhaseOf(config, View());
      if phase == Yielded {
        if |queue| == 0 {
          running := false;
          phase := Idle;
        } else {
          LoopTurn();
        }
      } else {
        var elapsed := now - lastTimestamp;
        lastTimestamp := now;
        var sum := tokens + Earned(config, elapsed);
        tokens := RealMin(sum, config.capacity);
        assert tokens == if sum <= config.capacity then sum else config.capacity;
        LoopTurn();
      }
    }
  }

  // ----- the queue protocol ------------------------------------------------

  function Initial(tokens: real): State {
    State(tokens, [], false, 0.0, Idle, [], 0)
  }

  /** A waiting request means a running loop; requests are released in order, each once. */
  ghost predicate Inv(c: Config, s: State) {
    && (s.running <==> s.phase != Idle)
    && (s.phase == Idle ==> s.queue == [])
    && (s.phase == Sleeping ==> s.queue != [] && s.tokens < 0.0)
    && |s.queue| <= c.maxCapacity + 1
    && |s.released| + |s.queue| == s.accepted
    && (forall i :: 0 <= i < |s.released| ==> s.released[i].id == i)
    && (forall i :: 0 <= i < |s.queue| ==> s.queue[i].id == |s.released| + i)
  }

  lemma PhaseOf(c: Config, s: State)
    requires Inv(c, s)
    ensures s.phase == Sleeping ==> s.queue != []
    ensures s.running <==> s.phase != Idle
  {
  }

  lemma TurnKeepsInv(c: Config, s: State)
    requires s.queue != [] && s.running && |s.queue| <= c.maxCapacity + 1
    requires |s.released| + |s.queue| == s.accepted
    requires forall i :: 0 <= i < |s.released| ==> s.released[i].id == i
    requires forall i :: 0 <= i < |s.queue| ==> s.queue[i].id == |s.released| + i
    ensures Inv(c, Turn(s))
  {
  }

  lemma StepKeepsInv(c: Config, s: State, e: Event)
    requires Inv(c, s)
    ensures Inv(c, After(c, s, e))
  {
    match e
    case Call(cost, now) =>
      if |s.queue| <= c.maxCapacity && !s.running {
        var request := Request(s.accepted, if cost.None? then c.cost else cost.value);
        TurnKeepsInv(c, s.(queue := s.queue + [request], accepted := s.accepted + 1, running := true, lastTimestamp := now));
      }
    case Resume(now) =>
      if s.phase == Yielded && s.queue != [] {
        TurnKeepsInv(c, s);
      } else if s.phase == Sleeping {
        var tokens := s.tokens + Earned(c, now - s.lastTimestamp);
        TurnKeepsInv(c, s.(lastTimestamp := now, tokens := RealMin(tokens, c.capacity)));
      }
  }

  /** The state behind a whole run of interleaved calls and resumptions. */
  function Run(c: Config, s: State, events: seq<Event>): (r: State)
    requires Inv(c, s)
    ensures Inv(c, r)
  {
    if events == [] then s
    else
      var before := Run(c, s, events[..|events| - 1]);
      StepKeepsInv(c, before, events[|events| - 1]);
      After(c, before, events[|events| - 1])
  }

  /** Nothing is lost, duplicated or reordered: released and waiting requests only grow, by the accepted call. */
  lemma StepConserves(c: Config, s: State, e: Event)
    requires Inv(c, s)
    ensures var s' := After(c, s, e);
      s'.released + s'.queue == s.released + s.queue +
        if e.Call? && |s.queue| <= c.maxCapacity
        then [Request(s.accepted, if e.cost.None? then c.cost else e.cost.value)] else []
    ensures s.released <= After(c, s, e).released
    ensures |After(c, s, e).released| <= |s.released| + 1
  {
  }

  // ----- the rate bound ----------------------------------------------------

  function Total(requests: seq<Request>): real {
    if requests == [] then 0.0 else Total(requests[..|requests| - 1]) + requests[|requests| - 1].cost
  }

  function CostOf(c: Config, cost: Option<real>): real {
    if cost.None? then c.cost else cost.value
  }

  /** Costs are not negative and none exceeds the largest. */
  ghost predicate CostsUpTo(c: Config, events: seq<Event>, largest: real) {
    forall i :: 0 <= i < |events| && events[i].Call? ==> 0.0 <= CostOf(c, events[i].cost) <= largest
  }

  ghost predicate QueueUpTo(s: State, largest: real) {
    forall i :: 0 <= i < |s.queue| ==> 0.0 <= s.queue[i].cost <= largest
  }

  /** The clock does not run backwards. */
  ghost predicate Monotone(from: real, events: seq<Event>)
    decreases events
  {
    events == [] || (from <= events[0].now && Monotone(events[0].now, events[1..]))
  }

  function Clock(from: real, events: seq<Event>): real {
    if events == [] then from else events[|events| - 1].now
  }

  lemma {:induction false} MonotonePrefix(from: real, events: seq<Event>)
    requires Monotone(from, events) && events != []
    ensures Monotone(from, events[..|events| - 1])
    ensures Clock(from, events[..|events| - 1]) <= events[|events| - 1].now
    decreases events
  {
    if |events| > 1 {
      MonotonePrefix(events[0].now, events[1..]);
      var front := events[..|events| - 1];
      assert front[1..] == events[1..][..|events[1..]| - 1];
      assert front[0] == events[0];
      assert events[1..][|events[1..]| - 1] == events[|events| - 1];
      assert |front| > 1 ==> front[|front| - 1] == front[1..][|front[1..]| - 1];
    }
  }

  /** What a run needs and keeps: costs and tokens in their ranges, and the loop's clock not ahead of the real one. */
  ghost predicate InRange(c: Config, s: State, largest: real, top: real, now: real) {
    QueueUpTo(s, largest) && -largest <= s.tokens <= top && s.lastTimestamp <= now
  }

  /** Tokens plus released cost minus everything refilled: no step increases it. */
  function Balance(c: Config, s: State): real {
    s.tokens + Total(s.released) - Earned(c, s.lastTimestamp)
  }

  ghost predicate IsRate(c: Config, largest: real, top: real) {
    c.refillRate >= 0.0 && 0.0 <= c.capacity <= top && largest >= 0.0
  }

  // ----- every token is accounted for --------------------------------------

  /** What a wake-up of the loop brings in; nothing else does. */
  ghost function Income(c: Config, s: State, e: Event): real {
    if e.Resume? && s.phase == Sleeping then c.refillRate * (e.now - s.lastTimestamp) else 0.0
  }

  /** What the wake-ups of a run bring in. */
  ghost function Refill(c: Config, s: State, events: seq<Event>): real
    requires Inv(c, s)
  {
    if events == [] then 0.0
    else
      var before := events[..|events| - 1];
      Refill(c, s, before) + Income(c, Run(c, s, before), events[|events| - 1])
  }

  ghost predicate Overflows(c: Config, s: State, e: Event) {
    e.Resume? && s.phase == Sleeping && s.tokens + Income(c, s, e) > c.capacity
  }

  ghost predicate EverOverflows(c: Config, s: State, events: seq<Event>)
    requires Inv(c, s)
  {
    events != [] &&
      var before := events[..|events| - 1];
      EverOverflows(c, s, before) || Overflows(c, Run(c, s, before), events[|events| - 1])
  }

  lemma StepAccounts(c: Config, s: State, e: Event)
    requires Inv(c, s)
    ensures var r := After(c, s, e);
      && r.tokens + Total(r.released) <= s.tokens + Total(s.released) + Income(c, s, e)
      && (r.tokens + Total(r.released) == s.tokens + Total(s.released) + Income(c, s, e) <==> !Overflows(c, s, e))
  {
    hide Total;
    var r := After(c, s, e);
    if s.queue != [] {
      TotalPush(s.released, s.queue[0]);
    }
    if e.Call? {
      TotalPush(s.released, Request(s.accepted, CostOf(c, e.cost)));
    }
  }

  /** Over every run, the tokens left and the cost released never exceed the initial tokens and the refill, and they are
      exactly these if, and only if, no wake-up ever brought in more than the capacity allows. */
  lemma {:induction false} RunAccounts(c: Config, s: State, events: seq<Event>)
    requires Inv(c, s)
    ensures var r := Run(c, s, events);
      && r.tokens + Total(r.released) <= s.tokens + Total(s.released) + Refill(c, s, events)
      && (r.tokens + Total(r.released) == s.tokens + Total(s.released) + Refill(c, s, events) <==>
        !EverOverflows(c, s, events))
  {
    if events != [] {
      var before, e := events[..|events| - 1], events[|events| - 1];
      RunAccounts(c, s, before);
      UnrollRun(c, s, events);
      hide Inv, After, Run, Overflows, Income, Total;
      StepAccounts(c, Run(c, s, before), e);
    }
  }

  lemma TotalPush(requests: seq<Request>, r: Request)
    ensures Total(requests + [r]) == Total(requests) + r.cost && Total([]) == 0.0
  {
    assert (requests + [r])[..|requests|] == requests;
  }

  lemma TurnInRange(c: Config, s: State, largest: real, top: real, now: real)
    requires IsRate(c, largest, top) && InRange(c, s, largest, top, now) && s.queue != []
    ensures InRange(c, Turn(s), largest, top, now) && Balance(c, Turn(s)) == Balance(c, s)
  {
    hide Total, Earned;
    if s.tokens >= 0.0 {
      TotalPush(s.released, s.queue[0]);
    }
  }

  lemma EarnedBetween(c: Config, from: real, to: real)
    requires c.refillRate >= 0.0 && from <= to
    ensures Earned(c, to - from) >= 0.0
    ensures Earned(c, to - from) == Earned(c, to) - Earned(c, from)
  {
    Distribute(c.refillRate, to, from);
  }

  lemma StepInRange(c: Config, s: State, e: Event, largest: real, top: real, now: real)
    requires IsRate(c, largest, top) && Inv(c, s) && InRange(c, s, largest, top, now) && now <= e.now
    requires e.Call? ==> 0.0 <= CostOf(c, e.cost) <= largest
    ensures InRange(c, After(c, s, e), largest, top, e.now) && Balance(c, After(c, s, e)) <= Balance(c, s)
  {
    hide Total, Earned, Turn;
    match e
    case Call(cost, t) =>
      if |s.queue| <= c.maxCapacity {
        var s1 := s.(queue := s.queue + [Request(s.accepted, CostOf(c, cost))], accepted := s.accepted + 1);
        if !s.running {
          EarnedBetween(c, s.lastTimestamp, t);
          TurnInRange(c, s1.(running := true, lastTimestamp := t), largest, top, t);
        }
      }
    case Resume(t) =>
      if s.phase == Yielded && s.queue != [] {
        TurnInRange(c, s, largest, top, t);
      } else if s.phase == Sleeping {
        EarnedBetween(c, s.lastTimestamp, t);
        var tokens := s.tokens + Earned(c, t - s.lastTimestamp);
        TurnInRange(c, s.(lastTimestamp := t, tokens := RealMin(tokens, c.capacity)), largest, top, t);
      }
  }

  lemma {:induction false} RunInRange(c: Config, s: State, events: seq<Event>, largest: real, top: real, now: real)
    requires IsRate(c, largest, top) && Inv(c, s) && InRange(c, s, largest, top, now)
    requires CostsUpTo(c, events, largest) && Monotone(now, events)
    ensures InRange(c, Run(c, s, events), largest, top, Clock(now, events))
    ensures Balance(c, Run(c, s, events)) <= Balance(c, s)
  {
    if events != [] {
      var before := events[..|events| - 1];
      MonotonePrefix(now, events);
      RunInRange(c, s, before, largest, top, now);
      hide Balance, InRange, After, Inv, Monotone, IsRate;
      StepInRange(c, Run(c, s, before), events[|events| - 1], largest, top, Clock(now, before));
    }
  }

  /** From any state of a run, the cost released later is at most the tokens held, what is refilled between the loop's
      timestamps, and one largest cost; and the tokens stay between minus the largest cost and the top. */
  lemma RateBound(c: Config, s: State, events: seq<Event>, largest: real, top: real, now: real)
    requires IsRate(c, largest, top) && Inv(c, s) && InRange(c, s, largest, top, now)
    requires CostsUpTo(c, events, largest) && Monotone(now, events)
    ensures var r := Run(c, s, events);
      && Total(r.released) - Total(s.released) <= s.tokens + Earned(c, r.lastTimestamp - s.lastTimestamp) + largest
      && r.lastTimestamp <= Clock(now, events)
      && -largest <= r.tokens <= top
  {
    hide Run, Inv, Total, Monotone, CostsUpTo, IsRate, QueueUpTo, Clock;
    RunInRange(c, s, events, largest, top, now);
    var r := Run(c, s, events);
    Distribute(c.refillRate, r.lastTimestamp, s.lastTimestamp);
  }

  lemma Distribute(rate: real, a: real, b: real)
    ensures rate * (a - b) == rate * a - rate * b
  {
  }

  // ----- the wait of the head request --------------------------------------

  /** Every wake-up comes at least the delay after the loop's timestamp. */
  ghost predicate SleepsLongEnough(c: Config, s: State, events: seq<Event>)
    requires Inv(c, s)
  {
    forall i :: 0 <= i < |events| && events[i].Resume? ==>
      events[i].now >= Run(c, s, events[..i]).lastTimestamp + c.delay * 1000.0
  }

  function Wakes(events: seq<Event>): nat {
    if events == [] then 0 else Wakes(events[..|events| - 1]) + if events[|events| - 1].Resume? then 1 else 0
  }

  /** The tokens a sleep of one delay brings in. */
  function Gain(c: Config): real {
    Earned(c, c.delay * 1000.0)
  }

  function MadeUp(c: Config, wakes: nat): real {
    wakes as real * Gain(c)
  }

  /** While the head waits, every wake-up makes up at least refillRate * delay of the deficit. */
  lemma {:induction false} WaitIsBounded(c: Config, s: State, events: seq<Event>)
    requires Inv(c, s) && s.phase == Sleeping && c.refillRate > 0.0 && c.delay > 0.0 && c.capacity >= 0.0
    requires SleepsLongEnough(c, s, events) && Run(c, s, events).released == s.released
    ensures var r := Run(c, s, events);
      r.phase == Sleeping && r.tokens < 0.0 && r.tokens >= s.tokens + MadeUp(c, Wakes(events))
    ensures MadeUp(c, Wakes(events)) < -s.tokens
  {
    hide MadeUp;
    MadeUpMore(c, 0);
    if events != [] {
      hide Inv, SleepsLongEnough, After, Run, MadeUp, Gain;
      var before, e := events[..|events| - 1], events[|events| - 1];
      var r := Run(c, s, before);
      UnrollRun(c, s, events);
      ReleasedGrows(c, s, before);
      StepConserves(c, r, e);
      SleepsPrefix(c, s, events);
      WaitIsBounded(c, s, before);
      WaitStep(c, r, e);
      MadeUpMore(c, Wakes(before));
    }
  }

  lemma UnrollRun(c: Config, s: State, events: seq<Event>)
    requires Inv(c, s) && events != []
    ensures Run(c, s, events) == After(c, Run(c, s, events[..|events| - 1]), events[|events| - 1])
  {
    hide After, Inv;
  }

  lemma WaitStep(c: Config, s: State, e: Event)
    requires Inv(c, s) && s.phase == Sleeping && c.refillRate > 0.0 && c.capacity >= 0.0
    requires e.Resume? ==> e.now >= s.lastTimestamp + c.delay * 1000.0
    requires After(c, s, e).released == s.released
    ensures var r := After(c, s, e);
      && r.phase == Sleeping && r.tokens < 0.0
      && r.tokens >= s.tokens + if e.Resume? then Gain(c) else 0.0
  {
    if e.Resume? {
      WakeMakesUp(c, s, e.now);
      StepKeepsInv(c, s, e);
    }
  }

  lemma SleepsPrefix(c: Config, s: State, events: seq<Event>)
    requires Inv(c, s) && SleepsLongEnough(c, s, events) && events != []
    ensures SleepsLongEnough(c, s, events[..|events| - 1])
    ensures var e := events[|events| - 1];
      e.Resume? ==> e.now >= Run(c, s, events[..|events| - 1]).lastTimestamp + c.delay * 1000.0
  {
    var before := events[..|events| - 1];
    hide Inv, Run;
    forall i | 0 <= i < |before| && before[i].Resume?
      ensures before[i].now >= Run(c, s, before[..i]).lastTimestamp + c.delay * 1000.0
    {
      assert before[..i] == events[..i] && before[i] == events[i];
    }
  }

  lemma MadeUpMore(c: Config, wakes: nat)
    ensures MadeUp(c, 0) == 0.0 && MadeUp(c, wakes + 1) == MadeUp(c, wakes) + Gain(c)
  {
    hide Gain;
  }

  lemma {:induction false} ReleasedGrows(c: Config, s: State, events: seq<Event>)
    requires Inv(c, s)
    ensures s.released <= Run(c, s, events).released
  {
    if events != [] {
      ReleasedGrows(c, s, events[..|events| - 1]);
      StepConserves(c, Run(c, s, events[..|events| - 1]), events[|events| - 1]);
    }
  }

  lemma WakeMakesUp(c: Config, s: State, now: real)
    requires Inv(c, s) && s.phase == Sleeping && c.refillRate > 0.0 && c.capacity >= 0.0
    requires now >= s.lastTimestamp + c.delay * 1000.0
    requires After(c, s, Resume(now)).released == s.released
    ensures After(c, s, Resume(now)).phase == Sleeping
    ensures After(c, s, Resume(now)).tokens >= s.tokens + Gain(c)
  {
    AtLeastTimes(c.refillRate, now - s.lastTimestamp, c.delay * 1000.0);
  }

  lemma AtLeastTimes(rate: real, a: real, b: real)
    requires rate > 0.0 && a >= b
    ensures rate * a >= rate * b
  {
    assert rate * a - rate * b == rate * (a - b);
  }

  /** With a capacity below zero, a head request that has to wait is never released. */
  lemma {:induction false} NegativeCapacityStarves(c: Config, s: State, events: seq<Event>)
    requires Inv(c, s) && s.phase == Sleeping && c.capacity < 0.0
    ensures var r := Run(c, s, events); r.phase == Sleeping && r.released == s.released
  {
    if events != [] {
      NegativeCapacityStarves(c, s, events[..|events| - 1]);
    }
  }

  // ----- when the head request can be released -----------------------------

  /** While the head waits without refill, the tokens do not rise. */
  lemma IdleBucketStep(c: Config, s: State, e: Event, now: real)
    requires Inv(c, s) && s.phase == Sleeping && c.refillRate <= 0.0
    requires s.lastTimestamp <= now <= e.now
    ensures var r := After(c, s, e);
      && r.phase == Sleeping && r.released == s.released && r.lastTimestamp <= e.now
  {
    hide Earned;
    NoneEarned(c, e.now - s.lastTimestamp);
  }

  lemma NoneEarned(c: Config, elapsed: real)
    requires c.refillRate <= 0.0 && elapsed >= 0.0
    ensures Earned(c, elapsed) <= 0.0
  {
  }

  lemma {:induction false} NoRefillStarves(c: Config, s: State, events: seq<Event>)
    requires Inv(c, s) && s.phase == Sleeping && c.refillRate <= 0.0 && Monotone(s.lastTimestamp, events)
    ensures var r := Run(c, s, events);
      r.phase == Sleeping && r.released == s.released && r.lastTimestamp <= Clock(s.lastTimestamp, events)
  {
    hide Inv, After, Monotone;
    if events != [] {
      var before := events[..|events| - 1];
      MonotonePrefix(s.lastTimestamp, events);
      NoRefillStarves(c, s, before);
      IdleBucketStep(c, Run(c, s, before), events[|events| - 1], Clock(s.lastTimestamp, before));
    }
  }

  /** The time at which the refill has made up the deficit. */
  function ReadyAt(c: Config, s: State): real
    requires c.refillRate > 0.0
  {
    s.lastTimestamp - s.tokens / c.refillRate
  }

  lemma DeficitMadeUp(rate: real, tokens: real)
    requires rate > 0.0 && tokens < 0.0
    ensures tokens / rate < 0.0 && rate * (0.0 - tokens / rate) == 0.0 - tokens
  {
    var q := tokens / rate;
    assert q * rate == tokens;
    assert rate * (0.0 - q) == 0.0 - q * rate;
  }

  /** One wake-up late enough releases the head. */
  lemma LateWakeReleases(c: Config, s: State)
    requires Inv(c, s) && s.phase == Sleeping && c.refillRate > 0.0 && c.capacity >= 0.0
    ensures Monotone(s.lastTimestamp, [Resume(ReadyAt(c, s))])
    ensures Run(c, s, [Resume(ReadyAt(c, s))]).released == s.released + [s.queue[0]]
  {
    var e := Resume(ReadyAt(c, s));
    DeficitMadeUp(c.refillRate, s.tokens);
    assert [e][1..] == [] && [e][..0] == [];
    var elapsed := ReadyAt(c, s) - s.lastTimestamp;
    assert elapsed == 0.0 - s.tokens / c.refillRate;
    assert Earned(c, elapsed) == 0.0 - s.tokens;
  }

  /** A waiting head request can still be released, by some calls and wake-ups on a clock that does not run backwards,
      if and only if tokens come in and the capacity is not below zero. */
  lemma ReleasedWhen(c: Config, s: State)
    requires Inv(c, s) && s.phase == Sleeping
    ensures (exists events :: Monotone(s.lastTimestamp, events) && Run(c, s, events).released != s.released)
      <==> c.refillRate > 0.0 && c.capacity >= 0.0
  {
    hide Inv, Run, Monotone, ReadyAt;
    if c.refillRate > 0.0 && c.capacity >= 0.0 {
      LateWakeReleases(c, s);
      var events := [Resume(ReadyAt(c, s))];
      assert Monotone(s.lastTimestamp, events) && Run(c, s, events).released != s.released;
    } else {
      forall events | Monotone(s.lastTimestamp, events) ensures Run(c, s, events).released == s.released {
        if c.capacity < 0.0 {
          NegativeCapacityStarves(c, s, events);
        } else {
          NoRefillStarves(c, s, events);
        }
      }
    }
  }

  lemma RunStep(c: Config, s: State, events: seq<Event>, e: Event)
    requires Inv(c, s)
    ensures Run(c, s, events + [e]) == After(c, Run(c, s, events), e)
  {
    assert (events + [e])[..|events|] == events;
  }

  const ONE := Some(1.0)

  /** Two calls of cost one on an empty bucket, and the loop's next turn: the second request waits. */
  lemma SecondCallWaits(c: Config, now: real)
    ensures Inv(c, Initial(0.0))
    ensures Run(c, Initial(0.0), [Call(ONE, now), Call(ONE, now), Resume(now)])
         == State(-1.0, [Request(1, 1.0)], true, now, Sleeping, [Request(0, 1.0)], 2)
  {
    var a, b := Call(ONE, now), Resume(now);
    var s := Initial(0.0);
    assert Run(c, s, []) == s;
    RunStep(c, s, [], a);
    RunStep(c, s, [a], a);
    RunStep(c, s, [a, a], b);
    assert [] + [a] == [a] && [a] + [a] == [a, a] && [a, a] + [b] == [a, a, b];
  }

  /** With a capacity below zero, or with no refill, the waiting request of that run is never released, whatever comes
      after it. */
  lemma StarvationIsReached(c: Config, now: real, events: seq<Event>)
    requires c.capacity < 0.0 || c.refillRate <= 0.0
    requires Monotone(now, events)
    ensures Inv(c, Initial(0.0))
    ensures var waiting := Run(c, Initial(0.0), [Call(ONE, now), Call(ONE, now), Resume(now)]);
      Run(c, waiting, events).released == [Request(0, 1.0)]
  {
    SecondCallWaits(c, now);
    hide Inv, Run, Monotone;
    var waiting := Run(c, Initial(0.0), [Call(ONE, now), Call(ONE, now), Resume(now)]);
    ReleasedWhen(c, waiting);
  }
}

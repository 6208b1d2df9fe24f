/** Progress of ghost mode on the machine of micro-steps: while no sender takes a step, the
    receiving side is never stuck, every poll ends, and the polls empty the ring in time. */
module GhostDrain {
  import opened RingIndex
  import opened GhostRing
  import opened GhostRingInvariant
  import opened GhostRingTheorems
  import GhostDriver

  // ---- never stuck

  /** In every reachable state the timer, the callback or the poll has a step to take. */
  lemma NeverStuck(s: State, steps: seq<Step>, budget: nat, allocOk: bool)
    requires Init(s) && CanRun(s, steps) && budget > 0
    ensures var s' := Run(s, steps);
      || Enabled(s', TimerFires) || Enabled(s', CallbackStep)
      || Enabled(s', PollStarts(budget)) || Enabled(s', PollStep(allocOk))
  {
    InitInv(s);
    RunInv(s, steps);
    hide RingOk, TxOk, RxOk, Run, CanRun;
  }

  // ---- one step of the poll

  /** What the invariant says about the poll's next step: the flag it looks at tells whether a packet
      is queued, one is queued while it is at work on one, and that one fits its buffer. */
  ghost predicate Sound(r: Ring, idx: nat, p: Poll)
    requires RingShape(r) && idx < r.n
  {
    && (!p.PAdvance? ==> (r.mem.flags[idx] == 1 <==> Used(r) > 0) && (r.mem.flags[idx] == 0 <==> Used(r) == 0))
    && (Reading(p) ==> Used(r) >= 1) && Used(r) >= 0
    && (p.PRead? ==> r.mem.lens[idx] <= BUF_SIZE) && (p.PCopy? ==> |p.skb| <= p.len <= BUF_SIZE)
  }

  lemma {:induction false} PollIsSound(s: State)
    requires Inv(s)
    ensures Sound(s.ring, s.rx.idx, s.rx.poll)
  {
    hide TxOk, TokenOk, ReceivedOk, IfaceOk, Idx;
    FlagsTell(s.ring);
    var c := |s.ring.outcomes|;
    if s.rx.poll.PRead? || s.rx.poll.PCopy? {
      assert SlotHolds(s.ring.mem, Idx(c, s.ring.n), s.ring.accepted[c]);
    }
  }

  /** The effect of a step of the poll on what is counted here. */
  lemma {:induction false} PollEffect(s: State, allocOk: bool)
    requires Shape(s) && Enabled(s, PollStep(allocOk))
    ensures var s', p := Apply(s, PollStep(allocOk)), s.rx.poll;
      && s'.rx.poll == PollNext(s.ring, s.rx.idx, p, allocOk) && s'.ring.accepted == s.ring.accepted
      && |s'.ring.outcomes| == |s.ring.outcomes| + (if p.PClear? then 1 else 0)
      && |s'.rx.received| == |s.rx.received| + (if p.PPass? then 1 else 0)
  {
    hide PollNext, MemOk;
  }

  // ---- every poll ends

  const LAP := BUF_SIZE + 12

  /** A bound on the steps a poll has left, with `q` packets queued: what the packet at hand still
      needs, and a lap of the loop for each of the others. */
  ghost function Left(p: Poll, q: int): int {
    match p
    case PIdle => 0
    case PTest(_, _) => q * LAP + 4
    case PRead(_, _) => q * LAP + 3
    case PCopy(_, _, _, len, skb) => (q - 1) * LAP + 10 + len - |skb|
    case PPass(_, _, _, _) => (q - 1) * LAP + 9
    case PCount(_, _, _) => (q - 1) * LAP + 8
    case PClear(_, _, _, _) => (q - 1) * LAP + 7
    case PAdvance(_, _, _, _) => q * LAP + 6
    case PCountDrop(_, _, _) => q * LAP + 5
    case PCheck(_) => q * LAP + 3
    case PComplete => q * LAP + 2
    case PRearm => q * LAP + 1
  }

  /** Each step of a poll, whatever the outcome of allocations, brings its end nearer. */
  lemma {:induction false} EachPollEnds(s: State, allocOk: bool)
    requires Inv(s) && Enabled(s, PollStep(allocOk))
    ensures var s' := Apply(s, PollStep(allocOk));
      0 <= Left(s'.rx.poll, Used(s'.ring)) < Left(s.rx.poll, Used(s.ring))
  {
    assert Shape(s);
    hide Inv, Shape, PollNext, Apply;
    PollIsSound(s);
    PollEffect(s, allocOk);
    LeftShrinks(s.ring, s.rx.idx, s.rx.poll, allocOk);
  }

  lemma {:induction false} LeftShrinks(r: Ring, idx: nat, p: Poll, allocOk: bool)
    requires RingShape(r) && idx < r.n && Sound(r, idx, p) && !p.PIdle?
    ensures 0 <= Left(PollNext(r, idx, p, allocOk), Used(r) - if p.PClear? then 1 else 0) < Left(p, Used(r))
  {
    hide MemOk;
  }

  // ---- how much each poll takes

  /** The receiving side's steps, all polls having budget `b`. */
  predicate Receiving(step: Step, b: nat) {
    match step
    case Begin(_, _) => false
    case XmitStep(_) => false
    case PollStarts(budget) => budget == b
    case _ => true
  }

  ghost predicate AllReceiving(steps: seq<Step>, b: nat) {
    forall i :: 0 <= i < |steps| ==> Receiving(steps[i], b)
  }

  /** Whether a step ends a poll. */
  ghost predicate Ends(s: State, step: Step)
    requires Shape(s) && Enabled(s, step)
  {
    step.PollStep? && Apply(s, step).rx.poll.PIdle?
  }

  /** The polls that end in the course of a run. */
  ghost function Ended(s: State, steps: seq<Step>): nat
    requires Shape(s) && CanRun(s, steps)
    decreases |steps|
  {
    if steps == [] then 0
    else (if Ends(s, steps[0]) then 1 else 0) + Ended(Apply(s, steps[0]), steps[1..])
  }

  /** What the poll in progress has delivered and counted (a full budget if that is no longer
      known). */
  ghost function Done(p: Poll, b: nat): nat {
    match p
    case PIdle => 0
    case PComplete => b
    case PRearm => b
    case _ => p.done
  }

  /** What it has at least taken off the ring: one more while the count lags behind. */
  ghost function Took(p: Poll, b: nat): nat {
    Done(p, b) + if p.PAdvance? && p.outcome.Delivered? then 1 else 0
  }

  /** What it has handed up: one more while a packet is between the stack and the count. */
  ghost function Handed(p: Poll, b: nat): nat {
    var current :=
      p.PCount? || (p.PClear? && p.outcome.Delivered?) || (p.PAdvance? && p.outcome.Delivered?);
    Done(p, b) + if current then 1 else 0
  }

  /** The poll in progress keeps to its budget, and gives up early only on an empty ring. */
  ghost predicate InBudget(p: Poll, b: nat, empty: bool) {
    && (p.PTest? || Reading(p) || p.PAdvance? || p.PCountDrop? ==> p.budget == b)
    && (Reading(p) || p.PAdvance? || p.PCountDrop? ==> p.done < b)
    && Done(p, b) <= b
    && (p.PCheck? ==> empty || p.done >= b)
    && (p.PComplete? || p.PRearm? ==> empty)
  }

  /** `x` packets are to have been taken, and at most as many handed up, by the polls that have
      ended since there were `out` outcomes and `got` frames. */
  ghost predicate OnPace(s: State, b: nat, x: nat, out: nat, got: nat) {
    && Inv(s) && InBudget(s.rx.poll, b, Used(s.ring) == 0)
    && (Used(s.ring) == 0 || |s.ring.outcomes| >= out + x + Took(s.rx.poll, b))
    && |s.rx.received| <= got + x + Handed(s.rx.poll, b)
  }

  lemma {:induction false} PollOnPace(s: State, allocOk: bool, b: nat, x: nat, out: nat, got: nat)
    requires OnPace(s, b, x, out, got) && Enabled(s, PollStep(allocOk))
    ensures var s' := Apply(s, PollStep(allocOk));
      OnPace(s', b, if s'.rx.poll.PIdle? then x + b else x, out, got) && s'.ring.accepted == s.ring.accepted
  {
    StepInv(s, PollStep(allocOk));
    assert Shape(s);
    hide Inv, Shape, PollNext, Apply, InBudget, Took, Handed;
    PollIsSound(s);
    PollEffect(s, allocOk);
    KeepsPace(s.ring, s.rx.idx, s.rx.poll, allocOk, b);
  }

  /** A step of the poll keeps to the budget, and what it has taken and handed up moves with the
      counts; a poll that ends has a full budget to show, or an empty ring. */
  lemma {:induction false} KeepsPace(r: Ring, idx: nat, p: Poll, allocOk: bool, b: nat)
    requires RingShape(r) && idx < r.n && Sound(r, idx, p) && !p.PIdle? && InBudget(p, b, Used(r) == 0)
    ensures var p', clear, full := PollNext(r, idx, p, allocOk), if p.PClear? then 1 else 0,
        if PollNext(r, idx, p, allocOk).PIdle? then b else 0;
      && InBudget(p', b, Used(r) - clear == 0)
      && (Used(r) - clear == 0 || full + Took(p', b) <= Took(p, b) + clear)
      && Handed(p, b) + (if p.PPass? then 1 else 0) <= full + Handed(p', b)
  {
    hide MemOk;
  }

  lemma {:induction false} StepOnPace(s: State, step: Step, b: nat, x: nat, out: nat, got: nat)
    requires OnPace(s, b, x, out, got) && Enabled(s, step) && Receiving(step, b) && b > 0
    ensures var s' := Apply(s, step);
      OnPace(s', b, if Ends(s, step) then x + b else x, out, got) && s'.ring.accepted == s.ring.accepted
  {
    if step.PollStep? {
      PollOnPace(s, step.allocOk, b, x, out, got);
    } else {
      StepInv(s, step);
      hide RingOk, TxOk, RxOk, TokenOk, CallbackToken;
    }
  }

  lemma {:induction false} RunOnPace(s: State, steps: seq<Step>, b: nat, x: nat, out: nat, got: nat)
    requires Shape(s) && OnPace(s, b, x, out, got) && CanRun(s, steps) && AllReceiving(steps, b) && b > 0
    ensures var s' := Run(s, steps);
      OnPace(s', b, x + Ended(s, steps) * b, out, got) && s'.ring.accepted == s.ring.accepted
    decreases |steps|
  {
    hide OnPace, Apply, Enabled, Receiving, Ends, Inv, Shape, Run, CanRun, Ended;
    RunUnfolds(s, steps);
    if steps != [] {
      StepOnPace(s, steps[0], b, x, out, got);
      var s1, e := Apply(s, steps[0]), if Ends(s, steps[0]) then 1 else 0;
      RunOnPace(s1, steps[1..], b, x + e * b, out, got);
      Distribute(e, Ended(s1, steps[1..]), b);
    } else {
      Distribute(0, 0, b);
    }
  }

  lemma {:induction false} RunUnfolds(s: State, steps: seq<Step>)
    requires Shape(s) && CanRun(s, steps)
    ensures steps == [] ==> Run(s, steps) == s && Ended(s, steps) == 0
    ensures steps != [] ==>
      && Enabled(s, steps[0]) && CanRun(Apply(s, steps[0]), steps[1..])
      && Run(s, steps) == Run(Apply(s, steps[0]), steps[1..])
      && Ended(s, steps) == (if Ends(s, steps[0]) then 1 else 0) + Ended(Apply(s, steps[0]), steps[1..])
  {
    hide Apply, Enabled, Ends, Shape;
  }

  lemma Distribute(e: nat, n: nat, b: nat)
    ensures (e + n) * b == e * b + n * b && 0 * b == 0 && 1 * b == b
  {
  }

  /** Enough polls take everything. */
  lemma {:induction false} EnoughPolls(k: nat, b: nat, n: nat)
    requires b > 0 && n >= GhostDriver.CeilDiv(k, b)
    ensures n * b >= k
    decreases k
  {
    if k > b {
      EnoughPolls(k - b, b, n - 1);
      Distribute(1, n - 1, b);
    } else if k > 0 {
      Distribute(1, n - 1, b);
    }
  }

  /** What a run of the receiving side alone makes of the queue, with `n` the polls that end. */
  ghost predicate Drained(s: State, s': State, n: nat, b: nat)
    requires b > 0
  {
    && |s.ring.outcomes| <= |s.ring.accepted| && |s'.ring.outcomes| <= |s'.ring.accepted|
    && (Queue(s') == [] || |Queue(s')| + n * b <= |Queue(s)|)
    && (n >= GhostDriver.CeilDiv(|Queue(s)|, b) ==> Queue(s') == [])
    && |s'.rx.received| <= |s.rx.received| + n * b + if s'.rx.poll.PIdle? then 0 else b
  }

  lemma {:induction false} PaceDrains(s: State, s': State, n: nat, b: nat)
    requires b > 0 && s'.ring.accepted == s.ring.accepted && 0 <= Used(s.ring)
    requires OnPace(s', b, n * b, |s.ring.outcomes|, |s.rx.received|)
    ensures Drained(s, s', n, b)
  {
    hide OnPace;
    PaceMeans(s', b, n * b, |s.ring.outcomes|, |s.rx.received|);
    if n >= GhostDriver.CeilDiv(|Queue(s)|, b) {
      EnoughPolls(|Queue(s)|, b, n);
    }
  }

  lemma {:induction false} PaceStarts(s: State, b: nat)
    requires Inv(s) && s.rx.poll.PIdle?
    ensures OnPace(s, b, 0, |s.ring.outcomes|, |s.rx.received|) && 0 <= Used(s.ring)
  {
    hide TxOk, RxOk, TokenOk;
    RingBounds(s.ring);
  }

  /** From every state that a run can reach, between two polls, while only the receiving side takes
      steps, in any order: each poll of budget `b` that ends has taken `b` packets off the ring or
      left it empty, so after ceil(k / b) polls nothing of the `k` packets is queued; and no more
      than `b` frames are handed up for each poll begun. */
  lemma {:induction false} DrainsOnTheMachine(s0: State, before: seq<Step>, s: State, steps: seq<Step>, b: nat)
    requires Init(s0) && CanRun(s0, before) && s == Run(s0, before) && s.rx.poll.PIdle?
    requires CanRun(s, steps) && AllReceiving(steps, b) && b > 0
    ensures Drained(s, Run(s, steps), Ended(s, steps), b)
  {
    hide Run, CanRun, Ended, OnPace, Inv, AllReceiving, Drained;
    InitInv(s0);
    RunInv(s0, before);
    PaceStarts(s, b);
    RunOnPace(s, steps, b, 0, |s.ring.outcomes|, |s.rx.received|);
    PaceDrains(s, Run(s, steps), Ended(s, steps), b);
  }

  lemma PaceMeans(s: State, b: nat, x: nat, out: nat, got: nat)
    requires OnPace(s, b, x, out, got)
    ensures 0 <= Used(s.ring) && (Used(s.ring) == 0 || |s.ring.outcomes| >= out + x)
    ensures |s.rx.received| <= got + x + if s.rx.poll.PIdle? then 0 else b
  {
    hide TxOk, RxOk, TokenOk, Idx;
  }
}

/** What is queued in ghost mode is looked at, and taken: the timer callback and the end of a poll
    hand polling over according to the queue, and the receiving side empties it in bounded time. */
module GhostDelivery {
  import opened Bytes
  import opened RingIndex
  import opened Opcode
  import opened Wrappers
  import opened GhostRing
  import opened GhostRingInvariant
  import opened GhostRingTheorems
  import opened GhostDrain

  lemma ReachInv(s0: State, before: seq<Step>)
    requires Init(s0) && CanRun(s0, before)
    ensures Inv(Run(s0, before))
  {
    InitInv(s0);
    RunInv(s0, before);
  }

  lemma {:induction false} RunMore(s: State, step: Step, rest: seq<Step>)
    requires Shape(s) && Enabled(s, step) && CanRun(Apply(s, step), rest)
    ensures CanRun(s, [step] + rest) && Run(s, [step] + rest) == Run(Apply(s, step), rest)
  {
    assert ([step] + rest)[1..] == rest;
  }

  // ---- who polls next

  /** Which of timer and NAPI is to look at the ring. */
  ghost predicate TimerHas(s: State) {
    s.token.timerArmed && !s.token.napiSched && s.token.cb.CIdle?
  }

  ghost predicate NapiHas(s: State) {
    !s.token.timerArmed && s.token.napiSched && s.token.cb.CIdle?
  }

  /** The callback's test, on the queue as it is at that time, and what follows from it. */
  lemma {:induction false} CallbackDecides(s: State)
    requires Inv(s) && s.token.cb.CTest?
    ensures Enabled(s, CallbackStep) && Enabled(Apply(s, CallbackStep), CallbackStep)
    ensures var s' := Apply(Apply(s, CallbackStep), CallbackStep);
      && s'.ring == s.ring && s'.rx == s.rx && Used(s.ring) >= 0
      && (if Used(s.ring) > 0 then NapiHas(s') else TimerHas(s'))
  {
    PollIsSound(s);
    hide RingOk, TxOk, RxOk;
  }

  /** In every reachable state in which the timer can fire: if the callback then runs, NAPI is
      scheduled exactly if something is queued, and the timer armed again exactly if nothing is. */
  lemma {:induction false} TimerHandsOver(s0: State, before: seq<Step>, s: State)
    requires Init(s0) && CanRun(s0, before) && s == Run(s0, before) && Enabled(s, TimerFires)
    ensures var steps := [TimerFires, CallbackStep, CallbackStep];
      && CanRun(s, steps) && |s.ring.outcomes| <= |s.ring.accepted|
      && var s' := Run(s, steps);
      && s'.ring == s.ring && s'.rx == s.rx && s'.token.cb.CIdle?
      && (s'.token.napiSched <==> Queue(s) != []) && (s'.token.timerArmed <==> Queue(s) == [])
  {
    ReachInv(s0, before);
    StepInv(s, TimerFires);
    var s1 := Apply(s, TimerFires);
    assert Inv(s) && Inv(s1) && s1.ring == s.ring && s1.rx == s.rx && s1.token.cb.CTest?;
    hide Inv, CanRun, Run;
    CallbackDecides(s1);
    ThreeSteps(s, TimerFires, CallbackStep, CallbackStep);
    RingBoundsOf(s);
  }

  lemma RingBoundsOf(s: State)
    requires Inv(s)
    ensures |s.ring.outcomes| <= |s.ring.accepted| && Shape(s) && TokenOk(s.token, s.rx.poll)
  {
  }

  lemma {:induction false} ThreeSteps(s: State, a: Step, b: Step, c: Step)
    requires Shape(s) && Enabled(s, a) && Enabled(Apply(s, a), b) && Enabled(Apply(Apply(s, a), b), c)
    ensures CanRun(s, [a, b, c]) && Run(s, [a, b, c]) == Apply(Apply(Apply(s, a), b), c)
  {
    hide Apply, Enabled, Shape;
    var s1 := Apply(s, a);
    var s2 := Apply(s1, b);
    assert CanRun(Apply(s2, c), []);
    RunMore(s2, c, []);
    RunMore(s1, b, [c] + []);
    RunMore(s, a, [b] + ([c] + []));
    assert [a] + ([b] + ([c] + [])) == [a, b, c];
  }

  /** In every reachable state in which a poll has left its loop: if something is queued it ends at
      once and NAPI stays scheduled; if nothing is, it ends with the timer armed and NAPI no longer
      scheduled. */
  lemma {:induction false} PollHandsBack(s0: State, before: seq<Step>, s: State, a: bool, b: bool, c: bool)
    requires Init(s0) && CanRun(s0, before) && s == Run(s0, before) && s.rx.poll.PCheck?
    ensures |s.ring.outcomes| <= |s.ring.accepted| && Enabled(s, PollStep(a))
    ensures Queue(s) != [] ==>
      var s' := Apply(s, PollStep(a)); s'.rx.poll.PIdle? && NapiHas(s') && s'.ring == s.ring
    ensures Queue(s) == [] ==>
      var steps := [PollStep(a), PollStep(b), PollStep(c)];
      && CanRun(s, steps)
      && var s' := Run(s, steps); s'.rx.poll.PIdle? && TimerHas(s') && s'.ring == s.ring
  {
    hide Inv, CanRun, Run, Shape, Apply, Sound, TokenOk;
    ReachInv(s0, before);
    PollIsSound(s);
    RingBoundsOf(s);
    if Queue(s) == [] {
      EmptyHandsBack(s, a, b, c);
      ThreeSteps(s, PollStep(a), PollStep(b), PollStep(c));
    } else {
      QueuedHandsBack(s, a);
    }
  }

  lemma {:induction false} QueuedHandsBack(s: State, a: bool)
    requires Shape(s) && TokenOk(s.token, s.rx.poll) && Sound(s.ring, s.rx.idx, s.rx.poll)
    requires s.rx.poll.PCheck? && Used(s.ring) > 0
    ensures var s' := Apply(s, PollStep(a)); s'.rx.poll.PIdle? && NapiHas(s') && s'.ring == s.ring
  {
    hide MemOk;
  }

  lemma {:induction false} EmptyHandsBack(s: State, a: bool, b: bool, c: bool)
    requires Shape(s) && TokenOk(s.token, s.rx.poll) && Sound(s.ring, s.rx.idx, s.rx.poll)
    requires s.rx.poll.PCheck? && Used(s.ring) == 0
    ensures var s1 := Apply(s, PollStep(a));
      && Enabled(s1, PollStep(b))
      && var s2 := Apply(s1, PollStep(b));
      && Enabled(s2, PollStep(c))
      && var s' := Apply(s2, PollStep(c));
      s'.rx.poll.PIdle? && TimerHas(s') && s'.ring == s.ring
  {
    hide MemOk;
  }

  // ---- eventual delivery

  const TURN := BUF_SIZE + 64

  /** A bound on the receiving side's steps until the `q` packets queued are taken: where polling
      stands, what the packet at hand still needs, and a turn for each of the others. */
  ghost function Until(p: Poll, k: Token, q: int): int {
    match p
    case PIdle =>
      q * TURN + (match k.cb
                  case CRearm => 17
                  case CTest => 15
                  case CSchedule => 14
                  case CIdle => if k.timerArmed then 16 else 10)
    case PTest(budget, done) => q * TURN + if done < budget then 4 else 12
    case PRead(_, _) => q * TURN + 3
    case PCopy(_, _, _, len, skb) => (q - 1) * TURN + 54 + len - |skb|
    case PPass(_, _, _, _) => (q - 1) * TURN + 53
    case PCount(_, _, _) => (q - 1) * TURN + 52
    case PClear(_, _, _, _) => (q - 1) * TURN + 51
    case PAdvance(_, _, _, _) => q * TURN + 40
    case PCountDrop(_, _, _) => q * TURN + 39
    case PCheck(_) => q * TURN + 11
    case PComplete => q * TURN + 18
    case PRearm => q * TURN + 17
  }

  predicate ReceiveSide(step: Step) {
    !step.Begin? && !step.XmitStep?
  }

  ghost predicate AllReceiveSide(steps: seq<Step>) {
    forall i :: 0 <= i < |steps| ==> ReceiveSide(steps[i])
  }

  lemma {:induction false} PollNearer(r: Ring, idx: nat, p: Poll, k: Token, allocOk: bool)
    requires RingShape(r) && idx < r.n && Sound(r, idx, p) && !p.PIdle? && TokenOk(k, p)
    requires Used(r) > if p.PClear? then 1 else 0
    ensures var q' := Used(r) - if p.PClear? then 1 else 0;
      0 <= Until(PollNext(r, idx, p, allocOk), PollToken(k, p), q') < Until(p, k, Used(r))
  {
    hide MemOk;
  }

  /** While something is queued, every step of the receiving side brings its taking nearer. */
  lemma {:induction false} EachStepNearer(s: State, step: Step)
    requires Inv(s) && Enabled(s, step) && ReceiveSide(step)
    ensures var s' := Apply(s, step);
      && s'.ring.accepted == s.ring.accepted && |s'.ring.outcomes| >= |s.ring.outcomes|
      && (Used(s'.ring) > 0 ==>
            0 <= Until(s'.rx.poll, s'.token, Used(s'.ring)) < Until(s.rx.poll, s.token, Used(s.ring)))
  {
    hide Inv, Shape, Sound, TokenOk, PollNext, PollToken, Until;
    PollIsSound(s);
    RingBoundsOf(s);
    if step.PollStep? {
      PollEffect(s, step.allocOk);
      if Used(Apply(s, step).ring) > 0 {
        PollNearer(s.ring, s.rx.idx, s.rx.poll, s.token, step.allocOk);
      }
    } else {
      TokenNearer(s, step);
    }
  }

  lemma {:induction false} TokenNearer(s: State, step: Step)
    requires Shape(s) && TokenOk(s.token, s.rx.poll) && Sound(s.ring, s.rx.idx, s.rx.poll)
    requires Enabled(s, step) && ReceiveSide(step) && !step.PollStep?
    ensures var s' := Apply(s, step);
      && s'.ring == s.ring
      && (Used(s.ring) > 0 ==>
            0 <= Until(s'.rx.poll, s'.token, Used(s.ring)) < Until(s.rx.poll, s.token, Used(s.ring)))
  {
    hide MemOk;
  }

  lemma {:induction false} RunNearer(s: State, steps: seq<Step>)
    requires Shape(s) && Inv(s) && CanRun(s, steps) && AllReceiveSide(steps)
    ensures var s' := Run(s, steps);
      && Inv(s') && s'.ring.accepted == s.ring.accepted && |s'.ring.outcomes| >= |s.ring.outcomes|
      && (Used(s'.ring) > 0 ==>
            |steps| + Until(s'.rx.poll, s'.token, Used(s'.ring)) <= Until(s.rx.poll, s.token, Used(s.ring)))
    decreases |steps|
  {
    hide Inv, Shape, Apply, Enabled, Until, Run, CanRun, Ended;
    RunUnfolds(s, steps);
    if steps != [] {
      EachStepNearer(s, steps[0]);
      StepInv(s, steps[0]);
      RunNearer(Apply(s, steps[0]), steps[1..]);
    }
  }

  lemma {:induction false} UntilBounds(s: State)
    requires Inv(s)
    ensures 0 <= Used(s.ring)
    ensures Used(s.ring) > 0 ==> 0 < Until(s.rx.poll, s.token, Used(s.ring)) < (Used(s.ring) + 1) * TURN
  {
    PollIsSound(s);
    hide RingOk, TxOk, RxOk;
  }

  /** Nothing is left in flight when the ring is empty. */
  lemma {:induction false} EmptyMeansHandled(s: State)
    requires Inv(s) && Used(s.ring) == 0
    ensures |s.ring.outcomes| == |s.ring.accepted| && s.rx.received == Frames(s.ring.accepted, s.ring.outcomes)
    ensures forall j :: 0 <= j < |s.ring.outcomes| ==> s.ring.outcomes[j].Delivered? || s.ring.outcomes[j].NoMemory?
  {
    hide TxOk, TokenOk, IfaceOk;
  }

  /** Eventual delivery: from every reachable state with `k` packets queued, every run of the
      receiving side alone, in any order and with any budgets and allocation failures, that goes on
      for (k + 1) * 2112 steps has taken them all; each was handed up or dropped for lack of
      memory, and the frames received are exactly those handed up. */
  lemma {:induction false} EventuallyTaken(s0: State, before: seq<Step>, s: State, steps: seq<Step>)
    requires Init(s0) && CanRun(s0, before) && s == Run(s0, before)
    requires CanRun(s, steps) && AllReceiveSide(steps)
    requires |s.ring.outcomes| <= |s.ring.accepted| && |steps| >= (|Queue(s)| + 1) * 2112
    ensures var s' := Run(s, steps);
      && s'.ring.accepted == s.ring.accepted && |s'.ring.outcomes| == |s'.ring.accepted| && Queue(s') == []
      && s'.rx.received == Frames(s'.ring.accepted, s'.ring.outcomes)
      && forall j :: 0 <= j < |s'.ring.outcomes| ==> s'.ring.outcomes[j].Delivered? || s'.ring.outcomes[j].NoMemory?
  {
    hide Inv, CanRun, Run, Until, AllReceiveSide, Frames;
    ReachInv(s0, before);
    RunNearer(s, steps);
    var s' := Run(s, steps);
    UntilBounds(s);
    UntilBounds(s');
    EmptyMeansHandled(s');
  }

  // ---- what a poll counts

  /** The poll is between its start and its final test. */
  predicate InLoop(p: Poll) {
    !p.PIdle? && !p.PComplete? && !p.PRearm?
  }

  /** Within a poll of budget `b` that began with `got` frames received, the count is exactly that
      of the frames handed up since. */
  ghost predicate CountIs(s: State, b: nat, got: nat) {
    && Inv(s) && InLoop(s.rx.poll)
    && (!s.rx.poll.PCheck? ==> s.rx.poll.budget == b) && s.rx.poll.done <= b
    && (Reading(s.rx.poll) || s.rx.poll.PAdvance? || s.rx.poll.PCountDrop? ==> s.rx.poll.done < b)
    && |s.rx.received| == got + Handed(s.rx.poll, b)
  }

  lemma {:induction false} PollCounts(r: Ring, idx: nat, p: Poll, allocOk: bool, b: nat)
    requires RingShape(r) && idx < r.n && InLoop(p) && (!p.PCheck? ==> p.budget == b) && p.done <= b
    requires Reading(p) || p.PAdvance? || p.PCountDrop? ==> p.done < b
    ensures var p' := PollNext(r, idx, p, allocOk);
      InLoop(p') ==>
        && (!p'.PCheck? ==> p'.budget == b) && p'.done <= b
        && (Reading(p') || p'.PAdvance? || p'.PCountDrop? ==> p'.done < b)
        && Handed(p', b) == Handed(p, b) + if p.PPass? then 1 else 0
  {
    hide MemOk;
  }

  lemma {:induction false} StepCounts(s: State, step: Step, b: nat, got: nat)
    requires CountIs(s, b, got) && Enabled(s, step)
    ensures var s' := Apply(s, step); InLoop(s'.rx.poll) ==> CountIs(s', b, got)
  {
    StepInv(s, step);
    assert Shape(s);
    if step.PollStep? {
      hide Inv, Shape, PollNext, Handed;
      PollEffect(s, step.allocOk);
      PollCounts(s.ring, s.rx.idx, s.rx.poll, step.allocOk, b);
    } else {
      hide RingOk, TxOk, RxOk, TokenOk, XmitMem, XmitTx, CallbackToken;
    }
  }

  /** Every state of a run is in the loop. */
  ghost predicate AlwaysInLoop(s: State, steps: seq<Step>)
    requires Shape(s) && CanRun(s, steps)
    decreases |steps|
  {
    InLoop(s.rx.poll) && (steps == [] || AlwaysInLoop(Apply(s, steps[0]), steps[1..]))
  }

  lemma {:induction false} RunCounts(s: State, steps: seq<Step>, b: nat, got: nat)
    requires Shape(s) && CountIs(s, b, got) && CanRun(s, steps) && AlwaysInLoop(s, steps)
    ensures CountIs(Run(s, steps), b, got)
    decreases |steps|
  {
    if steps != [] {
      StepCounts(s, steps[0], b, got);
      assert InLoop(Apply(s, steps[0]).rx.poll);
      hide CountIs, Apply, Enabled, Shape;
      RunCounts(Apply(s, steps[0]), steps[1..], b, got);
    }
  }

  /** Over every interleaving with senders, from the start of a poll to its final test: what the poll
      counts against its budget is exactly what it has handed up; dropped packets do not count. */
  lemma {:induction false} BudgetCountsDelivered(s0: State, before: seq<Step>, s: State, b: nat, steps: seq<Step>)
    requires Init(s0) && CanRun(s0, before) && s == Run(s0, before) && Enabled(s, PollStarts(b))
    requires var s1 := Apply(s, PollStarts(b));
      CanRun(s1, steps) && AlwaysInLoop(s1, steps) && Run(s1, steps).rx.poll.PCheck?
    ensures var s' := Run(Apply(s, PollStarts(b)), steps);
      s'.rx.poll.done <= b && |s'.rx.received| == |s.rx.received| + s'.rx.poll.done
  {
    ReachInv(s0, before);
    StepInv(s, PollStarts(b));
    var s1 := Apply(s, PollStarts(b));
    assert CountIs(s1, b, |s.rx.received|);
    hide Inv, CanRun, Run, AlwaysInLoop, Apply;
    RunCounts(s1, steps, b, |s.rx.received|);
  }

  // ---- what allocation decides

  /** In every reachable state in which the poll has found a packet: with a buffer it goes on to copy it
      for the interface it is addressed to, without one it gives the packet up. */
  lemma {:induction false} AllocationDecides(s0: State, before: seq<Step>, s: State)
    requires Init(s0) && CanRun(s0, before) && s == Run(s0, before) && s.rx.poll.PRead?
    ensures |s.ring.outcomes| < |s.ring.accepted|
    ensures var p, q := s.ring.accepted[|s.ring.outcomes|], s.rx.poll;
      && Apply(s, PollStep(true)).rx.poll == PCopy(q.budget, q.done, GetDst(p.op), |p.data|, [])
      && Apply(s, PollStep(false)).rx.poll == PClear(q.budget, q.done, GetDst(p.op), NoMemory)
  {
    ReachInv(s0, before);
    var c := |s.ring.outcomes|;
    assert SlotHolds(s.ring.mem, Idx(c, s.ring.n), s.ring.accepted[c]);
    hide Run, CanRun, TxOk, TokenOk, ReceivedOk, IfaceOk, Idx;
  }

  // ---- the senders

  /** There is a machine to start from, for every ring size and every number of netdevs. */
  lemma InitExists(n: nat, netdevs: nat) returns (s: State)
    requires n > 0 && netdevs >= 4
    ensures Init(s) && s.ring.n == n && |s.tx.devs| == netdevs
  {
    var mem := Memory(seq(n, _ => seq(BUF_SIZE, _ => 0)), seq(n, _ => 0), seq(n, _ => 0), seq(n, _ => 0));
    var devs := seq(netdevs, _ => Netdev(Idle, Stats(0, 0, 0), 0));
    s := State(Ring(n, mem, [], []), Tx(0, None, devs), Rx(0, PIdle, seq(4, _ => Stats(0, 0, 0)), []),
    Token(true, false, CIdle), false);
  }

  /** In every reachable state a netdev between calls can begin one, and one in a call can take a step,
      unless it waits for the lock; then the holder of the lock can. */
  lemma {:induction false} SendersNeverStuck(s0: State, before: seq<Step>, s: State, t: nat, data: seq<byte>)
    requires Init(s0) && CanRun(s0, before) && s == Run(s0, before) && t < |s.tx.devs|
    ensures s.tx.devs[t].pc.Idle? ==> Enabled(s, Begin(t, data))
    ensures !s.tx.devs[t].pc.Idle? ==>
      Enabled(s, XmitStep(t)) || (s.tx.devs[t].pc.Checked? && s.tx.lock.Some? && Enabled(s, XmitStep(s.tx.lock.value)))
  {
    ReachInv(s0, before);
    hide Run, CanRun, RingOk, RxOk, TokenOk, WriterOk;
    if s.tx.lock.Some? {
      var u := s.tx.lock.value;
      assert DevOk(s.tx.devs[u], u, s.tx.lock, s.ring.accepted);
    }
  }

  /** A bound on the steps a transmit call has left. */
  function XmitLeft(pc: Xmit): int {
    match pc
    case Idle => 0
    case Dropping => 1
    case UnlockFull => 2
    case Counting(_) => 1
    case Unlocking(_) => 2
    case Advancing(_) => 3
    case SetFlag(_) => 4
    case WriteOp(_) => 5
    case WriteLen(_) => 6
    case Copying(data, k) => 7 + |data| - k
    case Locked(data) => 8 + |data|
    case Checked(data) => 9 + |data|
    case Entered(data) => 10 + |data|
  }

  /** Every step of a transmit call brings its end nearer, and no step of another prolongs it. */
  lemma {:induction false} XmitEnds(s: State, t: nat, u: nat)
    requires Inv(s) && Enabled(s, XmitStep(t)) && u < |s.tx.devs|
    ensures var s' := Apply(s, XmitStep(t));
      && 0 <= XmitLeft(s'.tx.devs[t].pc) < XmitLeft(s.tx.devs[t].pc)
      && (u != t ==> s'.tx.devs[u] == s.tx.devs[u])
  {
    assert DevOk(s.tx.devs[t], t, s.tx.lock, s.ring.accepted);
    hide RingOk, RxOk, TokenOk;
  }
}

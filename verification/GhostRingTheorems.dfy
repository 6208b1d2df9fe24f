/** What the invariant gives on every interleaving of ghost mode. */
module GhostRingTheorems {
  import opened RingIndex
  import opened Opcode
  import opened GhostRing
  import opened GhostRingInvariant

  lemma {:induction false} RunInv(s: State, steps: seq<Step>)
    requires Inv(s) && CanRun(s, steps)
    ensures Inv(Run(s, steps))
    decreases |steps|
  {
    if steps != [] {
      StepInv(s, steps[0]);
      RunInv(Apply(s, steps[0]), steps[1..]);
    }
  }

  // ---- the ring is a bounded FIFO

  /** The abstract queue: published and not yet given back. */
  ghost function Queue(s: State): seq<Packet>
    requires |s.ring.outcomes| <= |s.ring.accepted|
  {
    s.ring.accepted[|s.ring.outcomes|..]
  }

  /** The packet in slot `i`. */
  ghost function Slot(r: Ring, i: nat): Packet
    requires RingShape(r) && i < r.n
  {
    Packet(if r.mem.lens[i] <= BUF_SIZE then r.mem.bufs[i][..r.mem.lens[i]] else [], r.mem.ops[i])
  }

  /** What a reader starting at slot `i` finds in memory, up to the first clear flag. */
  ghost function ReadOut(r: Ring, i: nat, fuel: nat): seq<Packet>
    requires RingShape(r) && i < r.n
    decreases fuel
  {
    if fuel == 0 || r.mem.flags[i] != 1 then []
    else [Slot(r, i)] + ReadOut(r, Bump(i, r.n), fuel - 1)
  }

  lemma SlotIsPacket(r: Ring, j: nat)
    requires RingOk(r) && |r.outcomes| <= j < |r.accepted|
    ensures Slot(r, Idx(j, r.n)) == r.accepted[j] && r.mem.flags[Idx(j, r.n)] == 1
  {
    assert SlotHolds(r.mem, Idx(j, r.n), r.accepted[j]);
  }

  lemma EmptyAhead(r: Ring)
    requires RingOk(r) && Used(r) < r.n
    ensures r.mem.flags[Idx(|r.accepted|, r.n)] == 0
  {
  }

  lemma RingBounds(r: Ring)
    requires RingOk(r)
    ensures RingShape(r) && |r.outcomes| <= |r.accepted| <= |r.outcomes| + r.n
  {
  }

  lemma ReadOutUnfolds(r: Ring, i: nat, fuel: nat)
    requires RingShape(r) && i < r.n
    ensures fuel == 0 || r.mem.flags[i] != 1 ==> ReadOut(r, i, fuel) == []
    ensures fuel > 0 && r.mem.flags[i] == 1 ==> ReadOut(r, i, fuel) == [Slot(r, i)] + ReadOut(r, Bump(i, r.n), fuel - 1)
  {
  }

  /** Memory read from position `j` on holds exactly the packets accepted from `j` on. */
  lemma {:induction false} ReadOutIsQueue(r: Ring, j: nat)
    requires RingOk(r) && |r.outcomes| <= j <= |r.accepted|
    ensures ReadOut(r, Idx(j, r.n), |r.outcomes| + r.n - j) == r.accepted[j..]
    decreases |r.accepted| - j
  {
    hide RingOk, Idx, Slot, ReadOut, Bump;
    RingBounds(r);
    ReadOutUnfolds(r, Idx(j, r.n), |r.outcomes| + r.n - j);
    if j < |r.accepted| {
      SlotIsPacket(r, j);
      BumpIsNext(j, r.n);
      ReadOutIsQueue(r, j + 1);
      assert r.accepted[j..] == [r.accepted[j]] + r.accepted[j + 1..];
    } else if Used(r) < r.n {
      EmptyAhead(r);
    }
  }

  ghost predicate FifoStep(q: seq<Packet>, q': seq<Packet>, capacity: nat) {
    || q' == q
    || (|q| < capacity && |q'| == |q| + 1 && q' == q + [q'[|q|]])
    || (q != [] && q' == q[1..])
  }

  /** The flag store of a sender enqueues that sender's packet; no other step of a sender shows. */
  lemma {:induction false} XmitIsEnqueue(s: State, t: nat)
    requires Inv(s) && Enabled(s, XmitStep(t))
    ensures var s', pc := Apply(s, XmitStep(t)), s.tx.devs[t].pc;
      && s'.ring.outcomes == s.ring.outcomes
      && s'.ring.accepted == s.ring.accepted + (if pc.SetFlag? then [Packet(pc.data, GhostOpcode(t))] else [])
      && (pc.SetFlag? ==> Used(s.ring) < s.ring.n)
  {
    hide RingOk, RxOk, TokenOk, XmitTx, Idx;
    assert DevOk(s.tx.devs[t], t, s.tx.lock, s.ring.accepted);
  }

  /** The flag store of the poll dequeues; no other step of the poll shows. */
  lemma {:induction false} PollIsDequeue(s: State, allocOk: bool)
    requires Inv(s) && Enabled(s, PollStep(allocOk))
    ensures var s', p := Apply(s, PollStep(allocOk)), s.rx.poll;
      && s'.ring.accepted == s.ring.accepted
      && s'.ring.outcomes == s.ring.outcomes + (if p.PClear? then [p.outcome] else [])
      && (p.PClear? ==> |s.ring.outcomes| < |s.ring.accepted|)
  {
    hide RingOk, TxOk, TokenOk, PollRx, Idx;
  }

  lemma QueueMoves(accepted: seq<Packet>, outcomes: seq<Outcome>, p: Packet, o: Outcome)
    requires |outcomes| <= |accepted|
    ensures (accepted + [p])[|outcomes|..] == accepted[|outcomes|..] + [p]
    ensures |outcomes| < |accepted| ==> accepted[|outcomes + [o]|..] == accepted[|outcomes|..][1..]
  {
  }

  /** Every micro-step is a step of the bounded FIFO: the flag store of a sender enqueues that
      sender's packet, the flag store of the poll dequeues, and nothing else shows. */
  lemma {:induction false} StepRefinesFifo(s: State, step: Step)
    requires Inv(s) && Enabled(s, step)
    ensures var s' := Apply(s, step);
      && |s'.ring.outcomes| <= |s'.ring.accepted|
      && FifoStep(Queue(s), Queue(s'), s.ring.n)
      && (step.XmitStep? && s.tx.devs[step.t].pc.SetFlag? ==>
            Queue(s') == Queue(s) + [Packet(s.tx.devs[step.t].pc.data, GhostOpcode(step.t))])
      && (step.PollStep? && s.rx.poll.PClear? ==> Queue(s) != [] && Queue(s') == Queue(s)[1..])
      && (!(step.XmitStep? && s.tx.devs[step.t].pc.SetFlag?) && !(step.PollStep? && s.rx.poll.PClear?) ==>
            Queue(s') == Queue(s))
  {
    assert |s.ring.outcomes| <= |s.ring.accepted|;
    hide RingOk, TxOk, RxOk, TokenOk, XmitMem, XmitTx, PollMem, PollRx, GhostOpcode;
    if step.XmitStep? {
      var pc := s.tx.devs[step.t].pc;
      XmitIsEnqueue(s, step.t);
      if pc.SetFlag? {
        QueueMoves(s.ring.accepted, s.ring.outcomes, Packet(pc.data, GhostOpcode(step.t)), Delivered);
      }
    } else if step.PollStep? {
      PollIsDequeue(s, step.allocOk);
      if s.rx.poll.PClear? {
        QueueMoves(s.ring.accepted, s.ring.outcomes, s.ring.accepted[|s.ring.outcomes|], s.rx.poll.outcome);
      }
    }
  }

  /** Slot `i` belongs to a packet accepted and not yet taken off. */
  ghost predicate Queued(r: Ring, i: nat)
    requires r.n > 0
  {
    exists j :: |r.outcomes| <= j < |r.accepted| && Idx(j, r.n) == i
  }

  /** The concrete ring represents the abstract queue: memory read from the receive position holds
      it, a flag is set exactly on its slots and clear on all others, and the receive index is at
      its head, or one behind it between giving a slot back and moving on. */
  ghost predicate IsFifo(s: State) {
    && Shape(s) && |s.ring.outcomes| <= |s.ring.accepted|
    && s.ring.accepted == s.ring.accepted[..|s.ring.outcomes|] + Queue(s)
    && |Queue(s)| <= s.ring.n
    && ReadOut(s.ring, Idx(|s.ring.outcomes|, s.ring.n), s.ring.n) == Queue(s)
    && (forall i :: 0 <= i < s.ring.n ==> s.ring.mem.flags[i] == if Queued(s.ring, i) then 1 else 0)
    && Idx(|s.ring.outcomes|, s.ring.n) == if s.rx.poll.PAdvance? then Bump(s.rx.idx, s.ring.n) else s.rx.idx
  }

  lemma {:induction false} FlagIsQueued(r: Ring, i: nat)
    requires RingOk(r) && i < r.n
    ensures r.mem.flags[i] == if Queued(r, i) then 1 else 0
  {
    hide Idx, SlotHolds;
    var j := PositionOf(i, |r.outcomes|, r.n);
  }

  lemma IndexAtHead(s: State)
    requires Inv(s)
    ensures Idx(|s.ring.outcomes|, s.ring.n) == if s.rx.poll.PAdvance? then Bump(s.rx.idx, s.ring.n) else s.rx.idx
  {
    if s.rx.poll.PAdvance? {
      BumpIsNext(|s.ring.outcomes| - 1, s.ring.n);
    }
  }

  lemma InvIsFifo(s: State)
    requires Inv(s)
    ensures IsFifo(s)
  {
    hide RingOk, TxOk, RxOk, TokenOk, Idx, Bump, ReadOut, Queued;
    RingBounds(s.ring);
    ReadOutIsQueue(s.ring, |s.ring.outcomes|);
    IndexAtHead(s);
    forall i: int | 0 <= i < s.ring.n
      ensures s.ring.mem.flags[i] == if Queued(s.ring, i) then 1 else 0
    {
      FlagIsQueued(s.ring, i);
    }
  }

  /** After any run from the initial state: what was accepted is what was taken off followed by
      what memory holds from the receive position on, the flags set are exactly those of its
      slots, and the ring never exceeds its size. */
  lemma RingIsFifo(s: State, steps: seq<Step>)
    requires Init(s) && CanRun(s, steps)
    ensures IsFifo(Run(s, steps))
  {
    InitInv(s);
    RunInv(s, steps);
    InvIsFifo(Run(s, steps));
  }

  // ---- delivery

  lemma {:induction false} AllDelivered(ps: seq<Packet>, outs: seq<Outcome>)
    requires |outs| <= |ps| && forall k :: 0 <= k < |outs| ==> outs[k].Delivered?
    ensures Frames(ps, outs) == seq(|outs|, k requires 0 <= k < |outs| => FrameOf(ps[k]))
  {
    if outs != [] {
      AllDelivered(ps, outs[..|outs| - 1]);
    }
  }

  /** Bytes, destination and order survive the ring: with no allocation failure, and outside
      the poll, the stack has received exactly the packets taken off, in the order accepted. */
  lemma DeliveredInOrder(s: State, steps: seq<Step>)
    requires Init(s) && CanRun(s, steps)
    ensures var s' := Run(s, steps);
      s'.rx.poll.PIdle? && (forall k :: 0 <= k < |s'.ring.outcomes| ==> !s'.ring.outcomes[k].NoMemory?) ==>
        && |s'.rx.received| == |s'.ring.outcomes| <= |s'.ring.accepted|
        && forall k :: 0 <= k < |s'.rx.received| ==> s'.rx.received[k] == FrameOf(s'.ring.accepted[k])
  {
    InitInv(s);
    RunInv(s, steps);
    var s' := Run(s, steps);
    if forall k :: 0 <= k < |s'.ring.outcomes| ==> !s'.ring.outcomes[k].NoMemory? {
      AllDelivered(s'.ring.accepted, s'.ring.outcomes);
    }
  }

  /** What a sender puts on the ring: its data, addressed to the other interface of its pair (0-1 or
      2-3) by that interface's bit and no other. */
  lemma {:induction false} LoopbackAddress(s: State, t: nat)
    requires Inv(s) && Enabled(s, XmitStep(t)) && s.tx.devs[t].pc.SetFlag?
    ensures t < 4
    ensures var s', data := Apply(s, XmitStep(t)), s.tx.devs[t].pc.data;
      && |s'.ring.accepted| == |s.ring.accepted| + 1 && s'.ring.accepted[..|s.ring.accepted|] == s.ring.accepted
      && var p := s'.ring.accepted[|s.ring.accepted|];
      && p.data == data && p.op == (if t == 0 then 0x08 else if t == 1 then 0x02 else if t == 2 then 0x80 else 0x20)
      && GetDst(p.op) / 2 == t / 2 && GetDst(p.op) != t && IsIface(GetDst(p.op))
  {
    assert DevOk(s.tx.devs[t], t, s.tx.lock, s.ring.accepted);
    XmitIsEnqueue(s, t);
    LoopbackWord(t);
    hide Inv, Apply, GhostOpcode, DevOk;
  }

  /** A transmit call goes for the lock exactly if its packet is at most 2048 bytes long and comes from
      one of the four interfaces; otherwise it is dropped. */
  lemma {:induction false} Admission(s: State, t: nat)
    requires Shape(s) && Enabled(s, XmitStep(t)) && s.tx.devs[t].pc.Entered?
    ensures var data, pc := s.tx.devs[t].pc.data, Apply(s, XmitStep(t)).tx.devs[t].pc;
      pc == if |data| <= 2048 && t < 4 then Checked(data) else Dropping
  {
  }

  // ---- mutual exclusion

  /** No slot is written while it is read, no two senders are in the critical section, the
      timer callback and the poll never overlap, no timer is added twice, no access leaves its
      buffer, and no packet carries an opcode without a destination. */
  lemma NoInterference(s: State, steps: seq<Step>, t: nat, u: nat)
    requires Init(s) && CanRun(s, steps) && t < |Run(s, steps).tx.devs| && u < |Run(s, steps).tx.devs|
    ensures var s' := Run(s, steps);
      && !s'.fault
      && (InWrite(s'.tx.devs[t].pc) && Reading(s'.rx.poll) ==> s'.tx.idx != s'.rx.idx)
      && (HoldsLock(s'.tx.devs[t].pc) && HoldsLock(s'.tx.devs[u].pc) ==> t == u)
      && (!s'.token.cb.CIdle? ==> s'.rx.poll.PIdle?)
      && BadOpcode !in s'.ring.outcomes
  {
    InitInv(s);
    RunInv(s, steps);
    var s' := Run(s, steps);
    assert DevOk(s'.tx.devs[t], t, s'.tx.lock, s'.ring.accepted);
    assert DevOk(s'.tx.devs[u], u, s'.tx.lock, s'.ring.accepted);
    if InWrite(s'.tx.devs[t].pc) && Reading(s'.rx.poll) {
      SlotsDiffer(|s'.ring.outcomes|, |s'.ring.accepted|, s'.ring.n);
    }
  }

  /** In every reachable state exactly one of the armed timer, the running callback, the scheduled
      NAPI context and the poll about to re-arm the timer has the right to look at the ring; so
      between calls exactly one of timer and NAPI does, and a queued packet is looked at. */
  lemma ExactlyOnePoller(s: State, steps: seq<Step>)
    requires Init(s) && CanRun(s, steps)
    ensures var s' := Run(s, steps);
      && TokenOk(s'.token, s'.rx.poll)
      && (s'.token.cb.CIdle? && s'.rx.poll.PIdle? ==> s'.token.timerArmed != s'.token.napiSched)
  {
    InitInv(s);
    RunInv(s, steps);
  }

  // ---- conservation

  lemma {:induction false} TotalSplits(ps: seq<Packet>, k: nat, dst: int, b: bool)
    requires k <= |ps|
    ensures Total(ps, dst, b) == Total(ps[..k], dst, b) + Total(ps[k..], dst, b)
  {
    if k == |ps| {
      assert ps[..k] == ps;
    } else {
      var m := |ps| - 1;
      TotalSplits(ps[..m], k, dst, b);
      assert ps[..m][..k] == ps[..k] && ps[..m][k..] == ps[k..][..m - k];
    }
  }

  lemma {:induction false} FatesAddUp(ps: seq<Packet>, outs: seq<Outcome>, dst: int, b: bool)
    requires |outs| <= |ps| && forall k :: 0 <= k < |outs| ==> !outs[k].BadOpcode?
    ensures Total(ps[..|outs|], dst, b) ==
      TotalBy(ps, outs, Delivered, dst, b) + TotalBy(ps, outs, NoMemory, dst, b)
  {
    if outs != [] {
      var k := |outs| - 1;
      FatesAddUp(ps, outs[..k], dst, b);
      assert ps[..|outs|][..k] == ps[..k];
    }
  }

  ghost predicate Quiescent(s: State) {
    && (forall t :: 0 <= t < |s.tx.devs| ==> s.tx.devs[t].pc.Idle?)
    && s.rx.poll.PIdle?
  }

  /** Whenever no call is in progress, what interface `i` of the pair 0-1 or 2-3 sent is what the
      other one, `j`, received, lost to allocation failure, or still has queued - in packets and in
      bytes - and every transmit call was counted once, as sent or as dropped. */
  lemma Conservation(s: State, steps: seq<Step>, i: int, j: int, b: bool)
    requires Init(s) && CanRun(s, steps) && IsIface(i) && IsIface(j) && i / 2 == j / 2 && i != j
    ensures var s' := Run(s, steps);
      && |s'.ring.outcomes| <= |s'.ring.accepted|
      && (Quiescent(s') ==>
            && Counted(s'.tx.devs[i].stats, b) == Counted(s'.rx.stats[j], b)
                 + TotalBy(s'.ring.accepted, s'.ring.outcomes, NoMemory, j, b) + Total(Queue(s'), j, b)
            && s'.tx.devs[i].stats.packets ==
                 s'.rx.stats[j].packets + s'.rx.stats[j].dropped + Total(Queue(s'), j, false)
            && s'.tx.devs[i].stats.packets + s'.tx.devs[i].stats.dropped == s'.tx.devs[i].calls)
  {
    InitInv(s);
    RunInv(s, steps);
    var s' := Run(s, steps);
    var r := s'.ring;
    assert j == Peer(i);
    assert DevOk(s'.tx.devs[i], i, s'.tx.lock, r.accepted);
    assert IfaceOk(s'.rx.stats[j], j, s'.rx.poll, r);
    TotalSplits(r.accepted, |r.outcomes|, j, b);
    TotalSplits(r.accepted, |r.outcomes|, j, false);
    FatesAddUp(r.accepted, r.outcomes, j, b);
    FatesAddUp(r.accepted, r.outcomes, j, false);
  }
}

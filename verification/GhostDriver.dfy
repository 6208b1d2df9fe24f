/** Ghost mode as the driver's own imperative code, one whole call at a time: transmit, the
    timer callback, and the budgeted poll loop over the flag, metadata and buffer arrays. */
module GhostDriver {
  import opened Bytes
  import opened RingIndex
  import opened Opcode
  import opened GhostRing
  import opened Wrappers
  import opened GhostRingInvariant

  /** Packets one poll takes off a queue of `k` with `b` deliveries left; `alloc(c)` is the
      result of the allocation made for the `c`-th packet of the ring's life. */
  ghost function Taken(k: nat, b: nat, alloc: nat -> bool, c: nat): (m: nat)
    ensures m <= k && (k <= b ==> m == k) && (b <= k ==> b <= m)
  {
    if k == 0 || b == 0 then 0
    else 1 + Taken(k - 1, if alloc(c) then b - 1 else b, alloc, c + 1)
  }

  lemma TakenStep(k: nat, b: nat, alloc: nat -> bool, c: nat)
    ensures k == 0 || b == 0 ==> Taken(k, b, alloc, c) == 0
    ensures k > 0 && b > 0 ==> Taken(k, b, alloc, c) == 1 + Taken(k - 1, if alloc(c) then b - 1 else b, alloc, c + 1)
  {
  }

  /** Polls until nothing is queued, counting the one that finds the ring empty. */
  ghost function Rounds(k: nat, b: nat, alloc: nat -> bool, c: nat): nat
    requires b > 0
    decreases k
  {
    var m := Taken(k, b, alloc, c);
    if m == k then 1 else 1 + Rounds(k - m, b, alloc, c + m)
  }

  function CeilDiv(k: nat, b: nat): nat
    requires b > 0
    decreases k
  {
    if k <= b then (if k == 0 then 0 else 1) else 1 + CeilDiv(k - b, b)
  }

  lemma {:induction false} CeilDivMonotone(k: nat, k': nat, b: nat)
    requires b > 0 && k <= k'
    ensures CeilDiv(k, b) <= CeilDiv(k', b)
    decreases k'
  {
    if k > b {
      CeilDivMonotone(k - b, k' - b, b);
    }
  }

  /** With no producer, k queued packets are gone after at most max(1, ceil(k / b)) polls. */
  lemma {:induction false} DrainsInTime(k: nat, b: nat, alloc: nat -> bool, c: nat)
    requires b > 0
    ensures Rounds(k, b, alloc, c) <= if k == 0 then 1 else CeilDiv(k, b)
    decreases k
  {
    var m := Taken(k, b, alloc, c);
    if m < k {
      DrainsInTime(k - m, b, alloc, c + m);
      CeilDivMonotone(k - m, k - b, b);
    }
  }

  // ---- the state between calls

  ghost predicate SendersOk(stats: seq<Stats>, calls: seq<nat>, acc: seq<Packet>) {
    && |stats| == |calls| >= 4
    && forall t :: 0 <= t < |stats| ==> DevOk(Netdev(Idle, stats[t], calls[t]), t, None, acc)
  }

  lemma DropSettles(r: Ring, txIdx: nat, stats: seq<Stats>, calls: seq<nat>, x: Rx, t: nat)
    requires Settled(r, txIdx, stats, calls, x) && t < |stats|
    ensures Settled(r, txIdx, stats[t := Dropped(stats[t])], calls[t := calls[t] + 1], x)
  {
    DropCounts(stats, calls, r.accepted, t);
  }

  ghost function Dropped(st: Stats): Stats {
    st.(dropped := st.dropped + 1)
  }

  ghost function Passed(st: Stats, len: nat): Stats {
    st.(packets := st.packets + 1, bytes := st.bytes + len)
  }

  lemma DropCounts(stats: seq<Stats>, calls: seq<nat>, acc: seq<Packet>, t: nat)
    requires SendersOk(stats, calls, acc) && t < |stats|
    ensures SendersOk(stats[t := Dropped(stats[t])], calls[t := calls[t] + 1], acc)
  {
    var stats', calls' := stats[t := Dropped(stats[t])], calls[t := calls[t] + 1];
    forall u | 0 <= u < |stats|
      ensures DevOk(Netdev(Idle, stats'[u], calls'[u]), u, None, acc)
    {
      assert DevOk(Netdev(Idle, stats[u], calls[u]), u, None, acc);
    }
  }

  /** A packet joins the total of its sender and of nobody else. */
  lemma {:induction false} SendCountsOne(st: Stats, calls: nat, u: nat, acc: seq<Packet>, p: Packet, mine: bool)
    requires DevOk(Netdev(Idle, st, calls), u, None, acc) && (mine <==> IsIface(u) && GetDst(p.op) == Peer(u))
    ensures var dev := if mine then Netdev(Idle, Passed(st, |p.data|), calls + 1) else Netdev(Idle, st, calls);
      DevOk(dev, u, None, acc + [p])
  {
    hide GetDst, Total;
    TotalAppends(acc, p, Peer(u), true);
    TotalAppends(acc, p, Peer(u), false);
  }

  lemma SendCounts(stats: seq<Stats>, calls: seq<nat>, acc: seq<Packet>, t: nat, p: Packet)
    requires SendersOk(stats, calls, acc) && t < |stats| && IsIface(t) && p.op == GhostOpcode(t)
    ensures SendersOk(stats[t := Passed(stats[t], |p.data|)], calls[t := calls[t] + 1], acc + [p])
    ensures GetDst(p.op) == Peer(t) && IsIface(Peer(t))
  {
    var stats', calls' := stats[t := Passed(stats[t], |p.data|)], calls[t := calls[t] + 1];
    hide DevOk, GetDst, SetDst;
    SetDstRoundTrip(0, Peer(t));
    forall u: int | 0 <= u < |stats|
      ensures DevOk(Netdev(Idle, stats'[u], calls'[u]), u, None, acc + [p])
    {
      SendCountsOne(stats[u], calls[u], u, acc, p, u == t);
    }
  }

  /** The sizes everything below relies on. */
  ghost predicate Sizes(r: Ring, txIdx: nat, stats: seq<Stats>, calls: seq<nat>, x: Rx) {
    && RingShape(r) && |r.outcomes| <= |r.accepted| && txIdx < r.n
    && |stats| == |calls| >= 4 && |x.stats| == 4 && x.idx < r.n
  }

  /** Nobody is in the middle of a call: the ring, transmit and receive invariants of the
      concurrent machine with every program counter idle. */
  ghost predicate Settled(r: Ring, txIdx: nat, stats: seq<Stats>, calls: seq<nat>, x: Rx) {
    && RingOk(r) && txIdx == Idx(|r.accepted|, r.n)
    && SendersOk(stats, calls, r.accepted) && RxOk(x, r) && x.poll.PIdle?
  }

  /** `m` differs from `mem` at most in the buffer and metadata of slot `i`. */
  ghost predicate OnlySlot(n: nat, mem: Memory, m: Memory, i: nat) {
    && MemOk(n, mem) && MemOk(n, m) && m.flags == mem.flags
    && forall k :: 0 <= k < n && k != i ==>
      m.bufs[k] == mem.bufs[k] && m.lens[k] == mem.lens[k] && m.ops[k] == mem.ops[k]
  }

  ghost function Sent(r: Ring, m: Memory, i: nat, p: Packet): Ring
    requires MemOk(r.n, m) && i < r.n
  {
    r.(mem := PutFlag(m, i, 1), accepted := r.accepted + [p])
  }

  /** Filling the free slot and raising its flag appends one packet to the queue. */
  lemma SendKeeps(r: Ring, txIdx: nat, stats: seq<Stats>, calls: seq<nat>, x: Rx, m: Memory, t: nat, p: Packet)
    requires Settled(r, txIdx, stats, calls, x) && t < |stats| && IsIface(t) && Used(r) < r.n
    requires OnlySlot(r.n, r.mem, m, txIdx) && SlotHolds(m, txIdx, p) && p.op == GhostOpcode(t)
    ensures Settled(Sent(r, m, txIdx, p), Bump(txIdx, r.n), stats[t := Passed(stats[t], |p.data|)],
                    calls[t := calls[t] + 1], x)
  {
    SendCounts(stats, calls, r.accepted, t, p);
    var r1 := r.(mem := m);
    assert RingOk(r1) && RxOk(x, r1) by {
      WriteFree(r, r1);
      MemKeepsRx(r, x, r1);
    }
    Publish(r1, p);
    PublishKeepsRx(r1, x, Sent(r, m, txIdx, p), p);
    BumpIsNext(|r.accepted|, r.n);
  }

  /** The receiving side after one more packet has been dealt with. */
  ghost function After(x: Rx, p: Packet, o: Outcome, n: nat): Rx
    requires |x.stats| == 4 && IsIface(GetDst(p.op))
  {
    var dst := GetDst(p.op);
    Rx(Bump(x.idx, n), PIdle,
       x.stats[dst := if o.Delivered? then Passed(x.stats[dst], |p.data|) else Dropped(x.stats[dst])],
       x.received + if o.Delivered? then [FrameOf(p)] else [])
  }

  ghost function Given(r: Ring, o: Outcome): Ring
    requires RingShape(r)
  {
    r.(mem := PutFlag(r.mem, Idx(|r.outcomes|, r.n), 0), outcomes := r.outcomes + [o])
  }

  lemma TakeCounts(r: Ring, st: Stats, i: int, o: Outcome, st': Stats)
    requires RingOk(r) && Used(r) > 0 && !o.BadOpcode? && IfaceOk(st, i, PIdle, r)
    requires var p := r.accepted[|r.outcomes|];
      st' == if i != GetDst(p.op) then st else if o.Delivered? then Passed(st, |p.data|) else Dropped(st)
    ensures IfaceOk(st', i, PIdle, Given(r, o))
  {
    OutcomeAppends(r.accepted, r.outcomes, o);
  }

  /** Dealing with the oldest packet and clearing its flag removes it from the queue. */
  lemma TakeKeeps(r: Ring, x: Rx, o: Outcome)
    requires RingOk(r) && RxOk(x, r) && x.poll.PIdle? && Used(r) > 0 && !o.BadOpcode?
    ensures RingOk(Given(r, o)) && RxOk(After(x, r.accepted[|r.outcomes|], o, r.n), Given(r, o))
    ensures SlotHolds(r.mem, Idx(|r.outcomes|, r.n), r.accepted[|r.outcomes|])
  {
    var x' := After(x, r.accepted[|r.outcomes|], o, r.n);
    Release(r, o);
    BumpIsNext(|r.outcomes|, r.n);
    OutcomeAppends(r.accepted, r.outcomes, o);
    forall i | 0 <= i < 4
      ensures IfaceOk(x'.stats[i], i, PIdle, Given(r, o))
    {
      TakeCounts(r, x.stats[i], i, o, x'.stats[i]);
    }
  }

  lemma TakeSettles(r: Ring, txIdx: nat, stats: seq<Stats>, calls: seq<nat>, x: Rx, o: Outcome)
    requires Settled(r, txIdx, stats, calls, x) && Used(r) > 0 && !o.BadOpcode?
    ensures x.idx == Idx(|r.outcomes|, r.n)
    ensures var p := r.accepted[|r.outcomes|];
      && SlotHolds(r.mem, x.idx, p) && IsIface(GetDst(p.op))
      && Settled(Given(r, o), txIdx, stats, calls, After(x, p, o, r.n))
  {
    TakeKeeps(r, x, o);
  }

  ghost function Fates(alloc: nat -> bool, c: nat, m: nat): (outs: seq<Outcome>)
    ensures |outs| == m
  {
    seq(m, k requires k >= 0 => if alloc(c + k) then Delivered else NoMemory)
  }

  lemma FatesGrow(alloc: nat -> bool, c: nat, m: nat)
    ensures Fates(alloc, c, m + 1) == Fates(alloc, c, m) + [if alloc(c + m) then Delivered else NoMemory]
  {
  }

  class Driver {
    var mem: Memory
    var n: nat
    var txIdx: nat
    var rxIdx: nat
    var txStats: seq<Stats>
    var rxStats: seq<Stats>
    var timerArmed: bool
    var napiSched: bool
    ghost var accepted: seq<Packet>
    ghost var outcomes: seq<Outcome>
    ghost var received: seq<Frame>
    ghost var calls: seq<nat>

    ghost function R(): Ring
      reads this
    {
      Ring(n, mem, accepted, outcomes)
    }

    ghost function X(): Rx
      reads this
    {
      Rx(rxIdx, PIdle, rxStats, received)
    }

    /** Published and not yet given back. */
    ghost function Queue(): seq<Packet>
      reads this
      requires |outcomes| <= |accepted|
    {
      accepted[|outcomes|..]
    }

    ghost predicate Valid()
      reads this
    {
      && Sizes(R(), txIdx, txStats, calls, X())
      && Settled(R(), txIdx, txStats, calls, X()) && timerArmed != napiSched
    }

    /** `enable_ghosting` once the region is allocated. */
    constructor (n: nat)
      requires n > 0
      ensures Valid() && this.n == n && Queue() == [] && timerArmed
    {
      mem := Memory(seq(n, _ => seq(BUF_SIZE, _ => 0)), seq(n, _ => 0), seq(n, _ => 0), seq(n, _ => 0));
      this.n := n;
      txIdx, rxIdx := 0, 0;
      txStats := seq(4, _ => Stats(0, 0, 0));
      rxStats := seq(4, _ => Stats(0, 0, 0));
      timerArmed, napiSched := true, false;
      accepted, outcomes, received, calls := [], [], [], seq(4, _ => 0);
    }

    /** The flag under the transmit index. */
    lemma FlagIsFull()
      requires Valid()
      ensures mem.flags[txIdx] == 1 <==> |Queue()| == n
      ensures |Queue()| <= n
    {
      FlagsTell(R());
    }

    /** The copy and the two metadata stores; the flag is still clear. */
    method FillSlot(t: nat, data: seq<byte>)
      requires MemOk(n, mem) && txIdx < n && |data| <= BUF_SIZE
      modifies this`mem
      ensures OnlySlot(n, old(mem), mem, txIdx) && SlotHolds(mem, txIdx, Packet(data, GhostOpcode(t)))
    {
      var k := 0;
      while k < |data|
        invariant 0 <= k <= |data|
        invariant OnlySlot(n, old(mem), mem, txIdx)
        invariant mem.bufs[txIdx][..k] == data[..k]
      {
        mem := PutByte(mem, txIdx, k, data[k]);
        k := k + 1;
      }
      mem := PutMeta(mem, txIdx, |data|, mem.ops[txIdx]);
      mem := PutMeta(mem, txIdx, mem.lens[txIdx], GhostOpcode(t));
    }

    /** `nf10_ghost_xmit`: the packet joins the tail of the queue, addressed to the peer of the
        sender, unless it is too long, the netdev is unknown, or every slot is taken. */
    method Xmit(t: nat, data: seq<byte>)
      requires Valid() && t < |txStats|
      modifies this`mem, this`txIdx, this`txStats, this`accepted, this`calls
      ensures Valid()
      ensures var ok := |data| <= BUF_SIZE && IsIface(t) && |old(Queue())| < n;
        && accepted == old(accepted) + (if ok then [Packet(data, GhostOpcode(t))] else [])
        && txStats == old(txStats)[t := if ok then Passed(old(txStats[t]), |data|) else Dropped(old(txStats[t]))]
      ensures var ok := |data| <= 2048 && t < 4 && |old(Queue())| < n;
        var op := if t == 0 then 0x08 else if t == 1 then 0x02 else if t == 2 then 0x80 else 0x20;
        && (ok <==> |accepted| == |old(accepted)| + 1)
        && (ok ==> accepted[|old(accepted)|] == Packet(data, op))
    {
      hide Settled, GhostOpcode;
      if t < 4 {
        LoopbackWord(t);
      }
      FlagIsFull();
      if |data| > BUF_SIZE || !IsIface(t) || mem.flags[txIdx] == 1 {
        DropSettles(R(), txIdx, txStats, calls, X(), t);
        calls := calls[t := calls[t] + 1];
        txStats := txStats[t := txStats[t].(dropped := txStats[t].dropped + 1)];
      } else {
        FillSlot(t, data);
        Finish(t, old(mem), Packet(data, GhostOpcode(t)));
      }
    }

    /** Raise the flag, advance the index, count the packet. */
    method Finish(t: nat, ghost before: Memory, p: Packet)
      requires Settled(R().(mem := before), txIdx, txStats, calls, X()) && timerArmed != napiSched
      requires Sizes(R(), txIdx, txStats, calls, X())
      requires t < |txStats| && IsIface(t) && Used(R()) < n && p.op == GhostOpcode(t)
      requires OnlySlot(n, before, mem, txIdx) && SlotHolds(mem, txIdx, p)
      modifies this`mem, this`txIdx, this`txStats, this`accepted, this`calls
      ensures Valid() && accepted == old(accepted) + [p]
      ensures txStats == old(txStats)[t := Passed(old(txStats[t]), |p.data|)]
    {
      hide Settled;
      SendKeeps(R().(mem := before), txIdx, txStats, calls, X(), mem, t, p);
      mem := PutFlag(mem, txIdx, 1);
      accepted := accepted + [p];
      txIdx := if txIdx + 1 == n then 0 else txIdx + 1;
      calls := calls[t := calls[t] + 1];
      txStats := txStats[t := txStats[t].(packets := txStats[t].packets + 1, bytes := txStats[t].bytes + |p.data|)];
    }

    /** `rx_poll_timer_cb`: hand over to NAPI if a packet is waiting, otherwise re-arm. */
    method TimerCallback()
      requires Valid() && timerArmed
      modifies this`timerArmed, this`napiSched
      ensures Valid() && napiSched == (Queue() != [])
    {
      timerArmed := false;
      FlagsTell(R());
      if mem.flags[rxIdx] == 1 {
        napiSched := true;
      } else {
        timerArmed := true;
      }
    }

    /** Copy the packet under the receive index into a fresh buffer and pass it up, or, if none
        could be had, count it as dropped. */
    method HandUp(allocOk: bool, ghost p: Packet)
      requires rxIdx < n && MemOk(n, mem) && |rxStats| == 4
      requires SlotHolds(mem, rxIdx, p) && IsIface(GetDst(p.op))
      modifies this`rxStats, this`received
      ensures var dst := GetDst(p.op);
        var st := old(rxStats)[dst];
        rxStats == old(rxStats)[dst := if allocOk then Passed(st, |p.data|) else Dropped(st)]
      ensures received == old(received) + if allocOk then [FrameOf(p)] else []
    {
      var dst, len := GetDst(mem.ops[rxIdx]), mem.lens[rxIdx];
      var st := rxStats[dst];
      if allocOk {
        received := received + [Frame(dst, mem.bufs[rxIdx][..len])];
        rxStats := rxStats[dst := st.(packets := st.packets + 1, bytes := st.bytes + len)];
      } else {
        rxStats := rxStats[dst := st.(dropped := st.dropped + 1)];
      }
    }

    /** The body of the poll loop: the oldest packet is handed up byte for byte, or dropped if
        no buffer can be had for it; either way its slot is given back. */
    method TakeOne(allocOk: bool)
      requires Valid() && |outcomes| < |accepted|
      modifies this`mem, this`rxIdx, this`rxStats, this`outcomes, this`received
      ensures Valid()
      ensures outcomes == old(outcomes) + [if allocOk then Delivered else NoMemory]
      ensures received == old(received) + if allocOk then [FrameOf(accepted[|old(outcomes)|])] else []
    {
      ghost var p, o := accepted[|outcomes|], if allocOk then Delivered else NoMemory;
      hide Settled, GetDst, SlotHolds, Idx;
      TakeSettles(R(), txIdx, txStats, calls, X(), o);
      HandUp(allocOk, p);
      GiveBack(o);
      assert X() == After(old(X()), p, o, n);
    }

    /** Clear the flag and advance the index. */
    method GiveBack(ghost o: Outcome)
      requires n > 0 && MemOk(n, mem) && rxIdx == Idx(|outcomes|, n)
      modifies this`mem, this`rxIdx, this`outcomes
      ensures R() == Given(old(R()), o) && outcomes == old(outcomes) + [o] && rxIdx == Bump(old(rxIdx), n)
    {
      mem := PutFlag(mem, rxIdx, 0);
      outcomes := outcomes + [o];
      rxIdx := if rxIdx + 1 == n then 0 else rxIdx + 1;
    }

    /** The flag under the receive index, read between packets. */
    lemma FlagIsQueue()
      requires Valid()
      ensures |outcomes| <= |accepted| && rxIdx < |mem.flags|
      ensures mem.flags[rxIdx] == 1 <==> Queue() != []
      ensures mem.flags[rxIdx] == 0 <==> Queue() == []
    {
      FlagsTell(R());
    }

    /** `napi_complete` and `add_timer`: back to waiting for the timer. */
    method Rest()
      requires Valid() && napiSched
      modifies this`timerArmed, this`napiSched
      ensures Valid() && timerArmed && !napiSched
    {
      hide Settled;
      napiSched := false;
      timerArmed := true;
    }

    /** `nf10_napi_struct_poll`: takes packets off the head of the queue until `budget` of them
        have been delivered or none is left; a packet whose allocation fails is dropped and does
        not count. NAPI is left scheduled exactly when something is still queued. */
    method Poll(budget: nat, alloc: nat -> bool, nth: nat) returns (done: nat, taken: nat)
      requires Valid() && napiSched && nth == |outcomes|
      modifies this`mem, this`rxIdx, this`rxStats, this`timerArmed, this`napiSched, this`outcomes, this`received
      ensures Valid()
      ensures taken == Taken(|old(Queue())|, budget, alloc, nth)
      ensures outcomes == old(outcomes) + Fates(alloc, nth, taken)
      ensures napiSched == (Queue() != []) && |received| <= |old(received)| + budget
      ensures done == if Queue() == [] then 0 else |received| - |old(received)|
    {
      hide Driver.Valid, Fates, Taken;
      var nRx := 0;
      taken := 0;
      FlagIsQueue();
      while nRx < budget && mem.flags[rxIdx] == 1
        invariant Valid() && napiSched && |outcomes| == nth + taken && nRx <= budget
        invariant |outcomes| <= |accepted| && rxIdx < |mem.flags|
        invariant mem.flags[rxIdx] == 1 <==> Queue() != []
        invariant mem.flags[rxIdx] == 0 <==> Queue() == []
        invariant Taken(|old(Queue())|, budget, alloc, nth) ==
          taken + Taken(|Queue()|, budget - nRx, alloc, nth + taken)
        invariant outcomes == old(outcomes) + Fates(alloc, nth, taken)
        invariant |received| == |old(received)| + nRx
        decreases |Queue()|
      {
        var ok := alloc(nth + taken);
        FatesGrow(alloc, nth, taken);
        TakenStep(|Queue()|, budget - nRx, alloc, nth + taken);
        TakeOne(ok);
        FlagIsQueue();
        taken := taken + 1;
        nRx := if ok then nRx + 1 else nRx;
      }
      TakenStep(|Queue()|, budget - nRx, alloc, nth + taken);
      if mem.flags[rxIdx] == 0 {
        Rest();
        done := 0;
      } else {
        done := nRx;
      }
    }

    /** The softirq polling until NAPI is no longer scheduled, no packet arriving meanwhile. */
    method Drain(budget: nat, alloc: nat -> bool, nth: nat) returns (polls: nat)
      requires Valid() && napiSched && budget > 0 && nth == |outcomes|
      modifies this`mem, this`rxIdx, this`rxStats, this`timerArmed, this`napiSched, this`outcomes, this`received
      ensures Valid() && timerArmed && Queue() == []
      ensures polls <= if |old(Queue())| == 0 then 1 else CeilDiv(|old(Queue())|, budget)
    {
      hide Settled, Fates, Taken;
      polls := 0;
      DrainsInTime(|Queue()|, budget, alloc, nth);
      ghost var total := Rounds(|Queue()|, budget, alloc, nth);
      var c := nth;
      while napiSched
        invariant c == |outcomes| && Valid() && (!napiSched ==> Queue() == [])
        invariant polls + (if napiSched then Rounds(|Queue()|, budget, alloc, |outcomes|) else 0) == total
        decreases napiSched, |Queue()|
      {
        var _, taken := Poll(budget, alloc, c);
        c := c + taken;
        polls := polls + 1;
      }
    }
  }
}

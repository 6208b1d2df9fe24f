/** The invariant of the ghost-mode machine and its preservation by every micro-step. */
module GhostRingInvariant {
  import opened Bytes
  import opened RingIndex
  import opened Opcode
  import opened Wrappers
  import opened GhostRing

  // ---- the ring: positions [c, |accepted|) are full, the rest of the lap is empty

  ghost predicate SlotHolds(mem: Memory, i: nat, p: Packet)
    requires i < |mem.bufs| == |mem.lens| == |mem.ops|
  {
    && |p.data| <= BUF_SIZE == |mem.bufs[i]|
    && mem.bufs[i][..|p.data|] == p.data
    && mem.lens[i] == |p.data| && mem.ops[i] == p.op
  }

  ghost predicate RingOk(r: Ring) {
    var c, sent := |r.outcomes|, |r.accepted|;
    && RingShape(r) && c <= sent <= c + r.n
    && (forall j :: c <= j < c + r.n ==> r.mem.flags[Idx(j, r.n)] == if j < sent then 1 else 0)
    && (forall j :: c <= j < sent ==> SlotHolds(r.mem, Idx(j, r.n), r.accepted[j]))
    && (forall j :: 0 <= j < sent ==> IsIface(GetDst(r.accepted[j].op)))
  }

  ghost function Used(r: Ring): int {
    |r.accepted| - |r.outcomes|
  }

  /** The flag word under the transmit index says whether the ring is full, the one under the
      receive index whether it is empty. */
  lemma FlagsTell(r: Ring)
    requires RingOk(r)
    ensures r.mem.flags[Idx(|r.accepted|, r.n)] == 1 <==> Used(r) == r.n
    ensures r.mem.flags[Idx(|r.outcomes|, r.n)] == 1 <==> Used(r) > 0
    ensures r.mem.flags[Idx(|r.outcomes|, r.n)] == 0 <==> Used(r) == 0
  {
    assert Idx(|r.outcomes| + r.n, r.n) == Idx(|r.outcomes|, r.n);
  }

  /** Writing into the free slot at the transmit index disturbs no queued packet. */
  lemma WriteFree(r: Ring, r': Ring)
    requires RingOk(r) && Used(r) < r.n && RingShape(r')
    requires r' == r.(mem := r'.mem) && r'.mem.flags == r.mem.flags
    requires forall i :: 0 <= i < r.n && i != Idx(|r.accepted|, r.n) ==>
      r'.mem.bufs[i] == r.mem.bufs[i] && r'.mem.lens[i] == r.mem.lens[i] && r'.mem.ops[i] == r.mem.ops[i]
    ensures RingOk(r')
  {
    forall j | |r.outcomes| <= j < |r.accepted|
      ensures SlotHolds(r'.mem, Idx(j, r.n), r.accepted[j])
    {
      SlotsDiffer(j, |r.accepted|, r.n);
    }
  }

  lemma Publish(r: Ring, p: Packet)
    requires RingOk(r) && Used(r) < r.n
    requires SlotHolds(r.mem, Idx(|r.accepted|, r.n), p) && IsIface(GetDst(p.op))
    ensures RingOk(r.(mem := PutFlag(r.mem, Idx(|r.accepted|, r.n), 1), accepted := r.accepted + [p]))
  {
    var c, sent := |r.outcomes|, |r.accepted|;
    var r' := r.(mem := PutFlag(r.mem, Idx(sent, r.n), 1), accepted := r.accepted + [p]);
    forall j | c <= j < c + r.n
      ensures r'.mem.flags[Idx(j, r.n)] == if j < sent + 1 then 1 else 0
    {
      if j < sent {
        SlotsDiffer(j, sent, r.n);
      } else if j > sent {
        SlotsDiffer(sent, j, r.n);
      }
    }
    forall j | c <= j < sent + 1
      ensures SlotHolds(r'.mem, Idx(j, r.n), r'.accepted[j])
    {
      assert j < sent ==> SlotHolds(r.mem, Idx(j, r.n), r.accepted[j]);
    }
  }

  lemma Release(r: Ring, o: Outcome)
    requires RingOk(r) && Used(r) > 0
    ensures RingOk(r.(mem := PutFlag(r.mem, Idx(|r.outcomes|, r.n), 0), outcomes := r.outcomes + [o]))
  {
    var c, sent := |r.outcomes|, |r.accepted|;
    var mem' := PutFlag(r.mem, Idx(c, r.n), 0);
    assert Idx(c + r.n, r.n) == Idx(c, r.n);
    forall j | c + 1 <= j < c + 1 + r.n
      ensures mem'.flags[Idx(j, r.n)] == if j < sent then 1 else 0
    {
      if j < c + r.n {
        SlotsDiffer(c, j, r.n);
      }
    }
    forall j | c + 1 <= j < sent
      ensures SlotHolds(mem', Idx(j, r.n), r.accepted[j])
    {
      assert SlotHolds(r.mem, Idx(j, r.n), r.accepted[j]);
    }
  }

  // ---- what the statistics count

  ghost function Weight(p: Packet, bytes: bool): nat {
    if bytes then |p.data| else 1
  }

  /** Packets (or bytes) of `ps` addressed to `dst`. */
  ghost function Total(ps: seq<Packet>, dst: int, bytes: bool): nat {
    if ps == [] then 0
    else
      var k := |ps| - 1;
      Total(ps[..k], dst, bytes) + if GetDst(ps[k].op) == dst then Weight(ps[k], bytes) else 0
  }

  /** Packets (or bytes) addressed to `dst` that met the fate `o`. */
  ghost function TotalBy(ps: seq<Packet>, outs: seq<Outcome>, o: Outcome, dst: int, bytes: bool): nat
    requires |outs| <= |ps|
  {
    if outs == [] then 0
    else
      var k := |outs| - 1;
      TotalBy(ps, outs[..k], o, dst, bytes)
      + if outs[k] == o && GetDst(ps[k].op) == dst then Weight(ps[k], bytes) else 0
  }

  /** Frames handed up, given what became of the packets taken off the ring. */
  ghost function Frames(ps: seq<Packet>, outs: seq<Outcome>): seq<Frame>
    requires |outs| <= |ps|
  {
    if outs == [] then []
    else
      var k := |outs| - 1;
      Frames(ps, outs[..k]) + if outs[k].Delivered? then [FrameOf(ps[k])] else []
  }

  ghost function FrameOf(p: Packet): Frame {
    Frame(GetDst(p.op), p.data)
  }

  ghost function Counted(st: Stats, bytes: bool): nat {
    if bytes then st.bytes else st.packets
  }

  // ---- the transmitting side

  ghost predicate HoldsLock(pc: Xmit) {
    pc.Locked? || InWrite(pc) || pc.Advancing? || pc.Unlocking? || pc.UnlockFull?
  }

  /** Published but not yet counted by its sender. */
  ghost function Uncounted(pc: Xmit, bytes: bool): nat {
    if pc.Advancing? || pc.Unlocking? || pc.Counting? then (if bytes then pc.len else 1) else 0
  }

  ghost function SentBy(t: nat, accepted: seq<Packet>, bytes: bool): nat {
    if IsIface(t) then Total(accepted, Peer(t), bytes) else 0
  }

  ghost predicate DevOk(d: Netdev, t: nat, lock: Option<nat>, accepted: seq<Packet>) {
    && (HoldsLock(d.pc) <==> lock == Some(t))
    && (d.pc.Checked? || d.pc.Locked? || InWrite(d.pc) ==> IsIface(t) && |d.pc.data| <= BUF_SIZE)
    && (d.pc.Advancing? || d.pc.Unlocking? || d.pc.Counting? ==> IsIface(t))
    && (forall b :: Counted(d.stats, b) + Uncounted(d.pc, b) == SentBy(t, accepted, b))
    && d.stats.packets + d.stats.dropped + (if d.pc.Idle? then 0 else 1) == d.calls
  }

  /** What the holder of the spinlock has written into the slot at the transmit index. */
  ghost predicate WriterOk(pc: Xmit, t: nat, r: Ring, idx: nat)
    requires RingShape(r) && idx < r.n
  {
    && (InWrite(pc) ==> Used(r) < r.n && |pc.data| <= BUF_SIZE)
    && (pc.Copying? ==> pc.k <= |pc.data| && r.mem.bufs[idx][..pc.k] == pc.data[..pc.k])
    && (pc.WriteLen? || pc.WriteOp? || pc.SetFlag? ==> r.mem.bufs[idx][..|pc.data|] == pc.data)
    && (pc.WriteOp? || pc.SetFlag? ==> r.mem.lens[idx] == |pc.data|)
    && (pc.SetFlag? ==> r.mem.ops[idx] == GhostOpcode(t))
  }

  /** 1 between setting the flag and moving the index. */
  ghost function Lag(pc: Xmit): nat {
    if pc.Advancing? then 1 else 0
  }

  ghost predicate HolderOk(x: Tx, r: Ring)
    requires RingShape(r) && x.idx < r.n
  {
    if x.lock.None? then x.idx == Idx(|r.accepted|, r.n)
    else
      && x.lock.value < |x.devs|
      && var pc := x.devs[x.lock.value].pc;
      && WriterOk(pc, x.lock.value, r, x.idx)
      && Lag(pc) <= |r.accepted| && x.idx == Idx(|r.accepted| - Lag(pc), r.n)
  }

  ghost predicate DevsOk(x: Tx, accepted: seq<Packet>) {
    && |x.devs| >= 4
    && forall t :: 0 <= t < |x.devs| ==> DevOk(x.devs[t], t, x.lock, accepted)
  }

  ghost predicate TxOk(x: Tx, r: Ring) {
    && RingShape(r) && x.idx < r.n
    && DevsOk(x, r.accepted) && HolderOk(x, r)
  }

  // ---- the receiving side

  ghost predicate Reading(p: Poll) {
    p.PRead? || p.PCopy? || p.PPass? || p.PCount? || p.PClear?
  }

  ghost predicate PollOk(p: Poll, idx: nat, r: Ring) {
    var c := |r.outcomes|;
    && RingShape(r) && c <= |r.accepted|
    && (p.PAdvance? ==> c > 0)
    && idx == Idx(if p.PAdvance? then c - 1 else c, r.n)
    && (Reading(p) ==> c < |r.accepted|)
    && (p.PCopy? ==> p.dst == GetDst(r.accepted[c].op) && p.len == |r.accepted[c].data|
                     && |p.skb| <= p.len && p.skb == r.accepted[c].data[..|p.skb|])
    && (p.PPass? ==> Frame(p.dst, p.skb) == FrameOf(r.accepted[c]))
    && (p.PCount? || p.PClear? ==> p.dst == GetDst(r.accepted[c].op))
    && (p.PClear? ==> !p.outcome.BadOpcode?)
    && (p.PAdvance? ==> p.dst == GetDst(r.accepted[c - 1].op) && p.outcome == r.outcomes[c - 1])
    && (p.PCountDrop? ==> IsIface(p.dst))
    && (forall k :: 0 <= k < c ==> !r.outcomes[k].BadOpcode?)
  }

  /** Handed up while the packet is still in its slot. */
  ghost predicate HandedEarly(p: Poll) {
    p.PCount? || (p.PClear? && p.outcome.Delivered?)
  }

  ghost predicate ReceivedOk(x: Rx, r: Ring) {
    && |r.outcomes| <= |r.accepted|
    && (HandedEarly(x.poll) ==> |r.outcomes| < |r.accepted|)
    && x.received == Frames(r.accepted, r.outcomes) +
       if HandedEarly(x.poll) then [FrameOf(r.accepted[|r.outcomes|])] else []
  }

  /** Counted as received while the packet is still in its slot. */
  ghost function CountedEarly(p: Poll, dst: int, r: Ring, bytes: bool): nat {
    if p.PClear? && p.outcome.Delivered? && p.dst == dst && |r.outcomes| < |r.accepted|
    then Weight(r.accepted[|r.outcomes|], bytes) else 0
  }

  /** Dropped but not yet counted as such. */
  ghost function UncountedDrop(p: Poll, dst: int): nat {
    if ((p.PAdvance? && p.outcome.NoMemory?) || p.PCountDrop?) && p.dst == dst then 1 else 0
  }

  ghost predicate IfaceOk(st: Stats, dst: int, p: Poll, r: Ring) {
    && |r.outcomes| <= |r.accepted|
    && (forall b :: Counted(st, b) == TotalBy(r.accepted, r.outcomes, Delivered, dst, b) + CountedEarly(p, dst, r, b))
    && st.dropped + UncountedDrop(p, dst) == TotalBy(r.accepted, r.outcomes, NoMemory, dst, false)
  }

  ghost predicate RxOk(x: Rx, r: Ring) {
    && |x.stats| == 4 && PollOk(x.poll, x.idx, r) && ReceivedOk(x, r)
    && forall i :: 0 <= i < 4 ==> IfaceOk(x.stats[i], i, x.poll, r)
  }

  /** The right to look at the receive index: exactly one of the armed timer, the running
      callback, the scheduled NAPI context and the poll about to re-arm has it. */
  ghost predicate TokenOk(k: Token, p: Poll) {
    && (if k.timerArmed then 1 else 0) + (if k.cb.CIdle? then 0 else 1)
       + (if k.napiSched then 1 else 0) + (if p.PRearm? then 1 else 0) == 1
    && (!p.PIdle? ==> k.napiSched || p.PRearm?)
  }

  ghost predicate Inv(s: State) {
    && Shape(s) && !s.fault
    && RingOk(s.ring) && TxOk(s.tx, s.ring) && RxOk(s.rx, s.ring) && TokenOk(s.token, s.rx.poll)
  }

  lemma InitInv(s: State)
    requires Init(s)
    ensures Inv(s)
  {
  }

  // ---- transmit steps

  /** Netdev `t` alone: its own record stays consistent when it publishes nothing. */
  lemma DevStep(r: Ring, x: Tx, t: nat)
    requires RingShape(r) && x.idx < r.n && t < |x.devs| && DevOk(x.devs[t], t, x.lock, r.accepted)
    requires !x.devs[t].pc.Idle? && !x.devs[t].pc.SetFlag? && (x.devs[t].pc.Checked? ==> x.lock.None?)
    ensures var x' := XmitTx(r, x, t); DevOk(x'.devs[t], t, x'.lock, r.accepted)
  {
    var x' := XmitTx(r, x, t);
    assert forall b :: Counted(x'.devs[t].stats, b) + Uncounted(x'.devs[t].pc, b)
                       == Counted(x.devs[t].stats, b) + Uncounted(x.devs[t].pc, b);
  }

  /** A move of netdev `t` leaves every other netdev as it was. */
  lemma OthersStay(r: Ring, x: Tx, t: nat)
    requires RingShape(r) && x.idx < r.n && t < |x.devs| && DevsOk(x, r.accepted)
    requires x.devs[t].pc.Checked? ==> x.lock.None?
    ensures var x' := XmitTx(r, x, t);
      forall u :: 0 <= u < |x.devs| && u != t ==> DevOk(x'.devs[u], u, x'.lock, r.accepted)
  {
    assert DevOk(x.devs[t], t, x.lock, r.accepted);
  }

  lemma XmitKeepsHolder(r: Ring, x: Tx, t: nat)
    requires RingOk(r) && x.idx < r.n && HolderOk(x, r)
    requires t < |x.devs| && DevOk(x.devs[t], t, x.lock, r.accepted)
    requires !InWrite(x.devs[t].pc) && (x.devs[t].pc.Checked? ==> x.lock.None?)
    ensures HolderOk(XmitTx(r, x, t), r)
  {
    if x.devs[t].pc.Locked? {
      FlagsTell(r);
    } else if x.devs[t].pc.Advancing? {
      BumpIsNext(|r.accepted| - 1, r.n);
    }
    hide RingOk, Idx;
  }

  /** Filling the slot: only the lock holder writes, and only into the free slot. */
  lemma XmitFills(r: Ring, x: Tx, t: nat)
    requires RingOk(r) && t < |x.devs| && TxOk(x, r)
    requires InWrite(x.devs[t].pc) && !x.devs[t].pc.SetFlag?
    ensures var r' := XmitMem(r, x.idx, t, x.devs[t].pc); RingOk(r') && HolderOk(XmitTx(r, x, t), r')
    ensures !XmitFaults(x.devs[t].pc)
  {
    assert DevOk(x.devs[t], t, x.lock, r.accepted);
    WriteFree(r, XmitMem(r, x.idx, t, x.devs[t].pc));
  }

  /** A packet is turned away exactly when every slot is taken. */
  lemma FullMeansFull(r: Ring, x: Tx, t: nat)
    requires RingOk(r) && t < |x.devs| && TxOk(x, r) && x.devs[t].pc.Locked?
    ensures XmitTx(r, x, t).devs[t].pc.UnlockFull? <==> Used(r) == r.n
  {
    assert DevOk(x.devs[t], t, x.lock, r.accepted);
    FlagsTell(r);
  }

  lemma TotalAppends(ps: seq<Packet>, p: Packet, dst: int, b: bool)
    ensures Total(ps + [p], dst, b) == Total(ps, dst, b) + if GetDst(p.op) == dst then Weight(p, b) else 0
  {
    assert (ps + [p])[..|ps|] == ps;
  }

  /** Publishing: the packet joins the total of its sender and of nobody else. */
  lemma PublishCounts(x: Tx, x': Tx, t: nat, acc: seq<Packet>, p: Packet)
    requires DevsOk(x, acc) && t < |x.devs| && x.devs[t].pc.SetFlag?
    requires p == Packet(x.devs[t].pc.data, GhostOpcode(t)) && x' == Goto(x, t, Advancing(|p.data|))
    ensures IsIface(GetDst(p.op)) && DevsOk(x', acc + [p])
  {
    assert DevOk(x.devs[t], t, x.lock, acc);
    SetDstRoundTrip(0, Peer(t));
    forall u | 0 <= u < |x.devs|
      ensures DevOk(x'.devs[u], u, x'.lock, acc + [p])
    {
      assert DevOk(x.devs[u], u, x.lock, acc);
      TotalAppends(acc, p, Peer(u), true);
      TotalAppends(acc, p, Peer(u), false);
    }
  }

  lemma XmitPublishes(r: Ring, x: Tx, t: nat)
    requires RingOk(r) && t < |x.devs| && TxOk(x, r) && x.devs[t].pc.SetFlag?
    ensures var r' := XmitMem(r, x.idx, t, x.devs[t].pc); RingOk(r') && TxOk(XmitTx(r, x, t), r')
  {
    var p := Packet(x.devs[t].pc.data, GhostOpcode(t));
    assert DevOk(x.devs[t], t, x.lock, r.accepted);
    PublishCounts(x, XmitTx(r, x, t), t, r.accepted, p);
    Publish(r, p);
  }

  lemma {:induction false} HistoryGrows(ps: seq<Packet>, p: Packet, outs: seq<Outcome>)
    requires |outs| <= |ps|
    ensures Frames(ps + [p], outs) == Frames(ps, outs)
    ensures forall o, dst, b :: TotalBy(ps + [p], outs, o, dst, b) == TotalBy(ps, outs, o, dst, b)
  {
    if outs != [] {
      HistoryGrows(ps, p, outs[..|outs| - 1]);
    }
  }

  /** The receiving side does not notice a publication. */
  lemma PublishKeepsRx(r: Ring, x: Rx, r': Ring, p: Packet)
    requires RxOk(x, r) && RingShape(r') && r'.n == r.n
    requires r'.outcomes == r.outcomes && r'.accepted == r.accepted + [p]
    ensures RxOk(x, r')
  {
    HistoryGrows(r.accepted, p, r.outcomes);
    forall i | 0 <= i < 4
      ensures IfaceOk(x.stats[i], i, x.poll, r')
    {
      assert IfaceOk(x.stats[i], i, x.poll, r);
    }
  }

  /** Nor does it look at buffers, lengths or opcodes other than through the queue. */
  lemma MemKeepsRx(r: Ring, x: Rx, r': Ring)
    requires RxOk(x, r) && RingShape(r') && r' == r.(mem := r'.mem)
    ensures RxOk(x, r')
  {
    forall i | 0 <= i < 4
      ensures IfaceOk(x.stats[i], i, x.poll, r')
    {
      assert IfaceOk(x.stats[i], i, x.poll, r);
    }
  }

  lemma XmitKeepsTx(r: Ring, x: Tx, t: nat)
    requires RingOk(r) && TxOk(x, r) && t < |x.devs|
    requires !x.devs[t].pc.Idle? && !x.devs[t].pc.SetFlag? && (x.devs[t].pc.Checked? ==> x.lock.None?)
    ensures var r' := XmitMem(r, x.idx, t, x.devs[t].pc);
      RingOk(r') && TxOk(XmitTx(r, x, t), r') && r' == r.(mem := r'.mem)
    ensures !XmitFaults(x.devs[t].pc)
  {
    assert DevOk(x.devs[t], t, x.lock, r.accepted);
    DevStep(r, x, t);
    OthersStay(r, x, t);
    if InWrite(x.devs[t].pc) {
      XmitFills(r, x, t);
    } else {
      XmitKeepsHolder(r, x, t);
    }
  }

  lemma XmitInv(s: State, t: nat)
    requires Inv(s) && Enabled(s, XmitStep(t))
    ensures Inv(Apply(s, XmitStep(t)))
  {
    var s' := Apply(s, XmitStep(t));
    if s.tx.devs[t].pc.SetFlag? {
      XmitPublishes(s.ring, s.tx, t);
      PublishKeepsRx(s.ring, s.rx, s'.ring, Packet(s.tx.devs[t].pc.data, GhostOpcode(t)));
    } else {
      XmitKeepsTx(s.ring, s.tx, t);
      MemKeepsRx(s.ring, s.rx, s'.ring);
    }
  }

  // ---- poll steps

  /** The poll stays on the oldest packet, and every access it makes is inside its slot. */
  lemma PollStepOk(r: Ring, x: Rx, k: Token, allocOk: bool)
    requires RingOk(r) && |x.stats| == 4 && PollOk(x.poll, x.idx, r) && TokenOk(k, x.poll)
    requires !x.poll.PClear?
    ensures var x' := PollRx(r, x, allocOk); PollOk(x'.poll, x'.idx, r)
    ensures !PollFaults(k, x.poll)
  {
    FlagsTell(r);
    if Reading(x.poll) {
      assert SlotHolds(r.mem, Idx(|r.outcomes|, r.n), r.accepted[|r.outcomes|]);
    } else if x.poll.PAdvance? {
      BumpIsNext(|r.outcomes| - 1, r.n);
    }
  }

  /** Steps that touch no counter leave nothing newly owed or newly counted. */
  lemma QuietStep(r: Ring, x: Rx, allocOk: bool, i: int)
    requires RingShape(r) && |x.stats| == 4 && PollOk(x.poll, x.idx, r)
    requires !x.poll.PClear? && !x.poll.PCount? && !x.poll.PCountDrop?
    ensures var x' := PollRx(r, x, allocOk);
      && x'.stats == x.stats && UncountedDrop(x'.poll, i) == UncountedDrop(x.poll, i)
      && forall b :: CountedEarly(x'.poll, i, r, b) == CountedEarly(x.poll, i, r, b)
  {
  }

  lemma IfaceStep(r: Ring, x: Rx, allocOk: bool, i: int)
    requires RingShape(r) && |x.stats| == 4 && PollOk(x.poll, x.idx, r) && !x.poll.PClear?
    requires x.poll.PCount? ==> r.mem.lens[x.idx] == |r.accepted[|r.outcomes|].data|
    requires 0 <= i < 4 && IfaceOk(x.stats[i], i, x.poll, r)
    ensures var x' := PollRx(r, x, allocOk); IfaceOk(x'.stats[i], i, x'.poll, r)
  {
    if !x.poll.PCount? && !x.poll.PCountDrop? {
      QuietStep(r, x, allocOk, i);
    }
  }

  lemma PollKeepsRx(r: Ring, x: Rx, k: Token, allocOk: bool)
    requires RingOk(r) && RxOk(x, r) && TokenOk(k, x.poll) && !x.poll.PClear?
    ensures RxOk(PollRx(r, x, allocOk), r) && !PollFaults(k, x.poll)
  {
    PollStepOk(r, x, k, allocOk);
    if x.poll.PCount? {
      assert SlotHolds(r.mem, Idx(|r.outcomes|, r.n), r.accepted[|r.outcomes|]);
    }
    var x' := PollRx(r, x, allocOk);
    forall i | 0 <= i < 4
      ensures IfaceOk(x'.stats[i], i, x'.poll, r)
    {
      IfaceStep(r, x, allocOk, i);
    }
  }

  lemma OutcomeAppends(ps: seq<Packet>, outs: seq<Outcome>, o: Outcome)
    requires |outs| < |ps|
    ensures Frames(ps, outs + [o]) == Frames(ps, outs) + if o.Delivered? then [FrameOf(ps[|outs|])] else []
    ensures forall f, dst, b ::
      TotalBy(ps, outs + [o], f, dst, b) == TotalBy(ps, outs, f, dst, b)
      + (if f == o && GetDst(ps[|outs|].op) == dst then Weight(ps[|outs|], b) else 0)
  {
    assert (outs + [o])[..|outs|] == outs;
  }

  lemma ClearCounts(r: Ring, x: Rx, r': Ring, x': Rx, i: int)
    requires RingOk(r) && PollOk(x.poll, x.idx, r) && x.poll.PClear? && |x.stats| == 4
    requires 0 <= i < 4 && IfaceOk(x.stats[i], i, x.poll, r)
    requires r'.accepted == r.accepted && r'.outcomes == r.outcomes + [x.poll.outcome]
    requires x'.stats == x.stats && x'.poll == PAdvance(x.poll.budget, x.poll.done, x.poll.dst, x.poll.outcome)
    ensures IfaceOk(x'.stats[i], i, x'.poll, r')
  {
    OutcomeAppends(r.accepted, r.outcomes, x.poll.outcome);
  }

  /** Giving a slot back: the packet moves from the queue into the history. */
  lemma ClearInv(r: Ring, x: Rx, allocOk: bool)
    requires RingOk(r) && RxOk(x, r) && x.poll.PClear?
    ensures var r' := PollMem(r, x.idx, x.poll); RingOk(r') && RxOk(PollRx(r, x, allocOk), r')
  {
    var r', x' := PollMem(r, x.idx, x.poll), PollRx(r, x, allocOk);
    Release(r, x.poll.outcome);
    OutcomeAppends(r.accepted, r.outcomes, x.poll.outcome);
    forall i | 0 <= i < 4
      ensures IfaceOk(x'.stats[i], i, x'.poll, r')
    {
      ClearCounts(r, x, r', x', i);
    }
  }

  lemma ClearKeepsTx(r: Ring, x: Tx, idx: nat, p: Poll)
    requires TxOk(x, r) && idx < r.n && p.PClear?
    ensures TxOk(x, PollMem(r, idx, p))
  {
  }

  lemma PollKeepsToken(r: Ring, idx: nat, k: Token, p: Poll, allocOk: bool)
    requires RingShape(r) && idx < r.n && TokenOk(k, p) && !p.PIdle?
    ensures TokenOk(PollToken(k, p), PollNext(r, idx, p, allocOk))
  {
  }

  lemma PollInv(s: State, allocOk: bool)
    requires Inv(s) && Enabled(s, PollStep(allocOk))
    ensures Inv(Apply(s, PollStep(allocOk)))
  {
    var r', x' := PollMem(s.ring, s.rx.idx, s.rx.poll), PollRx(s.ring, s.rx, allocOk);
    assert RingOk(r') && RxOk(x', r') && !PollFaults(s.token, s.rx.poll) by {
      if s.rx.poll.PClear? {
        ClearInv(s.ring, s.rx, allocOk);
      } else {
        PollKeepsRx(s.ring, s.rx, s.token, allocOk);
      }
    }
    assert TxOk(s.tx, r') by {
      if s.rx.poll.PClear? {
        ClearKeepsTx(s.ring, s.tx, s.rx.idx, s.rx.poll);
      }
    }
    assert TokenOk(PollToken(s.token, s.rx.poll), x'.poll) by {
      PollKeepsToken(s.ring, s.rx.idx, s.token, s.rx.poll, allocOk);
    }
  }

  lemma BeginInv(s: State, t: nat, data: seq<byte>)
    requires Inv(s) && Enabled(s, Begin(t, data))
    ensures Inv(Apply(s, Begin(t, data)))
  {
    var x, x' := s.tx, Apply(s, Begin(t, data)).tx;
    assert DevOk(x.devs[t], t, x.lock, s.ring.accepted);
    forall u | 0 <= u < |x.devs|
      ensures DevOk(x'.devs[u], u, x'.lock, s.ring.accepted)
    {
      assert DevOk(x.devs[u], u, x.lock, s.ring.accepted);
    }
  }

  lemma StepInv(s: State, step: Step)
    requires Inv(s) && Enabled(s, step)
    ensures Inv(Apply(s, step))
  {
    match step
    case Begin(t, data) => BeginInv(s, t, data);
    case XmitStep(t) => XmitInv(s, t);
    case PollStep(allocOk) => PollInv(s, allocOk);
    case _ =>
  }
}

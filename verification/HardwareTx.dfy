/** Hardware mode: any number of netdevs call `nf10_ndo_start_xmit`; the one that holds the lock
    fills the transmit ring in micro-steps, while the device, concurrently, takes filled buffers in
    ring order and releases them. A zero flag means full; any other value means free. */
module HardwareTx {
  import opened Bytes
  import opened RingIndex
  import opened Opcode
  import opened Wrappers
  import opened GhostRing
  import Ledger = GhostRingInvariant

  const PKT_SIZE_MIN := 33
  const PKT_SIZE_MAX := 1514

  /** `memset` of every byte of a flag to 1. */
  const FREE_AT_START := 0x0101_0101

  // ---- the ring

  /** Where the call that holds the lock stands. */
  datatype Sending =
    | NoCall
    | Testing(p: Packet)
    | Filling(p: Packet, k: nat)
    | PutLength(p: Packet)
    | PutOpcode(p: Packet)
    | MarkFull(p: Packet)
    | RingBell(p: Packet)
    | MoveOn(p: Packet)

  /** The ring, `tx_dma_stream.buf_index`, the call in the critical section, and the doorbells rung.
      `accepted` and `seen` are the histories of what was marked full and of what the device
      took. */
  datatype Core = Core(
    n: nat, mem: Memory, idx: nat, pc: Sending, accepted: seq<Packet>, seen: seq<Packet>, doorbells: nat)

  ghost predicate Shape(s: Core) {
    s.n > 0 && MemOk(s.n, s.mem) && s.idx < s.n
  }

  /** The device's next buffer. */
  function Turn(s: Core): (i: nat)
    requires s.n > 0
    ensures i < s.n
  {
    Idx(|s.seen|, s.n)
  }

  function PacketAt(mem: Memory, i: nat): Packet
    requires MemOk(|mem.bufs|, mem) && i < |mem.bufs|
  {
    Packet(if mem.lens[i] <= BUF_SIZE then mem.bufs[i][..mem.lens[i]] else mem.bufs[i], mem.ops[i])
  }

  /** One micro-step in the critical section. */
  function CoreStep(s: Core): (s': Core)
    requires Shape(s)
    ensures Shape(s') && s'.n == s.n && s'.seen == s.seen
    ensures s'.accepted == s.accepted + (if s.pc.MarkFull? then [s.pc.p] else [])
  {
    match s.pc
    case NoCall => s
    case Testing(p) => s.(pc := if s.mem.flags[s.idx] == 0 then NoCall else Filling(p, 0))
    case Filling(p, k) =>
      if k < |p.data| && k < BUF_SIZE then s.(mem := PutByte(s.mem, s.idx, k, p.data[k]), pc := Filling(p, k + 1))
      else s.(pc := PutLength(p))
    case PutLength(p) => s.(mem := PutMeta(s.mem, s.idx, |p.data|, s.mem.ops[s.idx]), pc := PutOpcode(p))
    case PutOpcode(p) => s.(mem := PutMeta(s.mem, s.idx, s.mem.lens[s.idx], p.op), pc := MarkFull(p))
    case MarkFull(p) => s.(mem := PutFlag(s.mem, s.idx, 0), accepted := s.accepted + [p], pc := RingBell(p))
    case RingBell(p) => s.(doorbells := s.doorbells + 1, pc := MoveOn(p))
    case MoveOn(p) => s.(idx := Bump(s.idx, s.n), pc := NoCall)
  }

  /** The device takes the buffer in its turn and frees it. */
  function TakeNext(s: Core, flag: nat): (s': Core)
    requires Shape(s)
    ensures Shape(s') && s'.n == s.n && s'.accepted == s.accepted && s'.pc == s.pc
  {
    s.(mem := PutFlag(s.mem, Turn(s), flag), seen := s.seen + [PacketAt(s.mem, Turn(s))])
  }

  // ---- the callers

  /** Where a netdev's transmit call stands outside the critical section. */
  datatype Caller =
    | Away
    | Entered(data: seq<byte>, ready: bool)
    | Waiting(data: seq<byte>)
    | Inside
    | Counting(len: nat)
    | Dropping

  datatype Dev = Dev(pc: Caller, stats: Stats, calls: nat)

  /** The ring, the holder of the spinlock, and the netdevs; the first four are `nf10_netdevs`, any
      other is unknown to the driver. */
  datatype Device = Device(core: Core, lock: Option<nat>, devs: seq<Dev>)

  datatype Event = Call(t: nat, data: seq<byte>, ready: bool) | Outside(t: nat) | Inner | Release(flag: nat)

  ghost predicate Whole(s: Device) {
    Shape(s.core) && |s.devs| >= 4 && (s.lock.Some? ==> s.lock.value < |s.devs|)
  }

  /** How `probe` leaves the transmit stream, whatever the buffers hold. */
  ghost predicate Start(s: Device) {
    && Whole(s) && s.lock.None?
    && (forall i :: 0 <= i < s.core.n ==> s.core.mem.flags[i] == FREE_AT_START)
    && s.core == Core(s.core.n, s.core.mem, 0, NoCall, [], [], 0)
    && (forall t :: 0 <= t < |s.devs| ==> s.devs[t] == Dev(Away, Stats(0, 0, 0), 0))
  }

  /** A call gets as far as the lock only with an acceptable length, a working device and a known
      interface. */
  predicate Sendable(data: seq<byte>, t: nat, ready: bool) {
    PKT_SIZE_MIN <= |data| <= PKT_SIZE_MAX && |data| <= BUF_SIZE && ready && IsIface(t)
  }

  ghost predicate Enabled(s: Device, e: Event)
    requires Whole(s)
  {
    match e
    case Call(t, _, _) => t < |s.devs| && s.devs[t].pc.Away?
    case Outside(t) =>
      && t < |s.devs| && !s.devs[t].pc.Away? && !s.devs[t].pc.Inside?
      && (s.devs[t].pc.Waiting? ==> s.lock.None?)
    case Inner => s.lock.Some?
    case Release(flag) => flag != 0 && s.core.mem.flags[Turn(s.core)] == 0
  }

  /** The packet a call brings to the ring. Towards the device the CPU bits name the sender. */
  function PacketOf(t: nat, data: seq<byte>): Packet {
    Packet(data, SetDst(0, t))
  }

  function Dropped(d: Dev): Dev {
    d.(pc := Away, stats := d.stats.(dropped := d.stats.dropped + 1))
  }

  function Passed(d: Dev, len: nat): Dev {
    d.(pc := Away, stats := d.stats.(packets := d.stats.packets + 1, bytes := d.stats.bytes + len))
  }

  /** A step of a call outside the critical section. */
  function OuterStep(s: Device, t: nat): (s': Device)
    requires Whole(s) && t < |s.devs|
    ensures Whole(s') && s'.core.n == s.core.n
  {
    var d := s.devs[t];
    match d.pc
    case Entered(data, ready) =>
      s.(devs := s.devs[t := d.(pc := if Sendable(data, t, ready) then Waiting(data) else Caller.Dropping)])
    case Waiting(data) =>
      Device(s.core.(pc := Testing(PacketOf(t, data))), Some(t), s.devs[t := d.(pc := Inside)])
    case Counting(len) => s.(devs := s.devs[t := Passed(d, len)])
    case Dropping => s.(devs := s.devs[t := Dropped(d)])
    case _ => s
  }

  /** A step of the call that holds the lock. It leaves when the ring turns out to be full, or when
      the index has moved on. */
  function InnerStep(s: Device): (s': Device)
    requires Whole(s) && s.lock.Some?
    ensures Whole(s') && s'.core.n == s.core.n
  {
    var core, t := CoreStep(s.core), s.lock.value;
    match s.core.pc
    case Testing(_) =>
      if core.pc.NoCall? then Device(core, None, s.devs[t := Dropped(s.devs[t])]) else s.(core := core)
    case MoveOn(p) => Device(core, None, s.devs[t := s.devs[t].(pc := Caller.Counting(|p.data|))])
    case _ => s.(core := core)
  }

  function Apply(s: Device, e: Event): (s': Device)
    requires Whole(s) && (e.Call? || e.Outside? ==> e.t < |s.devs|) && (e.Inner? ==> s.lock.Some?)
    ensures Whole(s') && s'.core.n == s.core.n
  {
    match e
    case Call(t, data, ready) =>
      s.(devs := s.devs[t := s.devs[t].(pc := Caller.Entered(data, ready), calls := s.devs[t].calls + 1)])
    case Outside(t) => OuterStep(s, t)
    case Inner => InnerStep(s)
    case Release(flag) => s.(core := TakeNext(s.core, flag))
  }

  // ---- the invariant

  /** Positions from `c` up to `p` are full, the rest of the lap is free. */
  ghost predicate FullBetween(n: nat, flags: seq<nat>, c: nat, p: nat) {
    && n > 0 && |flags| == n && c <= p <= c + n
    && (forall j :: c <= j < p ==> flags[Idx(j, n)] == 0)
    && (forall j :: p <= j < c + n ==> flags[Idx(j, n)] != 0)
  }

  ghost predicate Stored(mem: Memory, i: nat, p: Packet)
    requires MemOk(|mem.bufs|, mem) && i < |mem.bufs|
  {
    |p.data| <= BUF_SIZE && PacketAt(mem, i) == p && mem.lens[i] == |p.data|
  }

  ghost predicate Contents(n: nat, mem: Memory, accepted: seq<Packet>, c: nat)
    requires n > 0 && MemOk(n, mem)
  {
    forall j :: c <= j < |accepted| ==> Stored(mem, Idx(j, n), accepted[j])
  }

  /** How far the call in progress has got with its slot. */
  ghost predicate Progress(s: Core)
    requires Shape(s)
  {
    var done := if s.pc.RingBell? || s.pc.MoveOn? then 1 else 0;
    && |s.accepted| >= done && s.idx == Idx(|s.accepted| - done, s.n)
    && (!s.pc.NoCall? ==> |s.pc.p.data| <= BUF_SIZE)
    && (InSlot(s.pc) ==> |s.accepted| < |s.seen| + s.n)
    && match s.pc
       case Filling(p, k) => k <= |p.data| && s.mem.bufs[s.idx][..k] == p.data[..k]
       case PutLength(p) => s.mem.bufs[s.idx][..|p.data|] == p.data
       case PutOpcode(p) => s.mem.bufs[s.idx][..|p.data|] == p.data && s.mem.lens[s.idx] == |p.data|
       case MarkFull(p) => Stored(s.mem, s.idx, p)
       case _ => true
  }

  predicate InSlot(pc: Sending) {
    pc.Filling? || pc.PutLength? || pc.PutOpcode? || pc.MarkFull?
  }

  ghost predicate CoreInv(s: Core) {
    && Shape(s) && FullBetween(s.n, s.mem.flags, |s.seen|, |s.accepted|)
    && Contents(s.n, s.mem, s.accepted, |s.seen|) && Progress(s)
    && |s.seen| <= |s.accepted| && s.seen == s.accepted[..|s.seen|]
    && s.doorbells == |s.accepted| - (if s.pc.RingBell? then 1 else 0)
  }

  // ---- the books

  /** What netdev `t` has had accepted. */
  ghost function Sent(t: nat, accepted: seq<Packet>, bytes: bool): nat {
    if IsIface(t) then Ledger.Total(accepted, t, bytes) else 0
  }

  /** Accepted but not yet counted by its sender. */
  ghost function Pending(d: Dev, pc: Sending, bytes: bool): nat {
    if d.pc.Counting? then (if bytes then d.pc.len else 1)
    else if d.pc.Inside? && (pc.RingBell? || pc.MoveOn?) then Ledger.Weight(pc.p, bytes)
    else 0
  }

  ghost predicate DevOk(d: Dev, t: nat, lock: Option<nat>, pc: Sending, accepted: seq<Packet>) {
    && (d.pc.Inside? <==> lock == Some(t))
    && (d.pc.Waiting? ==> IsIface(t) && |d.pc.data| <= BUF_SIZE)
    && (d.pc.Counting? ==> IsIface(t))
    && (forall b :: Ledger.Counted(d.stats, b) + Pending(d, pc, b) == Sent(t, accepted, b))
    && d.stats.packets + d.stats.dropped + (if d.pc.Away? then 0 else 1) == d.calls
  }

  ghost predicate DevsOk(s: Device) {
    forall t :: 0 <= t < |s.devs| ==> DevOk(s.devs[t], t, s.lock, s.core.pc, s.core.accepted)
  }

  /** The lock is held exactly while a call is in the critical section, and that call carries its
      holder's packet. */
  ghost predicate LockOk(lock: Option<nat>, pc: Sending) {
    && (lock.None? <==> pc.NoCall?)
    && (lock.Some? ==> IsIface(lock.value) && pc.p.op == SetDst(0, lock.value))
  }

  ghost predicate Inv(s: Device) {
    Whole(s) && CoreInv(s.core) && LockOk(s.lock, s.core.pc) && DevsOk(s)
  }

  // ---- keeping it

  lemma Lap(j: nat, n: nat)
    requires n > 0
    ensures Idx(j + n, n) == Idx(j, n)
  {
  }

  lemma FillOne(n: nat, flags: seq<nat>, c: nat, p: nat)
    requires FullBetween(n, flags, c, p) && p < c + n
    ensures FullBetween(n, flags[Idx(p, n) := 0], c, p + 1)
  {
    forall j | c <= j < c + n && j != p
      ensures Idx(j, n) != Idx(p, n)
    {
      if j < p {
        SlotsDiffer(j, p, n);
      } else {
        SlotsDiffer(p, j, n);
      }
    }
  }

  lemma FreeOne(n: nat, flags: seq<nat>, c: nat, p: nat, flag: nat)
    requires FullBetween(n, flags, c, p) && c < p && flag != 0
    ensures FullBetween(n, flags[Idx(c, n) := flag], c + 1, p)
  {
    Lap(c, n);
    forall j | c < j < c + n
      ensures Idx(j, n) != Idx(c, n)
    {
      SlotsDiffer(c, j, n);
    }
  }

  /** The device finds a zero flag in its turn only if something is there for it. */
  lemma ZeroMeansFull(n: nat, flags: seq<nat>, c: nat, p: nat)
    requires FullBetween(n, flags, c, p)
    ensures flags[Idx(c, n)] == 0 <==> c < p
    ensures flags[Idx(p, n)] == 0 <==> p == c + n
  {
    Lap(c, n);
  }

  /** Writing the slot under construction leaves all full slots as they are. */
  lemma SlotsApart(n: nat, c: nat, p: nat)
    requires n > 0 && c <= p < c + n
    ensures forall j :: c <= j < p ==> Idx(j, n) != Idx(p, n)
  {
    forall j | c <= j < p
      ensures Idx(j, n) != Idx(p, n)
    {
      SlotsDiffer(j, p, n);
    }
  }

  lemma {:induction false} FillingInv(s: Core)
    requires CoreInv(s) && InSlot(s.pc) && !s.pc.MarkFull?
    ensures CoreInv(CoreStep(s))
  {
    hide Idx, FullBetween;
    SlotsApart(s.n, |s.seen|, |s.accepted|);
  }

  lemma {:induction false} TestingInv(s: Core)
    requires CoreInv(s) && s.pc.Testing?
    ensures CoreInv(CoreStep(s))
  {
    ZeroMeansFull(s.n, s.mem.flags, |s.seen|, |s.accepted|);
  }

  lemma {:induction false} MarkFullInv(s: Core)
    requires CoreInv(s) && s.pc.MarkFull?
    ensures CoreInv(CoreStep(s))
  {
    hide Idx, FullBetween;
    FillOne(s.n, s.mem.flags, |s.seen|, |s.accepted|);
    SlotsApart(s.n, |s.seen|, |s.accepted|);
  }

  lemma {:induction false} AfterInv(s: Core)
    requires CoreInv(s) && (s.pc.RingBell? || s.pc.MoveOn?)
    ensures CoreInv(CoreStep(s))
  {
    hide Idx, FullBetween, Contents;
    BumpIsNext(|s.accepted| - 1, s.n);
  }

  lemma {:induction false} BeginInv(s: Core, p: Packet)
    requires CoreInv(s) && s.pc.NoCall? && |p.data| <= BUF_SIZE
    ensures CoreInv(s.(pc := Testing(p)))
  {
    hide Idx, FullBetween, Contents;
  }

  lemma {:induction false} ReleaseInv(s: Core, flag: nat)
    requires CoreInv(s) && flag != 0 && s.mem.flags[Turn(s)] == 0
    ensures CoreInv(TakeNext(s, flag))
  {
    hide Idx, FullBetween;
    ZeroMeansFull(s.n, s.mem.flags, |s.seen|, |s.accepted|);
    FreeOne(s.n, s.mem.flags, |s.seen|, |s.accepted|, flag);
    assert Stored(s.mem, Turn(s), s.accepted[|s.seen|]);
  }

  lemma {:induction false} CoreStepInv(s: Core)
    requires CoreInv(s)
    ensures CoreInv(CoreStep(s))
  {
    assert Shape(s);
    hide CoreInv, Shape;
    match s.pc
    case NoCall =>
    case Testing(_) => TestingInv(s);
    case MarkFull(_) => MarkFullInv(s);
    case RingBell(_) => AfterInv(s);
    case MoveOn(_) => AfterInv(s);
    case _ => FillingInv(s);
  }

  // ---- the callers' side

  /** Accepting a packet adds to what its sender has sent and to nobody else's. */
  lemma {:induction false} AcceptCounts(t: nat, h: nat, accepted: seq<Packet>, p: Packet, bytes: bool)
    requires IsIface(h) && p.op == SetDst(0, h)
    ensures Sent(t, accepted + [p], bytes) == Sent(t, accepted, bytes) + if t == h then Ledger.Weight(p, bytes) else 0
  {
    hide GetDst, SetDst;
    SetDstRoundTrip(0, h);
    Ledger.TotalAppends(accepted, p, t, bytes);
  }

  lemma {:induction false} InnerDevOk(s: Device, t: nat)
    requires Whole(s) && s.lock.Some? && LockOk(s.lock, s.core.pc) && t < |s.devs|
    requires DevOk(s.devs[t], t, s.lock, s.core.pc, s.core.accepted)
    ensures var s' := InnerStep(s); DevOk(s'.devs[t], t, s'.lock, s'.core.pc, s'.core.accepted)
  {
    hide SetDst, MemOk, PutByte, PutMeta, PutFlag, Ledger.Total, Idx;
    if s.core.pc.MarkFull? {
      AcceptCounts(t, s.lock.value, s.core.accepted, s.core.pc.p, true);
      AcceptCounts(t, s.lock.value, s.core.accepted, s.core.pc.p, false);
    }
  }

  lemma {:induction false} InnerInv(s: Device)
    requires Inv(s) && s.lock.Some?
    ensures Inv(InnerStep(s))
  {
    var s' := InnerStep(s);
    hide CoreInv, DevOk;
    CoreStepInv(s.core);
    forall t: int | 0 <= t < |s'.devs|
      ensures DevOk(s'.devs[t], t, s'.lock, s'.core.pc, s'.core.accepted)
    {
      InnerDevOk(s, t);
    }
  }

  lemma {:induction false} OuterInv(s: Device, t: nat)
    requires Inv(s) && Enabled(s, Outside(t))
    ensures Inv(OuterStep(s, t))
  {
    hide CoreInv, SetDst, Ledger.Total;
    assert DevOk(s.devs[t], t, s.lock, s.core.pc, s.core.accepted);
    if s.devs[t].pc.Waiting? {
      BeginInv(s.core, PacketOf(t, s.devs[t].pc.data));
    }
  }

  lemma {:induction false} EventInv(s: Device, e: Event)
    requires Inv(s) && Enabled(s, e)
    ensures Inv(Apply(s, e))
  {
    match e
    case Call(t, _, _) =>
      hide CoreInv, Ledger.Total;
      assert DevOk(s.devs[t], t, s.lock, s.core.pc, s.core.accepted);
    case Outside(t) => OuterInv(s, t);
    case Inner => InnerInv(s);
    case Release(flag) =>
      hide CoreInv, DevOk;
      ReleaseInv(s.core, flag);
  }

  // ---- over every run

  ghost predicate CanRun(s: Device, es: seq<Event>)
    requires Whole(s)
    decreases |es|
  {
    es == [] || (Enabled(s, es[0]) && CanRun(Apply(s, es[0]), es[1..]))
  }

  ghost function Run(s: Device, es: seq<Event>): (s': Device)
    requires Whole(s) && CanRun(s, es)
    ensures Whole(s') && s'.core.n == s.core.n
    decreases |es|
  {
    if es == [] then s else Run(Apply(s, es[0]), es[1..])
  }

  lemma {:induction false} StartInv(s: Device)
    requires Start(s)
    ensures Inv(s)
  {
    assert forall j :: 0 <= j < s.core.n ==> Idx(j, s.core.n) == j;
  }

  lemma {:induction false} RunInv(s: Device, es: seq<Event>)
    requires Inv(s) && CanRun(s, es)
    ensures Inv(Run(s, es))
    decreases |es|
  {
    if es != [] {
      EventInv(s, es[0]);
      hide Inv, Apply, Enabled;
      RunInv(Apply(s, es[0]), es[1..]);
    }
  }

  /** Buffer `i` belongs to a packet accepted and not yet seen. */
  ghost predicate InFlight(s: Core, i: nat)
    requires s.n > 0
  {
    exists j :: |s.seen| <= j < |s.accepted| && Idx(j, s.n) == i
  }

  lemma {:induction false} FullIsInFlight(s: Core, i: nat)
    requires Shape(s) && FullBetween(s.n, s.mem.flags, |s.seen|, |s.accepted|) && i < s.n
    ensures s.mem.flags[i] == 0 <==> InFlight(s, i)
  {
    hide Idx;
    var j := PositionOf(i, |s.seen|, s.n);
  }

  /** The full buffers are those of the packets accepted and not yet seen, and the transmit index
      is where they end. */
  ghost predicate IsOrderly(s: Core) {
    && Shape(s) && |s.seen| <= |s.accepted| <= |s.seen| + s.n && s.seen == s.accepted[..|s.seen|]
    && (forall i :: 0 <= i < s.n ==> (s.mem.flags[i] == 0 <==> InFlight(s, i)))
    && (s.pc.NoCall? ==> s.idx == Idx(|s.accepted|, s.n) && s.doorbells == |s.accepted|)
  }

  lemma {:induction false} CoreIsOrderly(s: Core)
    requires CoreInv(s)
    ensures IsOrderly(s)
  {
    hide Idx, InFlight;
    forall i: int | 0 <= i < s.n
      ensures s.mem.flags[i] == 0 <==> InFlight(s, i)
    {
      FullIsInFlight(s, i);
    }
  }

  /** In every reachable state, with any number of callers: the device has seen the packets in the
      order of their acceptance, byte for byte; the full buffers are exactly those of the packets it
      has yet to see, and end at the transmit index; doorbells rung are packets accepted; no two
      calls are in the critical section; and a netdev that is not in a call has counted exactly
      the packets and bytes accepted from it, and every call once. */
  lemma {:induction false} DeviceSeesAll(s0: Device, es: seq<Event>, t: nat, u: nat)
    requires Start(s0) && CanRun(s0, es) && t < |Run(s0, es).devs| && u < |Run(s0, es).devs|
    ensures var s := Run(s0, es);
      && IsOrderly(s.core)
      && (s.devs[t].pc.Inside? && s.devs[u].pc.Inside? ==> t == u)
      && (s.devs[t].pc.Away? ==>
            && s.devs[t].stats.packets == Sent(t, s.core.accepted, false)
            && s.devs[t].stats.bytes == Sent(t, s.core.accepted, true)
            && s.devs[t].calls == s.devs[t].stats.packets + s.devs[t].stats.dropped)
  {
    StartInv(s0);
    RunInv(s0, es);
    var s := Run(s0, es);
    hide CoreInv, Run, CanRun, Sent, IsOrderly;
    CoreIsOrderly(s.core);
    assert DevOk(s.devs[t], t, s.lock, s.core.pc, s.core.accepted);
    assert DevOk(s.devs[u], u, s.lock, s.core.pc, s.core.accepted);
    assert Ledger.Counted(s.devs[t].stats, false) == s.devs[t].stats.packets;
    assert Ledger.Counted(s.devs[t].stats, true) == s.devs[t].stats.bytes;
  }

  /** A buffer is written only while it is free: whatever it last held, the device has seen. And a
      packet is turned away at the ring only when all buffers are full. */
  lemma {:induction false} OverwritesOnlySeen(s: Core)
    requires CoreInv(s) && !s.pc.NoCall?
    ensures var s' := CoreStep(s);
      && (s'.mem != s.mem ==> s.mem.flags[s.idx] != 0 && |s.accepted| - s.n < |s.seen|)
      && (forall i :: 0 <= i < s.n && i != s.idx ==>
            PacketAt(s'.mem, i) == PacketAt(s.mem, i) && s'.mem.flags[i] == s.mem.flags[i])
      && (s.pc.Testing? && s'.pc.NoCall? <==> s.pc.Testing? && |s.accepted| - |s.seen| == s.n)
  {
    hide Idx;
    ZeroMeansFull(s.n, s.mem.flags, |s.seen|, |s.accepted|);
  }

  /** A call waits for the lock exactly if its packet has 33 to 1514 bytes, the device is ready and it
      comes from one of the four interfaces; otherwise it is dropped. */
  lemma {:induction false} Admission(s: Device, t: nat)
    requires Whole(s) && t < |s.devs| && s.devs[t].pc.Entered?
    ensures var data, pc := s.devs[t].pc.data, Apply(s, Outside(t)).devs[t].pc;
      pc == if 33 <= |data| <= 1514 && s.devs[t].pc.ready && t < 4 then Waiting(data) else Caller.Dropping
  {
  }

  /** What goes to the ring is the caller's data under the sender's number, and only that number. */
  lemma {:induction false} CallNamesSender(t: nat, data: seq<byte>)
    requires IsIface(t)
    ensures var p := PacketOf(t, data); p.data == data && GetDst(p.op) == t && GetSrc(p.op) == NO_IFACE
    ensures PacketOf(t, data).op == if t == 0 then 0x02 else if t == 1 then 0x08 else if t == 2 then 0x20 else 0x80
  {
    hide SetDst, GetDst;
    OpcodeWords();
    SetDstRoundTrip(0, t);
  }

  /** There is a state to start from, for every ring size and every number of netdevs. */
  lemma StartExists(n: nat, netdevs: nat) returns (s: Device)
    requires n > 0 && netdevs >= 4
    ensures Start(s) && s.core.n == n && |s.devs| == netdevs
  {
    var mem := Memory(seq(n, _ => seq(BUF_SIZE, _ => 0)), seq(n, _ => 0), seq(n, _ => 0), seq(n, _ => FREE_AT_START));
    s := Device(Core(n, mem, 0, NoCall, [], [], 0), None, seq(netdevs, _ => Dev(Away, Stats(0, 0, 0), 0)));
  }

  /** In every reachable state a netdev between calls can begin one; one in a call can take a step,
      unless it waits for the lock or holds it, and then the holder can; and the device can take a
      buffer exactly if a packet is accepted that it has not seen. */
  lemma {:induction false} NobodyStuck(s0: Device, es: seq<Event>, s: Device, t: nat, data: seq<byte>, ready: bool)
    requires Start(s0) && CanRun(s0, es) && s == Run(s0, es) && t < |s.devs|
    ensures s.devs[t].pc.Away? ==> Enabled(s, Call(t, data, ready))
    ensures !s.devs[t].pc.Away? ==> Enabled(s, Outside(t)) || Enabled(s, Inner)
    ensures Enabled(s, Release(1)) <==> |s.core.seen| < |s.core.accepted|
  {
    StartInv(s0);
    RunInv(s0, es);
    hide Run, CanRun, Idx;
    ZeroMeansFull(s.core.n, s.core.mem.flags, |s.core.seen|, |s.core.accepted|);
    hide FullBetween, Contents, Progress;
    assert DevOk(s.devs[t], t, s.lock, s.core.pc, s.core.accepted);
  }
}

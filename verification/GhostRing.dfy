/** Ghost mode of the Ethernet driver as a state machine of micro-steps: any number of
    transmitting netdevs (`nf10_ghost_xmit`), the timer callback (`rx_poll_timer_cb`) and the
    NAPI poll (`nf10_napi_struct_poll`) share one ring of buffers. Memory is sequentially
    consistent; packets are copied one byte at a time. */
module GhostRing {
  import opened Bytes
  import opened RingIndex
  import opened Opcode
  import opened Wrappers

  const BUF_SIZE := 2048

  // ---- the shared ring

  /** A packet as handed to the ring. */
  datatype Packet = Packet(data: seq<byte>, op: bv32)

  /** What the poll did with a packet it took off the ring. */
  datatype Outcome = Delivered | NoMemory | BadOpcode

  datatype Memory = Memory(bufs: seq<seq<byte>>, lens: seq<nat>, ops: seq<bv32>, flags: seq<nat>)

  /** The DMA region; `accepted` and `outcomes` are the histories of what was published in it
      and of what was taken out. */
  datatype Ring = Ring(n: nat, mem: Memory, accepted: seq<Packet>, outcomes: seq<Outcome>)

  ghost predicate MemOk(n: nat, mem: Memory) {
    && |mem.bufs| == |mem.lens| == |mem.ops| == |mem.flags| == n
    && forall i :: 0 <= i < n ==> |mem.bufs[i]| == BUF_SIZE
  }

  function PutByte(mem: Memory, i: nat, k: nat, b: byte): (mem': Memory)
    requires MemOk(|mem.bufs|, mem) && i < |mem.bufs| && k < BUF_SIZE
    ensures MemOk(|mem.bufs|, mem')
  {
    var buf: seq<byte> := mem.bufs[i];
    var buf': seq<byte> := buf[k := b];
    mem.(bufs := mem.bufs[i := buf'])
  }

  function PutFlag(mem: Memory, i: nat, flag: nat): (mem': Memory)
    requires MemOk(|mem.bufs|, mem) && i < |mem.bufs|
    ensures MemOk(|mem.bufs|, mem')
  {
    mem.(flags := mem.flags[i := flag])
  }

  function PutMeta(mem: Memory, i: nat, len: nat, op: bv32): (mem': Memory)
    requires MemOk(|mem.bufs|, mem) && i < |mem.bufs|
    ensures MemOk(|mem.bufs|, mem')
  {
    mem.(lens := mem.lens[i := len], ops := mem.ops[i := op])
  }

  ghost predicate RingShape(r: Ring) {
    r.n > 0 && MemOk(r.n, r.mem)
  }

  // ---- the transmitting side

  /** Where a netdev's transmit call stands. */
  datatype Xmit =
    | Idle
    | Entered(data: seq<byte>)
    | Checked(data: seq<byte>)
    | Locked(data: seq<byte>)
    | Copying(data: seq<byte>, k: nat)
    | WriteLen(data: seq<byte>)
    | WriteOp(data: seq<byte>)
    | SetFlag(data: seq<byte>)
    | Advancing(len: nat)
    | Unlocking(len: nat)
    | Counting(len: nat)
    | UnlockFull
    | Dropping

  datatype Stats = Stats(packets: nat, bytes: nat, dropped: nat)

  /** One netdev: its call in progress, its transmit statistics, and the calls made so far. */
  datatype Netdev = Netdev(pc: Xmit, stats: Stats, calls: nat)

  /** `tx_dma_stream.buf_index`, the spinlock's holder, and the netdevs; the first four are
      `nf10_netdevs`, any other is unknown to the driver. */
  datatype Tx = Tx(idx: nat, lock: Option<nat>, devs: seq<Netdev>)

  function GhostOpcode(t: nat): bv32 {
    SetDst(0, Peer(t))
  }

  /** The pairs are 0-1 and 2-3: the opcode is the bit of the other one. */
  lemma LoopbackWord(t: nat)
    requires t < 4
    ensures GhostOpcode(t) == if t == 0 then 0x08 else if t == 1 then 0x02 else if t == 2 then 0x80 else 0x20
    ensures GetDst(GhostOpcode(t)) == if t == 0 then 1 else if t == 1 then 0 else if t == 2 then 3 else 2
  {
    OpcodeWords();
  }

  function Goto(x: Tx, t: nat, pc: Xmit): Tx
    requires t < |x.devs|
  {
    x.(devs := x.devs[t := x.devs[t].(pc := pc)])
  }

  predicate InWrite(pc: Xmit) {
    pc.Copying? || pc.WriteLen? || pc.WriteOp? || pc.SetFlag?
  }

  /** The effect of one micro-step of `nf10_ghost_xmit` on the memory it fills. */
  function XmitMem(r: Ring, idx: nat, t: nat, pc: Xmit): (r': Ring)
    requires RingShape(r) && idx < r.n
    ensures RingShape(r') && r'.n == r.n
  {
    match pc
    case Copying(data, k) =>
      if k < |data| && k < BUF_SIZE then r.(mem := PutByte(r.mem, idx, k, data[k])) else r
    case WriteLen(data) => r.(mem := PutMeta(r.mem, idx, |data|, r.mem.ops[idx]))
    case WriteOp(data) => r.(mem := PutMeta(r.mem, idx, r.mem.lens[idx], GhostOpcode(t)))
    case SetFlag(data) =>
      r.(mem := PutFlag(r.mem, idx, 1), accepted := r.accepted + [Packet(data, GhostOpcode(t))])
    case _ => r
  }

  /** The effect of the same micro-step on the transmitting side. */
  function XmitTx(r: Ring, x: Tx, t: nat): (x': Tx)
    requires RingShape(r) && x.idx < r.n && t < |x.devs|
    ensures x'.idx < r.n && |x'.devs| == |x.devs|
  {
    var st := x.devs[t].stats;
    match x.devs[t].pc
    case Idle => x
    case Entered(data) => Goto(x, t, if |data| > BUF_SIZE || !IsIface(t) then Dropping else Checked(data))
    case Checked(data) => Goto(x, t, Locked(data)).(lock := Some(t))
    case Locked(data) => Goto(x, t, if r.mem.flags[x.idx] == 1 then UnlockFull else Copying(data, 0))
    case Copying(data, k) => Goto(x, t, if k < |data| then Copying(data, k + 1) else WriteLen(data))
    case WriteLen(data) => Goto(x, t, WriteOp(data))
    case WriteOp(data) => Goto(x, t, SetFlag(data))
    case SetFlag(data) => Goto(x, t, Advancing(|data|))
    case Advancing(len) => Goto(x, t, Unlocking(len)).(idx := Bump(x.idx, r.n))
    case Unlocking(len) => Goto(x, t, Counting(len)).(lock := None)
    case Counting(len) =>
      x.(devs := x.devs[t := x.devs[t].(pc := Idle,
                                        stats := st.(packets := st.packets + 1, bytes := st.bytes + len))])
    case UnlockFull => Goto(x, t, Dropping).(lock := None)
    case Dropping =>
      x.(devs := x.devs[t := x.devs[t].(pc := Idle, stats := st.(dropped := st.dropped + 1))])
  }

  /** A store past the end of the slot's buffer. */
  predicate XmitFaults(pc: Xmit) {
    pc.Copying? && pc.k < |pc.data| && pc.k >= BUF_SIZE
  }

  // ---- the receiving side

  /** A packet as handed to the network stack by `netif_receive_skb`. */
  datatype Frame = Frame(dst: int, data: seq<byte>)

  /** Where the timer callback stands. */
  datatype Callback = CIdle | CTest | CSchedule | CRearm

  /** Where the NAPI poll stands; `done` is `n_rx`. */
  datatype Poll =
    | PIdle
    | PTest(budget: nat, done: nat)
    | PRead(budget: nat, done: nat)
    | PCopy(budget: nat, done: nat, dst: int, len: nat, skb: seq<byte>)
    | PPass(budget: nat, done: nat, dst: int, skb: seq<byte>)
    | PCount(budget: nat, done: nat, dst: int)
    | PClear(budget: nat, done: nat, dst: int, outcome: Outcome)
    | PAdvance(budget: nat, done: nat, dst: int, outcome: Outcome)
    | PCountDrop(budget: nat, done: nat, dst: int)
    | PCheck(done: nat)
    | PComplete
    | PRearm

  /** The polling timer and the NAPI context. */
  datatype Token = Token(timerArmed: bool, napiSched: bool, cb: Callback)

  /** `rx_dma_stream.buf_index`, the poll, the receive statistics of the four interfaces, and
      the history of frames handed up. */
  datatype Rx = Rx(idx: nat, poll: Poll, stats: seq<Stats>, received: seq<Frame>)

  /** The effect of one micro-step of `nf10_napi_struct_poll` on the ring. */
  function PollMem(r: Ring, idx: nat, p: Poll): (r': Ring)
    requires RingShape(r) && idx < r.n
    ensures RingShape(r') && r'.n == r.n
  {
    if p.PClear? then r.(mem := PutFlag(r.mem, idx, 0), outcomes := r.outcomes + [p.outcome]) else r
  }

  /** Where the poll goes next; `allocOk` is the result of `dev_alloc_skb`. */
  function PollNext(r: Ring, idx: nat, p: Poll, allocOk: bool): Poll
    requires RingShape(r) && idx < r.n
  {
    match p
    case PIdle => PIdle
    case PTest(b, d) => if d < b && r.mem.flags[idx] == 1 then PRead(b, d) else PCheck(d)
    case PRead(b, d) =>
      var dst := GetDst(r.mem.ops[idx]);
      if dst == NO_IFACE then PClear(b, d, dst, BadOpcode)
      else if allocOk then PCopy(b, d, dst, r.mem.lens[idx], [])
      else PClear(b, d, dst, NoMemory)
    case PCopy(b, d, dst, len, skb) =>
      if |skb| < len && |skb| < BUF_SIZE then PCopy(b, d, dst, len, skb + [r.mem.bufs[idx][|skb|]])
      else PPass(b, d, dst, skb)
    case PPass(b, d, dst, _) => PCount(b, d, dst)
    case PCount(b, d, dst) => PClear(b, d, dst, Delivered)
    case PClear(b, d, dst, outcome) => PAdvance(b, d, dst, outcome)
    case PAdvance(b, d, dst, outcome) =>
      if outcome.Delivered? then PTest(b, d + 1)
      else if outcome.NoMemory? then PCountDrop(b, d, dst)
      else PTest(b, d)
    case PCountDrop(b, d, _) => PTest(b, d)
    case PCheck(_) => if r.mem.flags[idx] == 0 then PComplete else PIdle
    case PComplete => PRearm
    case PRearm => PIdle
  }

  /** The effect of the same micro-step on the receiving side. */
  function PollRx(r: Ring, x: Rx, allocOk: bool): (x': Rx)
    requires RingShape(r) && x.idx < r.n && |x.stats| == 4
    ensures x'.idx < r.n && |x'.stats| == 4
  {
    var x' := x.(poll := PollNext(r, x.idx, x.poll, allocOk));
    match x.poll
    case PPass(_, _, dst, skb) => x'.(received := x.received + [Frame(dst, skb)])
    case PCount(_, _, dst) =>
      if !IsIface(dst) then x'
      else
        var st := x.stats[dst];
        x'.(stats := x.stats[dst := st.(packets := st.packets + 1, bytes := st.bytes + r.mem.lens[x.idx])])
    case PAdvance(_, _, _, _) => x'.(idx := Bump(x.idx, r.n))
    case PCountDrop(_, _, dst) =>
      if !IsIface(dst) then x'
      else
        var st := x.stats[dst];
        x'.(stats := x.stats[dst := st.(dropped := st.dropped + 1)])
    case _ => x'
  }

  /** `napi_complete` and `add_timer` at the end of a poll that emptied the ring. */
  function PollToken(k: Token, p: Poll): Token {
    match p
    case PComplete => k.(napiSched := false)
    case PRearm => k.(timerArmed := true)
    case _ => k
  }

  /** A load past the end of the slot's buffer, statistics of an interface that does not
      exist, or `add_timer` on a pending timer. */
  predicate PollFaults(k: Token, p: Poll) {
    || (p.PCopy? && |p.skb| < p.len && |p.skb| >= BUF_SIZE)
    || ((p.PCount? || p.PCountDrop?) && !IsIface(p.dst))
    || (p.PRearm? && k.timerArmed)
  }

  /** One micro-step of `rx_poll_timer_cb`. */
  function CallbackToken(r: Ring, idx: nat, k: Token): Token
    requires RingShape(r) && idx < r.n
  {
    match k.cb
    case CIdle => k
    case CTest => k.(cb := if r.mem.flags[idx] == 1 then CSchedule else CRearm)
    case CSchedule => k.(cb := CIdle, napiSched := true)
    case CRearm => k.(cb := CIdle, timerArmed := true)
  }

  // ---- the machine

  datatype State = State(ring: Ring, tx: Tx, rx: Rx, token: Token, fault: bool)

  /** One scheduling choice. */
  datatype Step =
    | Begin(t: nat, data: seq<byte>)
    | XmitStep(t: nat)
    | TimerFires
    | CallbackStep
    | PollStarts(budget: nat)
    | PollStep(allocOk: bool)

  ghost predicate Shape(s: State) {
    && RingShape(s.ring) && s.tx.idx < s.ring.n && s.rx.idx < s.ring.n
    && |s.tx.devs| >= 4 && |s.rx.stats| == 4
  }

  ghost predicate Enabled(s: State, step: Step) {
    match step
    case Begin(t, _) => t < |s.tx.devs| && s.tx.devs[t].pc.Idle?
    case XmitStep(t) =>
      t < |s.tx.devs| && !s.tx.devs[t].pc.Idle? && (s.tx.devs[t].pc.Checked? ==> s.tx.lock.None?)
    case TimerFires => s.token.timerArmed && s.token.cb.CIdle?
    case CallbackStep => !s.token.cb.CIdle?
    case PollStarts(budget) => s.token.napiSched && s.rx.poll.PIdle? && budget > 0
    case PollStep(_) => !s.rx.poll.PIdle?
  }

  ghost function Apply(s: State, step: Step): (s': State)
    requires Shape(s) && Enabled(s, step)
    ensures Shape(s')
  {
    match step
    case Begin(t, data) =>
      var dev := s.tx.devs[t];
      s.(tx := s.tx.(devs := s.tx.devs[t := dev.(pc := Entered(data), calls := dev.calls + 1)]))
    case XmitStep(t) =>
      var pc := s.tx.devs[t].pc;
      s.(ring := XmitMem(s.ring, s.tx.idx, t, pc), tx := XmitTx(s.ring, s.tx, t),
      fault := s.fault || XmitFaults(pc))
    case TimerFires => s.(token := s.token.(timerArmed := false, cb := CTest))
    case CallbackStep =>
      s.(token := CallbackToken(s.ring, s.rx.idx, s.token),
      fault := s.fault || (s.token.cb.CRearm? && s.token.timerArmed))
    case PollStarts(budget) => s.(rx := s.rx.(poll := PTest(budget, 0)))
    case PollStep(allocOk) =>
      s.(ring := PollMem(s.ring, s.rx.idx, s.rx.poll), rx := PollRx(s.ring, s.rx, allocOk),
      token := PollToken(s.token, s.rx.poll), fault := s.fault || PollFaults(s.token, s.rx.poll))
  }

  /** The state `enable_ghosting` leaves: flags cleared, both indices zero, timer armed. */
  ghost predicate Init(s: State) {
    && Shape(s) && !s.fault
    && (forall i :: 0 <= i < s.ring.n ==> s.ring.mem.flags[i] == 0)
    && s.ring.accepted == [] && s.ring.outcomes == []
    && s.tx.idx == 0 && s.tx.lock.None?
    && (forall t :: 0 <= t < |s.tx.devs| ==> s.tx.devs[t] == Netdev(Idle, Stats(0, 0, 0), 0))
    && s.rx == Rx(0, PIdle, seq(4, _ => Stats(0, 0, 0)), [])
    && s.token == Token(true, false, CIdle)
  }

  /** Every interleaving: a sequence of scheduling choices, each enabled when taken. */
  ghost predicate CanRun(s: State, steps: seq<Step>)
    requires Shape(s)
    decreases |steps|
  {
    steps == [] || (Enabled(s, steps[0]) && CanRun(Apply(s, steps[0]), steps[1..]))
  }

  ghost function Run(s: State, steps: seq<Step>): (s': State)
    requires Shape(s) && CanRun(s, steps)
    ensures Shape(s')
    decreases |steps|
  {
    if steps == [] then s else Run(Apply(s, steps[0]), steps[1..])
  }
}

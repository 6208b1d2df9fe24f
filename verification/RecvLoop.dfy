/** `recvmsgs` as it runs: loops over datagrams and messages, buffers and messages allocated and
    freed on the way, the socket's expected number updated in place. */
module RecvLoop {
  import opened Errors
  import opened Bytes
  import opened Datagram
  import opened Receive
  import opened Message

  /** A piece of allocated memory: a read buffer or a converted message. */
  class Block {
    const bytes: seq<byte>

    constructor (bytes: seq<byte>)
      ensures this.bytes == bytes
    {
      this.bytes := bytes;
    }
  }

  /** The blocks allocated and not freed. */
  class Pool {
    ghost var live: set<Block>

    method Alloc(bytes: seq<byte>) returns (b: Block)
      modifies this
      ensures fresh(b) && b.bytes == bytes && live == old(live) + {b}
    {
      b := new Block(bytes);
      live := live + {b};
    }

    /** Freeing nothing is allowed; freeing anything twice is not. */
    method Free(b: Block?)
      requires b != null ==> b in live
      modifies this
      ensures live == old(live) - Held(b)
    {
      live := live - Held(b);
    }
  }

  /** What `nl_recv` allocates for a datagram: the buffer, and credentials if some came with it. */
  method Fetch(pool: Pool, bytes: seq<byte>, withCreds: bool) returns (buf: Block, creds: Block?)
    modifies pool
    ensures fresh(buf) && buf.bytes == bytes && (creds != null ==> fresh(creds) && creds != buf)
    ensures pool.live == old(pool.live) + {buf} + Held(creds)
  {
    buf := pool.Alloc(bytes);
    creds := null;
    if withCreds {
      creds := pool.Alloc([]);
    }
  }

  /** The three frees that both the end of the message loop and the exit perform. */
  method FreeAll(pool: Pool, msg: Block?, buf: Block?, creds: Block?)
    requires Held(msg) + Held(buf) + Held(creds) <= pool.live
    requires Held(msg) !! Held(buf) && Held(msg) !! Held(creds) && Held(buf) !! Held(creds)
    modifies pool
    ensures pool.live == old(pool.live) - Held(msg) - Held(buf) - Held(creds)
  {
    pool.Free(msg);
    pool.Free(buf);
    pool.Free(creds);
  }

  ghost function Held(b: Block?): set<Block> {
    if b == null then {} else {b}
  }

  /** One callback: the call is made and its answer decides where control goes. */
  method CallBack(cfg: Config, calls: seq<Call>, kind: Kind, m: seq<byte>) returns (calls': seq<Call>, flow: Flow)
    requires IsMsg(m)
    ensures Play(cfg, calls, [Ask(kind)], m) == (calls', flow)
  {
    var call := Call(kind, m);
    calls' := calls + [call];
    flow := Reply(cfg, call, cfg.answer(calls, call));
    assert Play(cfg, calls', [], m) == (calls', Next);
  }

  /** The part of the handling up to and including the sequence check. */
  method CheckIn(cfg: Config, expected: nat, calls: seq<Call>, m: seq<byte>) returns (calls': seq<Call>, flow: Flow)
    requires IsMsg(m)
    ensures Play(cfg, calls, Opening(cfg, expected, m), m) == (calls', flow)
  {
    hide Reply, SeqOf;
    ghost var check := AskOr(cfg, SeqCheck,
      if cfg.autoAck && SeqOf(m) != expected then AskOr(cfg, Invalid, [Fail(-NLE_SEQ_MISMATCH)]) else []);
    PlayTwo(cfg, calls, AskOr(cfg, MsgIn, []), check, m);
    calls', flow := calls, Next;
    if MsgIn in cfg.present {
      calls', flow := CallBack(cfg, calls', MsgIn, m);
      if flow != Next {
        return;
      }
    }
    if SeqCheck in cfg.present {
      calls', flow := CallBack(cfg, calls', SeqCheck, m);
    } else if cfg.autoAck && SeqOf(m) != expected {
      if Invalid in cfg.present {
        calls', flow := CallBack(cfg, calls', Invalid, m);
      } else {
        flow := Out(-NLE_SEQ_MISMATCH);
      }
    }
  }

  /** A callback that may be missing, with what happens then. */
  method CallOr(cfg: Config, calls: seq<Call>, kind: Kind, m: seq<byte>, default: Flow)
    returns (calls': seq<Call>, flow: Flow)
    requires IsMsg(m) && !default.Stop?
    ensures Play(cfg, calls, AskOr(cfg, kind, ByDefault(default)), m) == (calls', flow)
  {
    if kind in cfg.present {
      calls', flow := CallBack(cfg, calls, kind, m);
    } else {
      calls', flow := calls, default;
    }
  }

  function ByDefault(default: Flow): seq<Step> {
    match default
    case Next => []
    case Out(err) => [Fail(err)]
    case _ => [PassOver]
  }

  /** The part of the handling that depends on the message type. */
  method Dispatch(cfg: Config, calls: seq<Call>, m: seq<byte>) returns (calls': seq<Call>, flow: Flow)
    requires IsMsg(m)
    ensures Play(cfg, calls, Closing(cfg, m), m) == (calls', flow)
  {
    hide Play, AskOr;
    if TypeOf(m) == NLMSG_DONE {
      calls', flow := CallOr(cfg, calls, Finish, m, Next);
    } else if TypeOf(m) == NLMSG_NOOP {
      calls', flow := CallOr(cfg, calls, Skipped, m, Skip);
    } else if TypeOf(m) == NLMSG_OVERRUN {
      calls', flow := CallOr(cfg, calls, Overrun, m, Out(-NLE_MSG_OVERFLOW));
    } else if TypeOf(m) == NLMSG_ERROR {
      if IsTruncated(m) {
        calls', flow := CallOr(cfg, calls, Invalid, m, Out(-NLE_MSG_TRUNC));
      } else if ErrorOf(m) != 0 {
        calls', flow := CallOr(cfg, calls, Error, m, Out(-cfg.sysErr(ErrorOf(m))));
      } else {
        calls', flow := CallOr(cfg, calls, Ack, m, Next);
      }
    } else {
      calls', flow := CallOr(cfg, calls, Valid, m, Next);
    }
  }

  /** `flags |= bit`. */
  function SetBit(flags: nat, bit: nat): nat
    requires bit > 0
  {
    if flags / bit % 2 == 1 then flags else flags + bit
  }

  /** The flags of a request: bit 0 says so, bit 2 asks for an acknowledgement. */
  function RequestFlags(flags: nat, autoAck: bool): nat {
    if autoAck then SetBit(SetBit(flags, 1), 4) else SetBit(flags, 1)
  }

  /** Of a flag word with bits `d`, `c`, `b` (bits 0, 1, 2) and `a` above them: bit 0 is set, bit 2 is
      set with automatic acknowledgement, and every other bit is as it was. */
  lemma RequestBits(a: nat, b: nat, c: nat, d: nat, autoAck: bool)
    requires b < 2 && c < 2 && d < 2
    ensures RequestFlags(8 * a + 4 * b + 2 * c + d, autoAck) == 8 * a + 4 * (if autoAck then 1 else b) + 2 * c + 1
  {
    var f := 8 * a + 4 * b + 2 * c + d;
    Bit0(4 * a + 2 * b + c, d);
    Bit2(a, b, 2 * c + 1);
    assert SetBit(f, 1) == 8 * a + 4 * b + 2 * c + 1;
  }

  lemma Bit0(q: nat, d: nat)
    requires d < 2
    ensures SetBit(2 * q + d, 1) == 2 * q + 1
  {
    assert (2 * q + d) / 1 % 2 == d;
  }

  lemma Bit2(a: nat, b: nat, r: nat)
    requires b < 2 && r < 4
    ensures SetBit(8 * a + 4 * b + r, 4) == 8 * a + 4 + r
  {
    assert (8 * a + 4 * b + r) / 4 == 2 * a + b;
  }

  class Socket {
    var seqNext: nat
    var seqExpect: nat
    var localPort: nat
    var proto: int

    /** `__alloc_socket` as far as numbering goes. */
    constructor (time: nat, port: nat)
      ensures seqNext == seqExpect == time % SEQ_MOD && localPort == port && proto == 0
    {
      seqNext, seqExpect, localPort, proto := time % SEQ_MOD, time % SEQ_MOD, port, 0;
    }

    /** `nl_complete_msg`: number an unnumbered message, fill in sender and protocol, mark it as a request
        (bit 0) and, with automatic acknowledgement, as wanting one (bit 2). */
    method Complete(m: NlMsg, autoAck: bool)
      modifies this`seqNext, m`hdr, m`protocol
      ensures m.protocol == if old(m.protocol) == -1 then proto else old(m.protocol)
      ensures m.hdr == old(m.hdr).(
        pid := if old(m.hdr.pid) == 0 then localPort else old(m.hdr.pid),
        seqno := if old(m.hdr.seqno) == 0 then old(seqNext) else old(m.hdr.seqno),
        flags := RequestFlags(old(m.hdr.flags), autoAck))
      ensures seqNext == if old(m.hdr.seqno) == 0 then NextSeq(old(seqNext)) else old(seqNext)
    {
      hide SetBit;
      var h := m.hdr;
      if h.pid == 0 {
        h := h.(pid := localPort);
      }
      if h.seqno == 0 {
        h := h.(seqno := seqNext);
        seqNext := (seqNext + 1) % SEQ_MOD;
      }
      if m.protocol == -1 {
        m.protocol := proto;
      }
      h := h.(flags := SetBit(h.flags, 1));
      if autoAck {
        h := h.(flags := SetBit(h.flags, 4));
      }
      m.hdr := h;
    }

    /** The body of the message loop once the message has been converted. */
    method HandleMessage(cfg: Config, m: seq<byte>, multi: bool, calls: seq<Call>, ghost converted: nat)
      returns (multi': bool, calls': seq<Call>, flow: Flow)
      requires IsMsg(m) && cfg.memory(converted)
      modifies this`seqExpect
      ensures Handle(cfg, State(old(seqExpect), multi, calls, converted), m)
        == (State(seqExpect, multi', calls', converted + 1), flow)
    {
      hide Play, Opening, Acking, Closing, AskOr;
      multi' := multi;
      calls', flow := CheckIn(cfg, seqExpect, calls, m);
      if flow != Next {
        return;
      }
      if TypeOf(m) == NLMSG_DONE || TypeOf(m) == NLMSG_ERROR || TypeOf(m) == NLMSG_NOOP || TypeOf(m) == NLMSG_OVERRUN {
        seqExpect := (seqExpect + 1) % SEQ_MOD;
      }
      if IsMulti(m) {
        multi' := true;
      }
      calls', flow := SendAcks(cfg, calls', m);
      if flow != Next {
        return;
      }
      if TypeOf(m) == NLMSG_DONE {
        multi' := false;
      }
      calls', flow := Dispatch(cfg, calls', m);
    }

    /** One datagram. The message being handled is freed when the next one is converted. */
    method ReadDatagram(cfg: Config, pool: Pool, buf: Block, multi: bool, calls: seq<Call>, conv: nat)
      returns (multi': bool, calls': seq<Call>, conv': nat, flow: Flow, msg: Block?)
      modifies this`seqExpect, pool
      ensures msg != null ==> fresh(msg)
      ensures pool.live == old(pool.live) + Held(msg)
      ensures var r := HandleAll(cfg, State(old(seqExpect), multi, calls, conv), Split(buf.bytes));
        r.0 == State(seqExpect, multi', calls', conv') && r.1 == flow
    {
      hide Handle, Un32, Split, HandleAll, Align4, MsgOk, IsMsg, After;
      var hdr, n := 0, |buf.bytes|;
      ghost var start, rest := State(seqExpect, multi, calls, conv), buf.bytes;
      multi', calls', conv', flow, msg := multi, calls, conv, Next, null;
      while n >= NLMSG_HDRLEN && NLMSG_HDRLEN <= Un32(buf.bytes, hdr) <= n
        invariant hdr + n == |buf.bytes| && hdr >= 0 && rest == if n >= 0 then buf.bytes[hdr..] else []
        invariant flow == Next && (msg != null ==> fresh(msg)) && pool.live == old(pool.live) + Held(msg)
        invariant SameEnd(HandleAll(cfg, start, Split(buf.bytes)),
                          HandleAll(cfg, State(seqExpect, multi', calls', conv'), Split(rest)))
        decreases n
      {
        WalkOn(buf.bytes, hdr);
        var len := Un32(buf.bytes, hdr);
        var bytes := buf.bytes[hdr..hdr + len];
        HandleFirst(cfg, State(seqExpect, multi', calls', conv'), bytes, Split(After(rest)));
        pool.Free(msg);
        msg := null;
        if !cfg.memory(conv') {
          flow := Out(-NLE_NOMEM);
          return;
        }
        msg := pool.Alloc(bytes);
        conv' := conv' + 1;
        multi', calls', flow := HandleMessage(cfg, bytes, multi', calls', conv' - 1);
        if flow.Stop? || flow.Out? {
          return;
        }
        flow := Next;
        hdr, n := hdr + Align4(len), n - Align4(len);
        rest := After(rest);
      }
      WalkEnds(buf.bytes, hdr, n);
      HandleNone(cfg, State(seqExpect, multi', calls', conv'));
    }

    /** `recvmsgs`: datagrams are read while a multipart sequence is open. Every buffer, every
        message and every set of credentials allocated on the way (`withCreds` tells which datagrams
        come with any) has been freed, exactly once, when it returns, on every path: those freed at
        the end of the message loop are forgotten, so that the exit does not free them again. */
    method Recvmsgs(cfg: Config, pool: Pool, feed: seq<seq<byte>>, withCreds: nat -> bool, last: int)
      returns (err: int, calls: seq<Call>, used: nat)
      requires last <= 0
      modifies this`seqExpect, pool
      ensures pool.live == old(pool.live)
      ensures var r := Session(cfg, State(old(seqExpect), false, [], 0), feed, last);
        r.err == err && r.used == used && r.st.calls == calls && r.st.expected == seqExpect
    {
      hide HandleAll, Split, Session;
      var multi, conv := false, 0;
      var buf: Block?, msg: Block?, creds: Block? := null, null, null;
      ghost var start := State(seqExpect, false, [], 0);
      calls, used := [], 0;
      assert feed[0..] == feed;
      while used < |feed| && feed[used] != []
        invariant used <= |feed| && pool.live == old(pool.live) && buf == null && msg == null && creds == null
        invariant SameEnding(Session(cfg, start, feed, last),
                             Session(cfg, State(seqExpect, multi, calls, conv), feed[used..], last), used)
      {
        ReadOne(cfg, State(seqExpect, multi, calls, conv), feed, used, last);
        buf, creds := Fetch(pool, feed[used], withCreds(used));
        var flow;
        multi, calls, conv, flow, msg := ReadDatagram(cfg, pool, buf, multi, calls, conv);
        used := used + 1;
        if flow == Next {
          FreeAll(pool, msg, buf, creds);
          buf, msg, creds := null, null, null;
        }
        if flow != Next || !multi {
          err := if flow.Out? then flow.err else 0;
          FreeAll(pool, msg, buf, creds);
          return;
        }
      }
      ReadNone(cfg, State(seqExpect, multi, calls, conv), feed, used, last);
      err := if used < |feed| then 0 else last;
    }
  }

  lemma ReadOne(cfg: Config, st: State, feed: seq<seq<byte>>, used: nat, last: int)
    requires used < |feed| && feed[used] != []
    ensures var r, (st1, flow, _) := Session(cfg, st, feed[used..], last), HandleAll(cfg, st, Split(feed[used]));
      if flow.Next? && st1.multipart then SameEnding(r, Session(cfg, st1, feed[used + 1..], last), 1)
      else r.err == (if flow.Out? then flow.err else 0) && r.st == st1 && r.used == 1
  {
    hide HandleAll, Split;
    assert feed[used..][1..] == feed[used + 1..];
  }

  lemma ReadNone(cfg: Config, st: State, feed: seq<seq<byte>>, used: nat, last: int)
    requires used <= |feed| && (used < |feed| ==> feed[used] == [])
    ensures var r := Session(cfg, st, feed[used..], last);
      r.err == (if used < |feed| then 0 else last) && r.st == st && r.used == 0
  {
  }

  /** The same ending, `more` datagrams later. */
  ghost predicate SameEnding(a: Ending, b: Ending, more: nat) {
    a.err == b.err && a.st == b.st && a.used == b.used + more
  }

  ghost predicate SameEnd(a: (State, Flow, nat), b: (State, Flow, nat)) {
    a.0 == b.0 && a.1 == b.1
  }

  lemma FrontOf(b: seq<byte>, i: nat)
    requires i + NLMSG_HDRLEN <= |b|
    ensures Un32(b, i) == Un32(b[i..], 0)
  {
  }

  /** The walk through a datagram at offset `i` is the split of what lies there. */
  lemma WalkOn(b: seq<byte>, i: nat)
    requires i + NLMSG_HDRLEN <= |b| && NLMSG_HDRLEN <= Un32(b, i) <= |b| - i
    ensures var m, j := b[i..i + Un32(b, i)], i + Align4(Un32(b, i));
      && MsgOk(b[i..]) && IsMsg(m) && After(b[i..]) == (if j <= |b| then b[j..] else [])
      && Split(b[i..]) == [m] + Split(After(b[i..])) && j > i
  {
    hide Align4;
    FrontOf(b, i);
    var m := b[i..i + Un32(b, i)];
    assert m == b[i..][..Un32(b[i..], 0)];
    FrontKept(b[i..], |m|);
    hide Un32;
  }

  lemma FrontKept(b: seq<byte>, k: nat)
    requires 4 <= k <= |b|
    ensures Un32(b[..k], 0) == Un32(b, 0)
  {
  }

  lemma WalkEnds(b: seq<byte>, i: nat, n: int)
    requires i + n == |b|
    requires !(n >= NLMSG_HDRLEN && NLMSG_HDRLEN <= Un32(b, i) <= n)
    ensures Split(if n >= 0 then b[i..] else []) == []
  {
    if n >= NLMSG_HDRLEN {
      FrontOf(b, i);
    }
  }

  lemma HandleFirst(cfg: Config, st: State, m: seq<byte>, more: seq<seq<byte>>)
    requires IsMsg(m) && AreMsgs(more)
    ensures AreMsgs([m] + more)
    ensures var r := HandleAll(cfg, st, [m] + more);
      var (st1, flow) := Handle(cfg, st, m);
      if flow.Stop? || flow.Out? then r.0 == st1 && r.1 == flow else SameEnd(r, HandleAll(cfg, st1, more))
    ensures !cfg.memory(st.converted) ==> Handle(cfg, st, m) == (st, Out(-NLE_NOMEM))
  {
    assert ([m] + more)[1..] == more;
  }

  lemma HandleNone(cfg: Config, st: State)
    ensures HandleAll(cfg, st, []) == (st, Next, 0)
  {
  }

  method SendAcks(cfg: Config, calls: seq<Call>, m: seq<byte>) returns (calls': seq<Call>, flow: Flow)
    requires IsMsg(m)
    ensures Play(cfg, calls, Acking(cfg, m), m) == (calls', flow)
  {
    calls', flow := calls, Next;
    if WantsAck(m) {
      calls', flow := CallOr(cfg, calls, SendAck, m, Next);
    }
  }
}

/** The receive state machine: what becomes of each message, of each datagram and of a whole
    call, for callbacks that answer in any way. */
module Receive {
  import opened Errors
  import opened Bytes
  import opened Datagram

  const NL_OK := 0
  const NL_SKIP := 1
  const NL_STOP := 2

  const SEQ_MOD := 0x1_0000_0000

  datatype Kind = MsgIn | SeqCheck | Invalid | SendAck | Finish | Skipped | Overrun | Ack | Valid | Error

  /** One callback made. */
  datatype Call = Call(kind: Kind, msg: seq<byte>)

  /** Which callbacks are set and how they answer, given all the calls before; whether automatic
      acknowledgement is on; whether the `k`-th message conversion finds memory; the translation
      of system error codes. */
  datatype Config = Config(
    present: set<Kind>,
    answer: (seq<Call>, Call) -> int,
    autoAck: bool,
    memory: nat -> bool,
    sysErr: int -> int)

  datatype State = State(expected: nat, multipart: bool, calls: seq<Call>, converted: nat)

  /** Where control goes: on, to the next message, to the `stop` label, to the `out` label. */
  datatype Flow = Next | Skip | Stop | Out(err: int)

  /** What the handling of a message may come to: asking a callback, a default failure, or
      passing the message over. */
  datatype Step = Ask(kind: Kind) | Fail(err: int) | PassOver

  /** What an answer means: `NL_CB_CALL`, and the error callback's own rules. */
  function Reply(cfg: Config, call: Call, a: int): Flow
    requires IsMsg(call.msg)
  {
    if call.kind == Error then
      if a < 0 then Out(a)
      else if a == NL_SKIP then Skip
      else if a == NL_STOP && !IsTruncated(call.msg) then Out(-cfg.sysErr(ErrorOf(call.msg)))
      else Next
    else if a == NL_OK then Next
    else if a == NL_SKIP then Skip
    else if a == NL_STOP then Stop
    else Out(a)
  }

  /** A script is followed until something other than "go on" comes of a step. */
  function Play(cfg: Config, calls: seq<Call>, script: seq<Step>, m: seq<byte>): (r: (seq<Call>, Flow))
    requires IsMsg(m)
    decreases |script|
  {
    if script == [] then (calls, Next)
    else match script[0]
      case Fail(err) => (calls, Out(err))
      case PassOver => (calls, Skip)
      case Ask(kind) =>
        var call := Call(kind, m);
        var flow := Reply(cfg, call, cfg.answer(calls, call));
        if flow == Next then Play(cfg, calls + [call], script[1..], m) else (calls + [call], flow)
  }

  /** One script after another. */
  lemma {:induction false} PlayTwo(cfg: Config, calls: seq<Call>, a: seq<Step>, b: seq<Step>, m: seq<byte>)
    requires IsMsg(m)
    ensures var r := Play(cfg, calls, a, m);
      Play(cfg, calls, a + b, m) == if r.1 == Next then Play(cfg, r.0, b, m) else r
    decreases |a|
  {
    if a == [] {
      assert a + b == b;
    } else {
      assert (a + b)[1..] == a[1..] + b;
      if a[0].Ask? {
        PlayTwo(cfg, calls + [Call(a[0].kind, m)], a[1..], b, m);
      }
    }
  }

  /** Ask a callback if it is set, otherwise do the default. */
  function AskOr(cfg: Config, kind: Kind, default: seq<Step>): seq<Step> {
    if kind in cfg.present then [Ask(kind)] else default
  }

  /** Raw inspection and sequence checking. */
  function Opening(cfg: Config, expected: nat, m: seq<byte>): seq<Step>
    requires IsMsg(m)
  {
    AskOr(cfg, MsgIn, [])
    + AskOr(cfg, SeqCheck,
            if cfg.autoAck && SeqOf(m) != expected then AskOr(cfg, Invalid, [Fail(-NLE_SEQ_MISMATCH)]) else [])
  }

  function Acking(cfg: Config, m: seq<byte>): seq<Step>
    requires IsMsg(m)
  {
    if WantsAck(m) then AskOr(cfg, SendAck, []) else []
  }

  /** What is done by message type. */
  function Closing(cfg: Config, m: seq<byte>): seq<Step>
    requires IsMsg(m)
  {
    if TypeOf(m) == NLMSG_DONE then AskOr(cfg, Finish, [])
    else if TypeOf(m) == NLMSG_NOOP then AskOr(cfg, Skipped, [PassOver])
    else if TypeOf(m) == NLMSG_OVERRUN then AskOr(cfg, Overrun, [Fail(-NLE_MSG_OVERFLOW)])
    else if TypeOf(m) == NLMSG_ERROR then
      if IsTruncated(m) then AskOr(cfg, Invalid, [Fail(-NLE_MSG_TRUNC)])
      else if ErrorOf(m) != 0 then AskOr(cfg, Error, [Fail(-cfg.sysErr(ErrorOf(m)))])
      else AskOr(cfg, Ack, [])
    else AskOr(cfg, Valid, [])
  }

  function NextSeq(s: nat): nat {
    (s + 1) % SEQ_MOD
  }

  /** The handling of one message. */
  function Handle(cfg: Config, st: State, m: seq<byte>): (State, Flow)
    requires IsMsg(m)
  {
    if !cfg.memory(st.converted) then (st, Out(-NLE_NOMEM))
    else
      var st := st.(converted := st.converted + 1);
      var (c1, f1) := Play(cfg, st.calls, Opening(cfg, st.expected, m), m);
      if f1 != Next then (st.(calls := c1), f1)
      else
        var expected := if Counts(m) then NextSeq(st.expected) else st.expected;
        var (c2, f2) := Play(cfg, c1, Acking(cfg, m), m);
        if f2 != Next then (State(expected, st.multipart || IsMulti(m), c2, st.converted), f2)
        else
          var (c3, f3) := Play(cfg, c2, Closing(cfg, m), m);
          (State(expected, (st.multipart || IsMulti(m)) && TypeOf(m) != NLMSG_DONE, c3, st.converted), f3)
  }

  ghost predicate AreMsgs(msgs: seq<seq<byte>>) {
    forall m :: m in msgs ==> IsMsg(m)
  }

  /** The messages of a datagram in turn: the state, where control goes, and how many messages
      were passed. */
  function HandleAll(cfg: Config, st: State, msgs: seq<seq<byte>>): (r: (State, Flow, nat))
    requires forall m :: m in msgs ==> IsMsg(m)
    ensures r.2 <= |msgs| && r.1 != Skip && (r.1 == Next <==> r.2 == |msgs|)
    decreases |msgs|
  {
    if msgs == [] then (st, Next, 0)
    else
      var (st1, flow) := Handle(cfg, st, msgs[0]);
      if flow.Stop? || flow.Out? then (st1, flow, 0)
      else var (st2, flow2, k) := HandleAll(cfg, st1, msgs[1..]); (st2, flow2, k + 1)
  }

  /** How a call ends: its result, the state, how many datagrams were read and how many of their
      messages were passed. */
  datatype Ending = Ending(err: int, st: State, used: nat, passed: nat)

  /** A call of `recvmsgs` that finds the datagrams `feed` and after them the result `last` of a
      read that brings nothing. */
  function Session(cfg: Config, st: State, feed: seq<seq<byte>>, last: int): (r: Ending)
    ensures r.used <= |feed|
    decreases |feed|
  {
    if feed == [] then Ending(last, st, 0, 0)
    else if feed[0] == [] then Ending(0, st, 0, 0)
    else
      var (st1, flow, k) := HandleAll(cfg, st, Split(feed[0]));
      if flow.Next? && st1.multipart then
        var r := Session(cfg, st1, feed[1..], last);
        r.(used := r.used + 1, passed := r.passed + k)
      else Ending(if flow.Out? then flow.err else 0, st1, 1, k)
  }
}

/** A datagram as a stream of netlink messages. */
module Datagram {
  import opened Bytes

  const NLMSG_NOOP := 1
  const NLMSG_ERROR := 2
  const NLMSG_DONE := 3
  const NLMSG_OVERRUN := 4

  /** `nlmsg_ok`: a whole message is at the front of the remaining bytes. */
  predicate MsgOk(b: seq<byte>) {
    |b| >= NLMSG_HDRLEN && NLMSG_HDRLEN <= Un32(b, 0) <= |b|
  }

  /** `nlmsg_next`: what remains. Stepping over the padding of the last message may leave less
      than nothing, which ends the walk as nothing does. */
  function After(b: seq<byte>): (rest: seq<byte>)
    requires MsgOk(b)
    ensures |rest| < |b|
  {
    var step := Align4(Un32(b, 0));
    if step <= |b| then b[step..] else []
  }

  /** The messages of a datagram. */
  function Split(b: seq<byte>): (msgs: seq<seq<byte>>)
    ensures forall m :: m in msgs ==> IsMsg(m)
    decreases |b|
  {
    if MsgOk(b) then
      assert Un32(b[..Un32(b, 0)], 0) == Un32(b, 0);
      [b[..Un32(b, 0)]] + Split(After(b))
    else []
  }

  /** A message that says its own length. */
  predicate IsMsg(m: seq<byte>) {
    |m| >= NLMSG_HDRLEN && Un32(m, 0) == |m|
  }

  function TypeOf(m: seq<byte>): nat
    requires IsMsg(m)
  {
    Un16(m, 4)
  }

  /** `NLM_F_MULTI` and `NLM_F_ACK` are the flag bits of value 2 and 4. */
  predicate IsMulti(m: seq<byte>)
    requires IsMsg(m)
  {
    Un16(m, 6) / 2 % 2 == 1
  }

  predicate WantsAck(m: seq<byte>)
    requires IsMsg(m)
  {
    Un16(m, 6) / 4 % 2 == 1
  }

  function SeqOf(m: seq<byte>): (s: nat)
    requires IsMsg(m)
    ensures s < 0x1_0000_0000
  {
    Un32(m, 8)
  }

  /** An error message too short for a `struct nlmsgerr` of 20 bytes. */
  predicate IsTruncated(m: seq<byte>) {
    |m| < NLMSG_HDRLEN + 20
  }

  /** `nlmsgerr.error`, a signed 32-bit field. */
  function ErrorOf(m: seq<byte>): int
    requires IsMsg(m) && !IsTruncated(m)
  {
    var e := Un32(m, 16);
    if e < 0x8000_0000 then e else e - 0x1_0000_0000
  }

  /** Messages that end a request and move the expected sequence number. */
  predicate Counts(m: seq<byte>)
    requires IsMsg(m)
  {
    TypeOf(m) == NLMSG_DONE || TypeOf(m) == NLMSG_ERROR || TypeOf(m) == NLMSG_NOOP || TypeOf(m) == NLMSG_OVERRUN
  }

  /** The datagram that carries the given messages, each padded to whole words. */
  function Join(msgs: seq<seq<byte>>): seq<byte> {
    if msgs == [] then [] else msgs[0] + Pad(|msgs[0]|) + Join(msgs[1..])
  }

  lemma FirstOf(m: seq<byte>, rest: seq<byte>)
    requires IsMsg(m)
    ensures var b := m + Pad(|m|) + rest; MsgOk(b) && b[..Un32(b, 0)] == m && After(b) == rest
  {
    var b := m + Pad(|m|) + rest;
    assert Un32(b, 0) == Un32(m, 0);
  }

  /** A datagram splits into the messages it was made of. */
  lemma {:induction false} SplitJoin(msgs: seq<seq<byte>>)
    requires forall m :: m in msgs ==> IsMsg(m)
    ensures Split(Join(msgs)) == msgs
  {
    hide MsgOk, After, Un32, Align4;
    if msgs == [] {
      NoMsgInNothing();
    } else {
      assert IsMsg(msgs[0]);
      FirstOf(msgs[0], Join(msgs[1..]));
      SplitJoin(msgs[1..]);
    }
  }

  lemma NoMsgInNothing()
    ensures !MsgOk([])
  {
  }

  lemma {:induction false} SplitLast(last: seq<byte>)
    requires IsMsg(last)
    ensures Split(last) == [last]
  {
    hide Un32;
    assert last[..|last|] == last && After(last) == [];
    NoMsgInNothing();
  }

  /** The padding after the last message may be missing. */
  lemma {:induction false} SplitJoinUnpadded(msgs: seq<seq<byte>>, last: seq<byte>)
    requires IsMsg(last) && forall m :: m in msgs ==> IsMsg(m)
    ensures Split(Join(msgs) + last) == msgs + [last]
  {
    hide MsgOk, After, Un32, Align4;
    if msgs == [] {
      assert Join(msgs) + last == last;
      SplitLast(last);
    } else {
      assert IsMsg(msgs[0]);
      FirstOf(msgs[0], Join(msgs[1..]) + last);
      SplitJoinUnpadded(msgs[1..], last);
      assert Join(msgs) + last == msgs[0] + Pad(|msgs[0]|) + (Join(msgs[1..]) + last);
      assert msgs + [last] == [msgs[0]] + (msgs[1..] + [last]);
    }
  }
}

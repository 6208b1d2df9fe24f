/** What the callbacks' answers do to a call of `recvmsgs`: every callback made belongs to one
    message, and going on, skipping, stopping and failing follow from the answers. */
module ReceiveAnswers {
  import opened Bytes
  import opened Datagram
  import opened Receive
  import opened ReceiveTheorems

  /** What the answer to the `k`-th callback means. */
  function ReplyAt(cfg: Config, calls: seq<Call>, k: nat): Flow
    requires k < |calls| && IsMsg(calls[k].msg)
  {
    Reply(cfg, calls[k], cfg.answer(calls[..k], calls[k]))
  }

  /** The callbacks from `c` to `c'` are all about `m`; one answered with anything but "go on" is the
      last, and so is the error callback; what it says is where control goes. */
  ghost predicate Logged(cfg: Config, c: seq<Call>, c': seq<Call>, m: seq<byte>, flow: Flow)
    requires IsMsg(m)
  {
    && c <= c'
    && forall k :: |c| <= k < |c'| ==>
      && c'[k].msg == m && (c'[k].kind == Error ==> !IsTruncated(m))
      && (ReplyAt(cfg, c', k) != Next || c'[k].kind == Error ==> k == |c'| - 1 && flow == ReplyAt(cfg, c', k))
  }

  /** The error callback comes last in a script, if at all. */
  ghost predicate ErrorLast(script: seq<Step>) {
    forall i :: 0 <= i < |script| - 1 ==> script[i] != Ask(Error)
  }

  lemma {:induction false} PlayLogged(cfg: Config, calls: seq<Call>, script: seq<Step>, m: seq<byte>)
    requires IsMsg(m) && ErrorLast(script) && (Ask(Error) in script ==> !IsTruncated(m))
    ensures var r := Play(cfg, calls, script, m); Logged(cfg, calls, r.0, m, r.1)
    decreases |script|
  {
    if script != [] && script[0].Ask? {
      hide Reply;
      var call := Call(script[0].kind, m);
      var c1 := calls + [call];
      assert c1[..|calls|] == calls;
      if Reply(cfg, call, cfg.answer(calls, call)) == Next {
        assert forall s :: s in script[1..] ==> s in script;
        PlayLogged(cfg, c1, script[1..], m);
        var r := Play(cfg, c1, script[1..], m);
        assert r.0[..|calls|] == calls && r.0[|calls|] == call;
        if call.kind == Error {
          assert |script| == 1;
        }
      }
    }
  }

  lemma {:induction false} LoggedOn(cfg: Config, c: seq<Call>, c1: seq<Call>, c2: seq<Call>, m: seq<byte>, flow: Flow)
    requires IsMsg(m) && Logged(cfg, c, c1, m, Next) && Logged(cfg, c1, c2, m, flow)
    requires forall k :: |c| <= k < |c1| ==> c1[k].kind != Error
    ensures Logged(cfg, c, c2, m, flow)
  {
    hide Reply;
    forall k | |c| <= k < |c1|
      ensures c2[k] == c1[k] && c2[..k] == c1[..k]
    {
    }
  }

  lemma ScriptShapes(cfg: Config, expected: nat, m: seq<byte>)
    requires IsMsg(m)
    ensures Ask(Error) !in Opening(cfg, expected, m) && Ask(Error) !in Acking(cfg, m) && |Closing(cfg, m)| <= 1
    ensures Ask(Error) in Closing(cfg, m) ==> !IsTruncated(m)
  {
  }

  lemma {:induction false} NoErrorCalls(cfg: Config, calls: seq<Call>, script: seq<Step>, m: seq<byte>)
    requires IsMsg(m) && Ask(Error) !in script
    ensures var c' := Play(cfg, calls, script, m).0;
      calls <= c' && forall k :: |calls| <= k < |c'| ==> c'[k].kind != Error
    decreases |script|
  {
    if script != [] && script[0].Ask? {
      hide Reply;
      assert script[0] in script && forall s :: s in script[1..] ==> s in script;
      NoErrorCalls(cfg, calls + [Call(script[0].kind, m)], script[1..], m);
    }
  }

  /** One message: its callbacks, and what they decide. Without memory there are none. */
  lemma {:induction false} HandleLogged(cfg: Config, st: State, m: seq<byte>)
    requires IsMsg(m)
    ensures var (st', flow) := Handle(cfg, st, m);
      && Logged(cfg, st.calls, st'.calls, m, flow)
      && (cfg.memory(st.converted) ==> st'.converted == st.converted + 1)
      && (!cfg.memory(st.converted) ==> st'.calls == st.calls && flow == Out(-5))
  {
    hide Play, Reply, Opening, Acking, Closing, Logged, Un16, Un32;
    LoggedNothing(cfg, st.calls, m);
    if cfg.memory(st.converted) {
      ScriptShapes(cfg, st.expected, m);
      var (c1, f1) := Play(cfg, st.calls, Opening(cfg, st.expected, m), m);
      PlayLogged(cfg, st.calls, Opening(cfg, st.expected, m), m);
      NoErrorCalls(cfg, st.calls, Opening(cfg, st.expected, m), m);
      if f1 == Next {
        var (c2, f2) := Play(cfg, c1, Acking(cfg, m), m);
        PlayLogged(cfg, c1, Acking(cfg, m), m);
        NoErrorCalls(cfg, c1, Acking(cfg, m), m);
        LoggedOn(cfg, st.calls, c1, c2, m, f2);
        if f2 == Next {
          var (c3, f3) := Play(cfg, c2, Closing(cfg, m), m);
          PlayLogged(cfg, c2, Closing(cfg, m), m);
          LoggedOn(cfg, st.calls, c2, c3, m, f3);
        }
      }
    }
  }

  lemma LoggedNothing(cfg: Config, calls: seq<Call>, m: seq<byte>)
    requires IsMsg(m)
    ensures forall flow :: Logged(cfg, calls, calls, m, flow)
  {
  }

  // ---- the socket's state

  /** The callback numbered `k` was not answered with 0. */
  predicate Objects(cfg: Config, calls: seq<Call>, k: nat)
    requires k < |calls|
  {
    cfg.answer(calls[..k], calls[k]) != 0
  }

  /** One of the callbacks from `from` on, of one of the given kinds, was not answered with 0. */
  ghost predicate SomeObjects(cfg: Config, calls: seq<Call>, from: nat, kinds: set<Kind>) {
    exists k :: from <= k < |calls| && calls[k].kind in kinds && Objects(cfg, calls, k)
  }

  /** A script of questions goes through exactly if every answer is 0. */
  lemma {:induction false} QuestionsPass(
      cfg: Config, calls: seq<Call>, script: seq<Step>, m: seq<byte>, kinds: set<Kind>)
    requires IsMsg(m) && Error !in kinds && forall s :: s in script ==> s.Ask? && s.kind in kinds
    ensures var (c', flow) := Play(cfg, calls, script, m);
      && calls <= c' && (forall k :: |calls| <= k < |c'| ==> c'[k].kind in kinds)
      && (flow == Next <==> !SomeObjects(cfg, c', |calls|, kinds))
    decreases |script|
  {
    if script != [] {
      assert script[0] in script && forall s :: s in script[1..] ==> s in script;
      var call := Call(script[0].kind, m);
      var c1 := calls + [call];
      assert c1[..|calls|] == calls;
      if cfg.answer(calls, call) == 0 {
        QuestionsPass(cfg, c1, script[1..], m, kinds);
        var c' := Play(cfg, c1, script[1..], m).0;
        assert c'[..|calls|] == calls && c'[|calls|] == call && !Objects(cfg, c', |calls|);
      } else {
        assert Objects(cfg, c1, |calls|);
      }
    }
  }

  /** What lies before a point is the same in a longer log. */
  lemma {:induction false} ObjectsStays(cfg: Config, from: nat, c: seq<Call>, c': seq<Call>, kinds: set<Kind>)
    requires c <= c' && from <= |c| && forall k :: |c| <= k < |c'| ==> c'[k].kind !in kinds
    ensures SomeObjects(cfg, c, from, kinds) <==> SomeObjects(cfg, c', from, kinds)
  {
    forall k | from <= k < |c|
      ensures c'[k] == c[k] && Objects(cfg, c', k) == Objects(cfg, c, k)
    {
      assert c'[..k] == c[..k];
    }
  }

  lemma {:induction false} ObjectsFrom(cfg: Config, from: nat, mid: nat, c: seq<Call>, kinds: set<Kind>)
    requires from <= mid <= |c| && forall k :: from <= k < mid ==> c[k].kind !in kinds
    ensures SomeObjects(cfg, c, from, kinds) <==> SomeObjects(cfg, c, mid, kinds)
  {
  }

  lemma ClosingKinds(cfg: Config, calls: seq<Call>, m: seq<byte>)
    requires IsMsg(m)
    ensures var c' := Play(cfg, calls, Closing(cfg, m), m).0;
      && calls <= c' && |c'| <= |calls| + 1
      && forall k :: |calls| <= k < |c'| ==> c'[k].kind !in {MsgIn, SeqCheck, SendAck}
  {
  }

  /** The expected number and the multipart flag, for a message whose number passes the default check
      or is not subject to it. They stay as they are if the raw or the sequence callback objects.
      Otherwise the number moves for a closing message; the flag is set by a multipart message,
      and cleared by DONE unless the acknowledgement callback objects. */
  lemma {:induction false} StateMoves(cfg: Config, st: State, m: seq<byte>)
    requires IsMsg(m) && cfg.memory(st.converted)
    requires SeqCheck in cfg.present || !cfg.autoAck || SeqOf(m) == st.expected
    ensures var st', lo := Handle(cfg, st, m).0, |st.calls|;
      if SomeObjects(cfg, st'.calls, lo, {MsgIn, SeqCheck}) then
        st'.expected == st.expected && st'.multipart == st.multipart
      else
        && st'.expected == ExpectAfter(st.expected, m)
        && st'.multipart ==
           if SomeObjects(cfg, st'.calls, lo, {SendAck}) then st.multipart || IsMulti(m)
           else MultiAfter(st.multipart, m)
  {
    hide Play, Reply, Un16, Un32, SomeObjects, Closing;
    var open, ack := Opening(cfg, st.expected, m), Acking(cfg, m);
    var (c1, f1) := Play(cfg, st.calls, open, m);
    QuestionsPass(cfg, st.calls, open, m, {MsgIn, SeqCheck});
    ObjectsFrom(cfg, |st.calls|, |c1|, c1, {SendAck});
    if f1 == Next {
      var (c2, f2) := Play(cfg, c1, ack, m);
      QuestionsPass(cfg, c1, ack, m, {SendAck});
      ObjectsStays(cfg, |st.calls|, c1, c2, {MsgIn, SeqCheck});
      ObjectsFrom(cfg, |st.calls|, |c1|, c2, {SendAck});
      if f2 == Next {
        var c3 := Play(cfg, c2, Closing(cfg, m), m).0;
        ClosingKinds(cfg, c2, m);
        ObjectsStays(cfg, |st.calls|, c2, c3, {MsgIn, SeqCheck});
        ObjectsStays(cfg, |st.calls|, c2, c3, {SendAck});
      }
    }
  }

  // ---- many messages

  /** The callbacks about one message are those from `from` to `to`. `through` says that control went
      on to the next message; otherwise these callbacks are the last. */
  ghost predicate SegmentOk(
      cfg: Config, m: seq<byte>, calls: seq<Call>, from: nat, to: nat, through: bool, flow: Flow, memory: bool)
    requires IsMsg(m)
  {
    && from <= to <= |calls| && (!through ==> to == |calls| && (flow.Stop? || flow.Out?))
    && (forall k :: from <= k < to ==>
          && calls[k].msg == m && (ReplyAt(cfg, calls, k) != Next || calls[k].kind == Error ==> k == to - 1)
          && (calls[k].kind == Error ==> !IsTruncated(m))
          && (through ==> ReplyAt(cfg, calls, k) == Next || ReplyAt(cfg, calls, k) == Skip)
          && (!through && (ReplyAt(cfg, calls, k) != Next || calls[k].kind == Error) ==>
                flow == ReplyAt(cfg, calls, k)))
    && (!memory ==> !through && from == to && flow == Out(-5))
  }

  /** The messages begun: those passed, and the one that ended the call, if any. */
  function Begun(passed: nat, total: nat): nat {
    if passed < total then passed + 1 else passed
  }

  /** `starts` divides the callbacks made since there were `lo` of them among the messages begun. */
  ghost predicate Segmented(
      cfg: Config, msgs: seq<seq<byte>>, lo: nat, calls: seq<Call>, starts: seq<nat>, passed: nat, flow: Flow,
      conv: nat)
    requires AreMsgs(msgs)
  {
    var n := Begun(passed, |msgs|);
    && passed <= |msgs| && |starts| == n + 1 && starts[0] == lo && starts[n] == |calls|
    && forall i :: 0 <= i < n ==>
      SegmentOk(cfg, msgs[i], calls, starts[i], starts[i + 1], i < passed, flow, cfg.memory(conv + i))
  }

  /** What was decided about a message passed does not change as more callbacks follow. */
  lemma {:induction false} SegmentStays(
      cfg: Config, m: seq<byte>, calls: seq<Call>, calls': seq<Call>, from: nat, to: nat, flow: Flow, flow': Flow,
      memory: bool)
    requires IsMsg(m) && SegmentOk(cfg, m, calls, from, to, true, flow, memory) && calls <= calls'
    ensures SegmentOk(cfg, m, calls', from, to, true, flow', memory)
  {
    hide Reply;
    forall k | from <= k < to
      ensures calls'[k] == calls[k] && calls'[..k] == calls[..k]
    {
    }
  }

  lemma {:induction false} OneSegment(cfg: Config, st: State, m: seq<byte>)
    requires IsMsg(m)
    ensures var (st', flow) := Handle(cfg, st, m);
      && st.calls <= st'.calls
      && SegmentOk(cfg, m, st'.calls, |st.calls|, |st'.calls|, flow.Next? || flow.Skip?, flow, cfg.memory(st.converted))
      && ((flow.Next? || flow.Skip?) ==> st'.converted == st.converted + 1)
  {
    hide Handle, Reply;
    HandleLogged(cfg, st, m);
    var (st', flow) := Handle(cfg, st, m);
    forall k | |st.calls| <= k < |st'.calls|
      ensures st'.calls[k].msg == m
      ensures ReplyAt(cfg, st'.calls, k) != Next || st'.calls[k].kind == Error ==>
        k == |st'.calls| - 1 && flow == ReplyAt(cfg, st'.calls, k)
    {
    }
  }

  lemma {:induction false} AllSegments(cfg: Config, st: State, msgs: seq<seq<byte>>) returns (starts: seq<nat>)
    requires AreMsgs(msgs)
    ensures var (st', flow, passed) := HandleAll(cfg, st, msgs);
      && st.calls <= st'.calls && Segmented(cfg, msgs, |st.calls|, st'.calls, starts, passed, flow, st.converted)
      && (flow == Next ==> st'.converted == st.converted + |msgs|)
    decreases |msgs|
  {
    hide Handle, HandleAll, SegmentOk, Segmented, IsMsg;
    HandleAllUnfolds(cfg, st, msgs);
    if msgs == [] {
      starts := [|st.calls|];
      NoSegment(cfg, st.calls, HandleAll(cfg, st, msgs).1, st.converted);
    } else {
      var (st1, flow1) := Handle(cfg, st, msgs[0]);
      OneSegment(cfg, st, msgs[0]);
      if flow1.Stop? || flow1.Out? {
        starts := [|st.calls|, |st1.calls|];
        LastSegment(cfg, msgs, |st.calls|, st1.calls, flow1, st.converted);
      } else {
        var (st', flow, passed) := HandleAll(cfg, st1, msgs[1..]);
        var more := AllSegments(cfg, st1, msgs[1..]);
        var memory := cfg.memory(st.converted);
        SegmentStays(cfg, msgs[0], st1.calls, st'.calls, |st.calls|, |st1.calls|, flow1, flow, memory);
        starts := [|st.calls|] + more;
        StartsFirst(cfg, msgs[1..], |st1.calls|, st'.calls, more, passed, flow, st1.converted);
        JoinOne(cfg, msgs, |st.calls|, st'.calls, more, passed, flow, st.converted);
      }
    }
  }

  lemma {:induction false} HandleAllUnfolds(cfg: Config, st: State, msgs: seq<seq<byte>>)
    requires AreMsgs(msgs)
    ensures msgs == [] ==> HandleAll(cfg, st, msgs) == (st, Next, 0)
    ensures msgs != [] ==>
      && IsMsg(msgs[0]) && AreMsgs(msgs[1..])
      && var (st1, flow) := Handle(cfg, st, msgs[0]);
      var r := HandleAll(cfg, st1, msgs[1..]);
      HandleAll(cfg, st, msgs) == if flow.Stop? || flow.Out? then (st1, flow, 0) else (r.0, r.1, r.2 + 1)
  {
    hide Handle;
  }

  lemma NoSegment(cfg: Config, calls: seq<Call>, flow: Flow, conv: nat)
    ensures Segmented(cfg, [], |calls|, calls, [|calls|], 0, flow, conv)
  {
  }

  lemma LastSegment(cfg: Config, msgs: seq<seq<byte>>, lo: nat, calls: seq<Call>, flow: Flow, conv: nat)
    requires AreMsgs(msgs) && msgs != []
    requires SegmentOk(cfg, msgs[0], calls, lo, |calls|, false, flow, cfg.memory(conv))
    ensures Segmented(cfg, msgs, lo, calls, [lo, |calls|], 0, flow, conv)
  {
    hide SegmentOk, IsMsg;
  }

  lemma StartsFirst(
      cfg: Config, msgs: seq<seq<byte>>, lo: nat, calls: seq<Call>, starts: seq<nat>, passed: nat, flow: Flow,
      conv: nat)
    requires AreMsgs(msgs) && Segmented(cfg, msgs, lo, calls, starts, passed, flow, conv)
    ensures passed <= |msgs| && |starts| == Begun(passed, |msgs|) + 1 && starts[0] == lo
    ensures starts[|starts| - 1] == |calls|
  {
    hide SegmentOk, IsMsg;
  }

  lemma {:induction false} JoinOne(
      cfg: Config, msgs: seq<seq<byte>>, lo: nat, calls: seq<Call>, more: seq<nat>, passed: nat, flow: Flow, conv: nat)
    requires AreMsgs(msgs) && msgs != [] && more != []
    requires SegmentOk(cfg, msgs[0], calls, lo, more[0], true, flow, cfg.memory(conv))
    requires Segmented(cfg, msgs[1..], more[0], calls, more, passed, flow, conv + 1)
    ensures Segmented(cfg, msgs, lo, calls, [lo] + more, passed + 1, flow, conv)
  {
    hide SegmentOk, IsMsg;
    var starts, n := [lo] + more, Begun(passed + 1, |msgs|);
    forall i | 0 <= i < n
      ensures SegmentOk(cfg, msgs[i], calls, starts[i], starts[i + 1], i < passed + 1, flow, cfg.memory(conv + i))
    {
      if i > 0 {
        assert msgs[i] == msgs[1..][i - 1] && cfg.memory(conv + i) == cfg.memory(conv + 1 + (i - 1));
      }
    }
  }

  /** The segments of one datagram, all of whose messages passed, and those of what follows. */
  lemma {:induction false} JoinAll(
      cfg: Config, a: seq<seq<byte>>, b: seq<seq<byte>>, lo: nat, c1: seq<Call>, c2: seq<Call>,
      s1: seq<nat>, s2: seq<nat>, passed: nat, flow1: Flow, flow: Flow, conv: nat)
    requires AreMsgs(a) && AreMsgs(b) && AreMsgs(a + b) && c1 <= c2
    requires Segmented(cfg, a, lo, c1, s1, |a|, flow1, conv)
    requires Segmented(cfg, b, |c1|, c2, s2, passed, flow, conv + |a|)
    ensures Segmented(cfg, a + b, lo, c2, s1[..|a|] + s2, |a| + passed, flow, conv)
  {
    hide SegmentOk, IsMsg;
    var starts, msgs := s1[..|a|] + s2, a + b;
    var n := Begun(|a| + passed, |msgs|);
    forall i | 0 <= i < n
      ensures SegmentOk(cfg, msgs[i], c2, starts[i], starts[i + 1], i < |a| + passed, flow, cfg.memory(conv + i))
    {
      if i < |a| {
        assert starts[i] == s1[i] && starts[i + 1] == s1[i + 1];
        SegmentStays(cfg, a[i], c1, c2, s1[i], s1[i + 1], flow1, flow, cfg.memory(conv + i));
      } else {
        var j := i - |a|;
        assert msgs[i] == b[j] && starts[i] == s2[j] && starts[i + 1] == s2[j + 1];
        assert conv + i == conv + |a| + j;
      }
    }
  }

  // ---- a whole call

  /** How a call ends early: the flow at the message that ends it. */
  function EndOf(flow: Flow): int {
    if flow.Out? then flow.err else 0
  }

  lemma {:induction false} SessionSegments(cfg: Config, st: State, feed: seq<seq<byte>>, last: int)
    returns (starts: seq<nat>, flow: Flow)
    ensures var r := Session(cfg, st, feed, last);
      var msgs := Messages(feed[..r.used]);
      && st.calls <= r.st.calls && Segmented(cfg, msgs, |st.calls|, r.st.calls, starts, r.passed, flow, st.converted)
      && (r.passed < |msgs| ==> r.err == EndOf(flow))
      && (r.passed == |msgs| ==>
            && (r.err == 0 || (r.used == |feed| && r.err == last))
            && (r.used > 0 && r.st.multipart ==> r.used == |feed| || feed[r.used] == []))
    decreases |feed|
  {
    hide HandleAll, Split, Segmented;
    var r := Session(cfg, st, feed, last);
    if feed == [] || feed[0] == [] {
      starts, flow := [|st.calls|], Next;
      assert feed[..0] == [] && Messages([]) == [];
      NoSegment(cfg, st.calls, flow, st.converted);
    } else {
      var ms := Split(feed[0]);
      var (st1, flow1, k) := HandleAll(cfg, st, ms);
      starts := AllSegments(cfg, st, ms);
      flow := flow1;
      OneDatagram(feed);
      if flow1 == Next && st1.multipart {
        var r1 := Session(cfg, st1, feed[1..], last);
        var more, flow2 := SessionSegments(cfg, st1, feed[1..], last);
        var rest := Messages(feed[1..][..r1.used]);
        assert feed[..r.used][1..] == feed[1..][..r1.used];
        assert Messages(feed[..r.used]) == ms + rest;
        JoinAll(cfg, ms, rest, |st.calls|, st1.calls, r.st.calls, starts, more, r1.passed, flow1, flow2, st.converted);
        StartsFirst(cfg, ms, |st.calls|, st1.calls, starts, k, flow1, st.converted);
        starts, flow := starts[..|ms|] + more, flow2;
      }
    }
  }

  /** What an answer `a` to a callback about `m` brings about: whether it is the last callback of all
      or of its message, whether the message is passed, and the result `err`. For the error callback
      a negative answer is the result and stopping gives the translated error code. */
  ghost predicate Followed(cfg: Config, call: Call, a: int, lastOfAll: bool, lastOfMsg: bool, passed: bool, err: int) {
    if call.kind != Error then
      && (a == 1 ==> lastOfMsg && passed)
      && (a == 2 ==> lastOfAll && !passed && err == 0)
      && (a != 0 && a != 1 && a != 2 ==> lastOfAll && !passed && err == a)
    else
      && IsMsg(call.msg) && !IsTruncated(call.msg)
      && (a < 0 ==> lastOfAll && !passed && err == a)
      && (a == 2 ==> lastOfAll && !passed && err == -cfg.sysErr(ErrorOf(call.msg)))
      && (a == 0 || a == 1 || a > 2 ==> lastOfMsg && passed)
  }

  /** The callbacks about message `i` are those from `starts[i]` to `starts[i + 1]`. */
  ghost predicate Obeyed(
      cfg: Config, m: seq<byte>, calls: seq<Call>, from: nat, to: nat, passed: bool, err: int, memory: bool) {
    && from <= to <= |calls|
    && (forall k :: from <= k < to ==>
          && calls[k].msg == m
          && Followed(cfg, calls[k], cfg.answer(calls[..k], calls[k]), k == |calls| - 1, k == to - 1, passed, err))
    && (!memory ==> from == to && !passed && err == -5)
  }

  lemma {:induction false} SegmentObeyed(
      cfg: Config, m: seq<byte>, calls: seq<Call>, from: nat, to: nat, passed: bool, flow: Flow, memory: bool, err: int)
    requires IsMsg(m) && SegmentOk(cfg, m, calls, from, to, passed, flow, memory) && (passed || err == EndOf(flow))
    ensures Obeyed(cfg, m, calls, from, to, passed, err, memory)
  {
    forall k | from <= k < to
      ensures Followed(cfg, calls[k], cfg.answer(calls[..k], calls[k]), k == |calls| - 1, k == to - 1, passed, err)
    {
      var flowAt := ReplyAt(cfg, calls, k);
    }
  }

  /** Whatever arrives and whatever callbacks answer, over a whole call: the callbacks made fall to the
      messages begun, in order; an answer of 1 ends its message and the call goes on, 2 ends the call
      with result 0, any other but 0 ends it with that result; the error callback's answers have
      their own meaning; and a message for which there is no memory ends the call with -5 before any
      callback. If all messages read were passed, the call ended because no multipart sequence
      was open or nothing more came. */
  lemma {:induction false} AnswersRule(cfg: Config, st: State, feed: seq<seq<byte>>, last: int)
    returns (starts: seq<nat>)
    ensures var r := Session(cfg, st, feed, last);
      var msgs := Messages(feed[..r.used]);
      var n := Begun(r.passed, |msgs|);
      && r.passed <= |msgs| && |starts| == n + 1 && starts[0] == |st.calls| && starts[n] == |r.st.calls|
      && (forall i :: 0 <= i < n ==>
            && var memory := cfg.memory(st.converted + i);
            Obeyed(cfg, msgs[i], r.st.calls, starts[i], starts[i + 1], i < r.passed, r.err, memory))
      && (r.passed == |msgs| ==>
            && (r.err == 0 || (r.used == |feed| && r.err == last))
            && (r.used > 0 && r.st.multipart ==> r.used == |feed| || feed[r.used] == []))
  {
    hide Session, SegmentOk, Obeyed;
    var r := Session(cfg, st, feed, last);
    var msgs := Messages(feed[..r.used]);
    var flow;
    starts, flow := SessionSegments(cfg, st, feed, last);
    var n := Begun(r.passed, |msgs|);
    forall i | 0 <= i < n
      ensures var memory := cfg.memory(st.converted + i);
        Obeyed(cfg, msgs[i], r.st.calls, starts[i], starts[i + 1], i < r.passed, r.err, memory)
    {
      var memory := cfg.memory(st.converted + i);
      SegmentObeyed(cfg, msgs[i], r.st.calls, starts[i], starts[i + 1], i < r.passed, flow, memory, r.err);
    }
  }
}

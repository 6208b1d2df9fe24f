/** Multipart delivery: which messages reach the application, and how long a call reads on. */
module ReceiveTheorems {
  import opened Errors
  import opened Bytes
  import opened Datagram
  import opened Receive

  /** Callbacks always let things proceed, and memory does not run out. */
  ghost predicate AllOk(cfg: Config) {
    (forall calls, call :: cfg.answer(calls, call) == NL_OK) && (forall k :: cfg.memory(k))
  }

  predicate IsData(m: seq<byte>)
    requires IsMsg(m)
  {
    !Counts(m)
  }

  function DataOf(msgs: seq<seq<byte>>): seq<seq<byte>>
    requires forall m :: m in msgs ==> IsMsg(m)
  {
    if msgs == [] then [] else (if IsData(msgs[0]) then [msgs[0]] else []) + DataOf(msgs[1..])
  }

  /** What `NL_CB_VALID` was called with. */
  function Delivered(calls: seq<Call>): seq<seq<byte>> {
    if calls == [] then []
    else
      var last := calls[|calls| - 1];
      Delivered(calls[..|calls| - 1]) + if last.kind == Valid then [last.msg] else []
  }

  lemma DeliveredAppend(calls: seq<Call>, call: Call)
    ensures Delivered(calls + [call]) == Delivered(calls) + if call.kind == Valid then [call.msg] else []
  {
    assert (calls + [call])[..|calls|] == calls;
  }

  /** The result when a message is refused because no callback is there to excuse it. */
  function DefaultError(cfg: Config, expected: nat, m: seq<byte>): int
    requires IsMsg(m)
  {
    if SeqCheck !in cfg.present && cfg.autoAck && SeqOf(m) != expected && Invalid !in cfg.present then -NLE_SEQ_MISMATCH
    else if TypeOf(m) == NLMSG_OVERRUN then -NLE_MSG_OVERFLOW
    else if IsTruncated(m) then -NLE_MSG_TRUNC
    else -cfg.sysErr(ErrorOf(m))
  }

  /** Messages that end the call unless a callback is there to excuse them. */
  predicate FailsByDefault(cfg: Config, expected: nat, m: seq<byte>)
    requires IsMsg(m)
  {
    || (SeqCheck !in cfg.present && cfg.autoAck && SeqOf(m) != expected && Invalid !in cfg.present)
    || (TypeOf(m) == NLMSG_OVERRUN && Overrun !in cfg.present)
    || (TypeOf(m) == NLMSG_ERROR && IsTruncated(m) && Invalid !in cfg.present)
    || (TypeOf(m) == NLMSG_ERROR && !IsTruncated(m) && ErrorOf(m) != 0 && Error !in cfg.present)
  }

  // ---- scripts

  /** A script that never asks `NL_CB_VALID` delivers nothing, whatever the answers. */
  lemma {:induction false} QuietPlay(cfg: Config, calls: seq<Call>, script: seq<Step>, m: seq<byte>)
    requires IsMsg(m) && Ask(Valid) !in script
    ensures Delivered(Play(cfg, calls, script, m).0) == Delivered(calls)
    decreases |script|
  {
    if script != [] && script[0].Ask? {
      DeliveredAppend(calls, Call(script[0].kind, m));
      assert forall s :: s in script[1..] ==> s in script;
      QuietPlay(cfg, calls + [Call(script[0].kind, m)], script[1..], m);
    }
  }

  lemma QuietStages(cfg: Config, expected: nat, m: seq<byte>)
    requires IsMsg(m)
    ensures Ask(Valid) !in Opening(cfg, expected, m) && Ask(Valid) !in Acking(cfg, m)
    ensures IsData(m) ==> Closing(cfg, m) == AskOr(cfg, Valid, [])
    ensures !IsData(m) ==> Ask(Valid) !in Closing(cfg, m)
  {
  }

  /** With agreeable callbacks a script of questions goes through, and a step that is no question
      decides. */
  lemma {:induction false} OkPlay(cfg: Config, calls: seq<Call>, script: seq<Step>, m: seq<byte>)
    requires IsMsg(m) && AllOk(cfg)
    ensures |script| == 0 ==> Play(cfg, calls, script, m) == (calls, Next)
    ensures |script| == 1 ==>
      var r := match script[0]
        case Ask(kind) => (calls + [Call(kind, m)], Next)
        case Fail(err) => (calls, Out(err))
        case PassOver => (calls, Skip);
      Play(cfg, calls, script, m) == r
  {
    if |script| == 1 && script[0].Ask? {
      assert Reply(cfg, Call(script[0].kind, m), NL_OK) == Next;
      assert Play(cfg, calls + [Call(script[0].kind, m)], script[1..], m).1 == Next;
    }
  }

  lemma {:induction false} OkOpening(cfg: Config, calls: seq<Call>, expected: nat, m: seq<byte>)
    requires IsMsg(m) && AllOk(cfg)
    ensures Play(cfg, calls, Opening(cfg, expected, m), m).1 ==
      if SeqCheck !in cfg.present && cfg.autoAck && SeqOf(m) != expected && Invalid !in cfg.present
      then Out(-NLE_SEQ_MISMATCH) else Next
  {
    var a := AskOr(cfg, MsgIn, []);
    var b := AskOr(cfg, SeqCheck,
      if cfg.autoAck && SeqOf(m) != expected then AskOr(cfg, Invalid, [Fail(-NLE_SEQ_MISMATCH)]) else []);
    PlayTwo(cfg, calls, a, b, m);
    OkPlay(cfg, calls, a, m);
    OkPlay(cfg, Play(cfg, calls, a, m).0, b, m);
  }

  // ---- one message

  function MultiAfter(multipart: bool, m: seq<byte>): bool
    requires IsMsg(m)
  {
    (multipart || IsMulti(m)) && TypeOf(m) != NLMSG_DONE
  }

  function ExpectAfter(expected: nat, m: seq<byte>): nat
    requires IsMsg(m)
  {
    if Counts(m) then NextSeq(expected) else expected
  }

  /** With agreeable callbacks a message is refused exactly if it fails by default; otherwise it
      is delivered exactly if it is data. */
  lemma {:induction false} OkHandle(cfg: Config, st: State, m: seq<byte>)
    requires IsMsg(m) && AllOk(cfg) && Valid in cfg.present
    ensures var (st', flow) := Handle(cfg, st, m);
      if FailsByDefault(cfg, st.expected, m) then
        flow == Out(DefaultError(cfg, st.expected, m)) && Delivered(st'.calls) == Delivered(st.calls)
      else
        && (flow == Next || flow == Skip)
        && Delivered(st'.calls) == Delivered(st.calls) + (if IsData(m) then [m] else [])
        && st'.multipart == MultiAfter(st.multipart, m) && st'.expected == ExpectAfter(st.expected, m)
  {
    hide Play, Delivered, Reply, Opening, Acking, Un16, Un32;
    var (c1, f1) := Play(cfg, st.calls, Opening(cfg, st.expected, m), m);
    OkOpening(cfg, st.calls, st.expected, m);
    QuietStages(cfg, st.expected, m);
    QuietPlay(cfg, st.calls, Opening(cfg, st.expected, m), m);
    if f1 == Next {
      var c2 := Play(cfg, c1, Acking(cfg, m), m).0;
      OkAcking(cfg, c1, m);
      QuietPlay(cfg, c1, Acking(cfg, m), m);
      OkPlay(cfg, c2, Closing(cfg, m), m);
      DeliveredAppend(c2, Call(Valid, m));
      if !IsData(m) {
        QuietPlay(cfg, c2, Closing(cfg, m), m);
      }
    }
  }

  lemma {:induction false} OkAcking(cfg: Config, calls: seq<Call>, m: seq<byte>)
    requires IsMsg(m) && AllOk(cfg)
    ensures Play(cfg, calls, Acking(cfg, m), m).1 == Next
  {
    OkPlay(cfg, calls, Acking(cfg, m), m);
  }

  /** When a callback is due for a message. */
  predicate Due(cfg: Config, expected: nat, kind: Kind, m: seq<byte>)
    requires IsMsg(m)
  {
    var isError := TypeOf(m) == NLMSG_ERROR;
    match kind
    case MsgIn => true
    case SeqCheck => true
    case Invalid =>
      (SeqCheck !in cfg.present && cfg.autoAck && SeqOf(m) != expected) || (isError && IsTruncated(m))
    case SendAck => WantsAck(m)
    case Finish => TypeOf(m) == NLMSG_DONE
    case Skipped => TypeOf(m) == NLMSG_NOOP
    case Overrun => TypeOf(m) == NLMSG_OVERRUN
    case Error => isError && !IsTruncated(m) && ErrorOf(m) != 0
    case Ack => isError && !IsTruncated(m) && ErrorOf(m) == 0
    case Valid => IsData(m)
  }

  /** By number: type 1 is passed over, 2 is an error or an acknowledgement, 3 ends a dump, 4 is a loss;
      these four count as closing, all others are data. The results of refusal are -16 for a wrong
      number, -17 for a loss, -18 for an error cut short. */
  lemma TypesByNumber(cfg: Config, expected: nat, m: seq<byte>)
    requires IsMsg(m)
    ensures Counts(m) <==> 1 <= TypeOf(m) <= 4
    ensures Due(cfg, expected, Skipped, m) <==> TypeOf(m) == 1
    ensures Due(cfg, expected, Error, m) || Due(cfg, expected, Ack, m) <==> TypeOf(m) == 2 && |m| >= 36
    ensures Due(cfg, expected, Finish, m) <==> TypeOf(m) == 3
    ensures Due(cfg, expected, Overrun, m) <==> TypeOf(m) == 4
    ensures Due(cfg, expected, Valid, m) <==> TypeOf(m) == 0 || TypeOf(m) > 4
    ensures FailsByDefault(cfg, expected, m) ==>
      var code := DefaultError(cfg, expected, m);
      if SeqCheck !in cfg.present && cfg.autoAck && SeqOf(m) != expected && Invalid !in cfg.present then code == -16
      else if TypeOf(m) == 4 then code == -17
      else TypeOf(m) == 2 && code == if |m| < 36 then -18 else -cfg.sysErr(ErrorOf(m))
  {
  }

  /** The callbacks a script of at most one step makes. */
  function Asked(script: seq<Step>, m: seq<byte>): seq<Call> {
    if |script| == 1 && script[0].Ask? then [Call(script[0].kind, m)] else []
  }

  lemma {:induction false} OkAsked(cfg: Config, calls: seq<Call>, script: seq<Step>, m: seq<byte>)
    requires IsMsg(m) && AllOk(cfg) && |script| <= 1
    ensures Play(cfg, calls, script, m).0 == calls + Asked(script, m)
    ensures Play(cfg, calls, script, m).1 == Next <==> script == [] || script[0].Ask?
  {
    OkPlay(cfg, calls, script, m);
  }

  /** The raw callback comes first, only it before the sequence callback, and the one for the message's
      type last. */
  ghost predicate InOrder(made: seq<Call>) {
    && (forall i :: 0 <= i < |made| && made[i].kind == MsgIn ==> i == 0)
    && (forall i, j :: 0 <= i < j < |made| && made[j].kind == SeqCheck ==> made[i].kind == MsgIn)
    && (forall i :: 0 <= i < |made| && made[i].kind !in {MsgIn, SeqCheck, Invalid, SendAck} ==> i == |made| - 1)
  }

  /** With agreeable callbacks, a message that does not fail by default makes exactly the callbacks
      that are set and due for it, in order. */
  lemma {:induction false} OkCalls(cfg: Config, st: State, m: seq<byte>) returns (made: seq<Call>)
    requires IsMsg(m) && AllOk(cfg) && !FailsByDefault(cfg, st.expected, m)
    ensures Handle(cfg, st, m).0.calls == st.calls + made
    ensures forall call ::
      call in made <==> call.msg == m && call.kind in cfg.present && Due(cfg, st.expected, call.kind, m)
    ensures InOrder(made)
  {
    hide Play, Reply, Un16, Un32, Opening, Acking, Closing, AskOr, Due;
    var c1 := OkOpeningCalls(cfg, st.calls, st.expected, m);
    ShortScripts(cfg, m);
    NoDefaultClosing(cfg, st.expected, m);
    var ack, close := Asked(Acking(cfg, m), m), Asked(Closing(cfg, m), m);
    OkAsked(cfg, c1, Acking(cfg, m), m);
    OkAsked(cfg, c1 + ack, Closing(cfg, m), m);
    var open := Asked(AskOr(cfg, MsgIn, []), m) + Checked(cfg, st.expected, m);
    made := open + ack + close;
    assert st.calls + open + ack + close == st.calls + made;
    AskedIsDue(cfg, st.expected, m);
    AskedInOrder(cfg, st.expected, m);
  }

  lemma AskedInOrder(cfg: Config, expected: nat, m: seq<byte>)
    requires IsMsg(m)
    ensures InOrder(Asked(AskOr(cfg, MsgIn, []), m) + Checked(cfg, expected, m)
                    + Asked(Acking(cfg, m), m) + Asked(Closing(cfg, m), m))
  {
  }

  /** The callbacks of the sequence check. */
  function Checked(cfg: Config, expected: nat, m: seq<byte>): seq<Call>
    requires IsMsg(m)
  {
    if SeqCheck in cfg.present then [Call(SeqCheck, m)]
    else if cfg.autoAck && SeqOf(m) != expected then [Call(Invalid, m)]
    else []
  }

  lemma {:induction false} OkOpeningCalls(cfg: Config, calls: seq<Call>, expected: nat, m: seq<byte>)
    returns (c1: seq<Call>)
    requires IsMsg(m) && AllOk(cfg) && !FailsByDefault(cfg, expected, m)
    ensures c1 == calls + (Asked(AskOr(cfg, MsgIn, []), m) + Checked(cfg, expected, m))
    ensures Play(cfg, calls, Opening(cfg, expected, m), m) == (c1, Next)
  {
    hide Play, Reply, Un16, Un32;
    var a := AskOr(cfg, MsgIn, []);
    var b := AskOr(cfg, SeqCheck,
      if cfg.autoAck && SeqOf(m) != expected then AskOr(cfg, Invalid, [Fail(-NLE_SEQ_MISMATCH)]) else []);
    PlayTwo(cfg, calls, a, b, m);
    OkAsked(cfg, calls, a, m);
    OkAsked(cfg, calls + Asked(a, m), b, m);
    c1 := calls + (Asked(a, m) + Checked(cfg, expected, m));
    assert calls + Asked(a, m) + Asked(b, m) == c1;
  }

  lemma NoDefaultClosing(cfg: Config, expected: nat, m: seq<byte>)
    requires IsMsg(m) && !FailsByDefault(cfg, expected, m)
    ensures Closing(cfg, m) != [] ==> !Closing(cfg, m)[0].Fail?
  {
  }

  lemma ShortScripts(cfg: Config, m: seq<byte>)
    requires IsMsg(m)
    ensures |Closing(cfg, m)| <= 1 && |Acking(cfg, m)| <= 1
    ensures Acking(cfg, m) != [] ==> Acking(cfg, m)[0].Ask?
  {
  }

  lemma AskedIsDue(cfg: Config, expected: nat, m: seq<byte>)
    requires IsMsg(m) && !FailsByDefault(cfg, expected, m)
    ensures var all := Asked(AskOr(cfg, MsgIn, []), m) + Checked(cfg, expected, m)
        + Asked(Acking(cfg, m), m) + Asked(Closing(cfg, m), m);
      forall call :: call in all <==> call.msg == m && call.kind in cfg.present && Due(cfg, expected, call.kind, m)
  {
  }

  // ---- one datagram

  function ExpectAfterAll(expected: nat, msgs: seq<seq<byte>>): nat
    requires forall m :: m in msgs ==> IsMsg(m)
    decreases |msgs|
  {
    if msgs == [] then expected else ExpectAfterAll(ExpectAfter(expected, msgs[0]), msgs[1..])
  }

  function MultiAfterAll(multipart: bool, msgs: seq<seq<byte>>): bool
    requires forall m :: m in msgs ==> IsMsg(m)
    decreases |msgs|
  {
    if msgs == [] then multipart else MultiAfterAll(MultiAfter(multipart, msgs[0]), msgs[1..])
  }

  ghost predicate NoDone(msgs: seq<seq<byte>>)
    requires AreMsgs(msgs)
  {
    forall j :: 0 <= j < |msgs| ==> TypeOf(msgs[j]) != NLMSG_DONE
  }

  /** Some message belongs to a multipart sequence and no DONE came with it or after it. */
  ghost predicate Unclosed(msgs: seq<seq<byte>>)
    requires AreMsgs(msgs)
  {
    exists i :: 0 <= i < |msgs| && IsMulti(msgs[i]) && NoDone(msgs[i..])
  }

  lemma UnclosedFirst(msgs: seq<seq<byte>>)
    requires AreMsgs(msgs) && msgs != []
    ensures NoDone(msgs) <==> TypeOf(msgs[0]) != NLMSG_DONE && NoDone(msgs[1..])
    ensures Unclosed(msgs) <==> Unclosed(msgs[1..]) || (IsMulti(msgs[0]) && NoDone(msgs))
  {
    hide IsMsg, IsMulti;
    assert NoDone(msgs[1..]) ==> forall j :: 1 <= j < |msgs| ==> TypeOf(msgs[j]) == TypeOf(msgs[1..][j - 1]);
    hide NoDone;
    assert msgs[0..] == msgs;
    if Unclosed(msgs) {
      var i :| 0 <= i < |msgs| && IsMulti(msgs[i]) && NoDone(msgs[i..]);
      if i > 0 {
        assert msgs[1..][i - 1] == msgs[i] && msgs[1..][i - 1..] == msgs[i..];
      }
    }
    if Unclosed(msgs[1..]) {
      var i :| 0 <= i < |msgs[1..]| && IsMulti(msgs[1..][i]) && NoDone(msgs[1..][i..]);
      assert msgs[1..][i] == msgs[i + 1] && msgs[1..][i..] == msgs[i + 1..];
    }
  }

  /** What `multipart` says at the end of a stretch of messages. */
  lemma {:induction false} OpenMeans(multipart: bool, msgs: seq<seq<byte>>)
    requires AreMsgs(msgs)
    ensures MultiAfterAll(multipart, msgs) <==> Unclosed(msgs) || (multipart && NoDone(msgs))
    decreases |msgs|
  {
    if msgs != [] {
      UnclosedFirst(msgs);
      hide IsMsg, IsMulti, NoDone, Unclosed;
      OpenMeans(MultiAfter(multipart, msgs[0]), msgs[1..]);
    }
  }

  lemma PrefixOne(msgs: seq<seq<byte>>, k: nat)
    requires AreMsgs(msgs) && k < |msgs|
    ensures IsMsg(msgs[0]) && AreMsgs(msgs[1..]) && AreMsgs(msgs[..k + 1]) && AreMsgs(msgs[1..][..k])
    ensures DataOf(msgs[..k + 1]) == (if IsData(msgs[0]) then [msgs[0]] else []) + DataOf(msgs[1..][..k])
    ensures forall e :: ExpectAfterAll(e, msgs[..k + 1]) == ExpectAfterAll(ExpectAfter(e, msgs[0]), msgs[1..][..k])
  {
    assert msgs[..k + 1][1..] == msgs[1..][..k];
  }

  lemma {:induction false} OkHandleAll(cfg: Config, st: State, msgs: seq<seq<byte>>)
    requires AreMsgs(msgs) && AllOk(cfg) && Valid in cfg.present
    ensures var (st', flow, k) := HandleAll(cfg, st, msgs);
      && Delivered(st'.calls) == Delivered(st.calls) + DataOf(msgs[..k])
      && (flow == Next ==> st'.multipart == MultiAfterAll(st.multipart, msgs))
      && (flow == Next ==> st'.expected == ExpectAfterAll(st.expected, msgs))
      && (flow != Next ==>
            && var e := ExpectAfterAll(st.expected, msgs[..k]);
            FailsByDefault(cfg, e, msgs[k]) && flow == Out(DefaultError(cfg, e, msgs[k])))
    decreases |msgs|
  {
    hide Handle, FailsByDefault, DefaultError, IsData, MultiAfter, ExpectAfter;
    hide Delivered, DataOf, ExpectAfterAll, IsMsg;
    NothingYet(st.expected);
    if msgs != [] {
      assert IsMsg(msgs[0]);
      var (st1, flow1) := Handle(cfg, st, msgs[0]);
      OkHandle(cfg, st, msgs[0]);
      if flow1.Next? || flow1.Skip? {
        var k := HandleAll(cfg, st1, msgs[1..]).2;
        OkHandleAll(cfg, st1, msgs[1..]);
        if k < |msgs| - 1 {
          PrefixOne(msgs, k);
        } else {
          PrefixOne(msgs, |msgs| - 1);
          assert msgs[..|msgs|] == msgs && msgs[1..][..k] == msgs[1..];
        }
      }
    }
  }

  // ---- a whole call

  function Messages(feed: seq<seq<byte>>): (msgs: seq<seq<byte>>)
    ensures AreMsgs(msgs)
  {
    if feed == [] then [] else Split(feed[0]) + Messages(feed[1..])
  }

  lemma {:induction false} DataConcat(a: seq<seq<byte>>, b: seq<seq<byte>>)
    requires AreMsgs(a) && AreMsgs(b)
    ensures DataOf(a + b) == DataOf(a) + DataOf(b)
    decreases |a|
  {
    if a == [] {
      assert a + b == b;
    } else {
      hide DataOf, IsData, IsMsg;
      assert (a + b)[1..] == a[1..] + b;
      DataFirst(a);
      DataFirst(a + b);
      DataConcat(a[1..], b);
    }
  }

  lemma {:induction false} AfterConcat(multipart: bool, expected: nat, a: seq<seq<byte>>, b: seq<seq<byte>>)
    requires AreMsgs(a) && AreMsgs(b)
    ensures MultiAfterAll(multipart, a + b) == MultiAfterAll(MultiAfterAll(multipart, a), b)
    ensures ExpectAfterAll(expected, a + b) == ExpectAfterAll(ExpectAfterAll(expected, a), b)
    decreases |a|
  {
    if a == [] {
      assert a + b == b;
    } else {
      assert IsMsg(a[0]);
      assert (a + b)[1..] == a[1..] + b;
      AfterConcat(MultiAfter(multipart, a[0]), ExpectAfter(expected, a[0]), a[1..], b);
    }
  }

  /** With agreeable callbacks, the application gets exactly the data messages passed, in order;
      and either every message of every datagram read was passed, or the next one failed by
      default and that is the result. */
  lemma {:induction false} Delivery(cfg: Config, st: State, feed: seq<seq<byte>>, last: int)
    requires AllOk(cfg) && Valid in cfg.present
    ensures var r := Session(cfg, st, feed, last);
      var msgs := Messages(feed[..r.used]);
      && r.passed <= |msgs| && Delivered(r.st.calls) == Delivered(st.calls) + DataOf(msgs[..r.passed])
      && (r.passed < |msgs| ==>
            && var e := ExpectAfterAll(st.expected, msgs[..r.passed]);
            FailsByDefault(cfg, e, msgs[r.passed]) && r.err == DefaultError(cfg, e, msgs[r.passed]))
      && (r.passed == |msgs| ==> r.err == 0 || (r.used == |feed| && r.err == last))
    decreases |feed|
  {
    hide Delivered, FailsByDefault, DefaultError, HandleAll, Split, DataOf, MultiAfterAll, ExpectAfterAll;
    var r := Session(cfg, st, feed, last);
    NothingYet(st.expected);
    if feed != [] && feed[0] != [] {
      var ms := Split(feed[0]);
      var (st1, flow, k) := HandleAll(cfg, st, ms);
      OkHandleAll(cfg, st, ms);
      if flow == Next && st1.multipart {
        Delivery(cfg, st1, feed[1..], last);
        var r1 := Session(cfg, st1, feed[1..], last);
        var more := Messages(feed[1..][..r1.used]);
        assert feed[..r.used][1..] == feed[1..][..r1.used];
        assert Messages(feed[..r.used]) == ms + more;
        assert (ms + more)[..|ms| + r1.passed] == ms + more[..r1.passed];
        assert AreMsgs(more[..r1.passed]);
        DataConcat(ms, more[..r1.passed]);
        AfterConcat(st.multipart, st.expected, ms, more[..r1.passed]);
        assert ms[..|ms|] == ms;
      } else {
        assert feed[..1][1..] == [] && Messages([]) == [];
        assert Messages(feed[..1]) == ms;
      }
    } else {
      assert feed[..0] == [] && Messages([]) == [];
    }
  }

  lemma NothingYet(expected: nat)
    ensures DataOf([]) == [] && ExpectAfterAll(expected, []) == expected
  {
  }

  /** A call reads on exactly while a multipart sequence is open: it was open after each datagram
      before the last, and closed after the last unless the source of datagrams dried up. */
  lemma {:induction false} ReadsWhileOpen(cfg: Config, st: State, feed: seq<seq<byte>>, last: int)
    requires AllOk(cfg) && Valid in cfg.present
    ensures var r := Session(cfg, st, feed, last);
      && (forall j :: 0 < j < r.used ==> MultiAfterAll(st.multipart, Messages(feed[..j])))
      && (var msgs := Messages(feed[..r.used]);
          r.used > 0 && r.passed == |msgs| && MultiAfterAll(st.multipart, msgs) ==>
            r.used == |feed| || feed[r.used] == [])
      && (r.used == 0 ==> feed == [] || feed[0] == [])
    decreases |feed|
  {
    hide HandleAll, Split, MultiAfterAll, ExpectAfterAll;
    var r := Session(cfg, st, feed, last);
    if feed != [] && feed[0] != [] {
      var ms := Split(feed[0]);
      var (st1, flow, k) := HandleAll(cfg, st, ms);
      OkHandleAll(cfg, st, ms);
      OneDatagram(feed);
      if flow == Next && st1.multipart {
        ReadsWhileOpen(cfg, st1, feed[1..], last);
        forall j | 0 < j <= r.used
          ensures Messages(feed[..j]) == ms + Messages(feed[1..][..j - 1])
          ensures MultiAfterAll(st.multipart, Messages(feed[..j])) ==
            MultiAfterAll(st1.multipart, Messages(feed[1..][..j - 1]))
        {
          assert feed[..j][1..] == feed[1..][..j - 1];
          AfterConcat(st.multipart, st.expected, ms, Messages(feed[1..][..j - 1]));
        }
      }
    }
  }

  lemma OneDatagram(feed: seq<seq<byte>>)
    requires feed != []
    ensures Messages(feed[..1]) == Split(feed[0])
  {
    assert feed[..1][1..] == [] && Messages([]) == [];
  }

  // ---- whatever the callbacks answer

  /** `some` is what is left of `all` when elements are dropped. */
  ghost predicate Among(some: seq<seq<byte>>, all: seq<seq<byte>>) {
    || some == []
    || (all != [] && some[0] == all[0] && Among(some[1..], all[1..]))
    || (all != [] && Among(some, all[1..]))
  }

  lemma {:induction false} AmongPrefix(some: seq<seq<byte>>, all: seq<seq<byte>>, more: seq<seq<byte>>)
    requires Among(some, all)
    ensures Among(some, all + more)
    decreases |all|
  {
    if some != [] {
      assert (all + more)[1..] == all[1..] + more;
      if some[0] == all[0] && Among(some[1..], all[1..]) {
        AmongPrefix(some[1..], all[1..], more);
      } else {
        AmongPrefix(some, all[1..], more);
      }
    }
  }

  lemma {:induction false} AmongConcat(a: seq<seq<byte>>, all: seq<seq<byte>>, b: seq<seq<byte>>, more: seq<seq<byte>>)
    requires Among(a, all) && Among(b, more)
    ensures Among(a + b, all + more)
    decreases |all|
  {
    if all == [] {
      assert a + b == b && all + more == more;
    } else {
      assert (all + more)[1..] == all[1..] + more;
      if a == [] {
        AmongConcat([], all[1..], b, more);
        assert [] + b == b && a + b == b;
      } else if a[0] == all[0] && Among(a[1..], all[1..]) {
        AmongConcat(a[1..], all[1..], b, more);
        assert (a + b)[1..] == a[1..] + b;
      } else {
        AmongConcat(a, all[1..], b, more);
      }
    }
  }

  /** A message is delivered once or not at all, and only if it is data. */
  lemma {:induction false} AnyHandle(cfg: Config, st: State, m: seq<byte>) returns (got: seq<seq<byte>>)
    requires IsMsg(m)
    ensures Delivered(Handle(cfg, st, m).0.calls) == Delivered(st.calls) + got
    ensures got == [] || (got == [m] && IsData(m))
  {
    hide Delivered, Reply, Opening, Acking, Un16, Un32, Closing, Play;
    got := [];
    assert Delivered(st.calls) + [] == Delivered(st.calls);
    var (c1, f1) := Play(cfg, st.calls, Opening(cfg, st.expected, m), m);
    QuietStages(cfg, st.expected, m);
    QuietPlay(cfg, st.calls, Opening(cfg, st.expected, m), m);
    var (c2, f2) := Play(cfg, c1, Acking(cfg, m), m);
    QuietPlay(cfg, c1, Acking(cfg, m), m);
    if cfg.memory(st.converted) && f1 == Next && f2 == Next {
      if IsData(m) {
        got := ClosingData(cfg, c2, m);
      } else {
        QuietPlay(cfg, c2, Closing(cfg, m), m);
      }
    }
  }

  lemma {:induction false} ClosingData(cfg: Config, calls: seq<Call>, m: seq<byte>) returns (got: seq<seq<byte>>)
    requires IsMsg(m) && IsData(m) && Closing(cfg, m) == AskOr(cfg, Valid, [])
    ensures Delivered(Play(cfg, calls, Closing(cfg, m), m).0) == Delivered(calls) + got
    ensures got == [] || got == [m]
  {
    hide Closing, Reply, Delivered, Un16, Un32;
    DeliveredAppend(calls, Call(Valid, m));
    got := if Valid in cfg.present then [m] else [];
    assert Delivered(calls) + [] == Delivered(calls);
  }

  lemma {:induction false} AnyHandleAll(cfg: Config, st: State, msgs: seq<seq<byte>>) returns (got: seq<seq<byte>>)
    requires AreMsgs(msgs)
    ensures Delivered(HandleAll(cfg, st, msgs).0.calls) == Delivered(st.calls) + got && Among(got, DataOf(msgs))
    decreases |msgs|
  {
    hide Handle, IsData, Delivered, IsMsg, Among, DataOf;
    got := [];
    if msgs == [] {
      NothingAmong(DataOf(msgs));
    } else {
      assert IsMsg(msgs[0]);
      DataFirst(msgs);
      var (st1, flow) := Handle(cfg, st, msgs[0]);
      var one := AnyHandle(cfg, st, msgs[0]);
      var first := if IsData(msgs[0]) then [msgs[0]] else [];
      AmongOne(one, first);
      if flow.Stop? || flow.Out? {
        AmongPrefix(one, first, DataOf(msgs[1..]));
        got := one;
      } else {
        var rest := AnyHandleAll(cfg, st1, msgs[1..]);
        AmongConcat(one, first, rest, DataOf(msgs[1..]));
        got := one + rest;
      }
    }
  }

  lemma {:induction false} DataFirst(msgs: seq<seq<byte>>)
    requires AreMsgs(msgs) && msgs != []
    ensures IsMsg(msgs[0]) && AreMsgs(msgs[1..])
    ensures DataOf(msgs) == (if IsData(msgs[0]) then [msgs[0]] else []) + DataOf(msgs[1..])
  {
  }

  lemma AmongOne(one: seq<seq<byte>>, first: seq<seq<byte>>)
    requires one == [] || one == first
    requires |first| <= 1
    ensures Among(one, first)
  {
    if one != [] {
      assert one[1..] == [] && Among([], first[1..]);
    }
  }

  /** Whatever the callbacks answer, what the application gets is some of the data messages of the
      datagrams read, each at most once and in order. */
  lemma {:induction false} NeverOutOfOrder(cfg: Config, st: State, feed: seq<seq<byte>>, last: int)
    returns (got: seq<seq<byte>>)
    ensures var r := Session(cfg, st, feed, last);
      Delivered(r.st.calls) == Delivered(st.calls) + got && Among(got, DataOf(Messages(feed[..r.used])))
    decreases |feed|
  {
    got := [];
    var r := Session(cfg, st, feed, last);
    hide Delivered, HandleAll, Split, DataOf, Among;
    if feed != [] && feed[0] != [] {
      var ms := Split(feed[0]);
      var (st1, flow, k) := HandleAll(cfg, st, ms);
      got := AnyHandleAll(cfg, st, ms);
      OneDatagram(feed);
      if flow == Next && st1.multipart {
        var rest := NeverOutOfOrder(cfg, st1, feed[1..], last);
        var more := Messages(feed[1..][..r.used - 1]);
        assert feed[..r.used][1..] == feed[1..][..r.used - 1];
        DataConcat(ms, more);
        AmongConcat(got, DataOf(ms), rest, DataOf(more));
        got := got + rest;
      }
    } else {
      NothingAmong(DataOf(Messages(feed[..0])));
    }
  }

  lemma NothingAmong(all: seq<seq<byte>>)
    ensures Among([], all)
  {
  }
}

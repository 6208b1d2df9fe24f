/** The sequence window: while the peer answers requests in order, the distance between the next
    number to send and the next number expected is the number of requests still unanswered. */
module SeqWindow {
  import opened Errors
  import opened Bytes
  import opened Datagram
  import opened Receive
  import opened ReceiveTheorems

  /** The default sequence check is in force, and the callbacks neither stop early at a data
      message nor report an error for one. */
  ghost predicate Patient(cfg: Config) {
    && cfg.autoAck && MsgIn !in cfg.present && SeqCheck !in cfg.present && (forall k :: cfg.memory(k))
    && (forall calls, call: Call :: IsMsg(call.msg) && IsData(call.msg) ==>
          cfg.answer(calls, call) == NL_OK || cfg.answer(calls, call) == NL_SKIP)
  }

  // ---- the peer

  /** Data for request `s`. */
  ghost predicate Part(ms: seq<seq<byte>>, s: nat)
    requires AreMsgs(ms)
  {
    forall m :: m in ms ==> IsData(m) && SeqOf(m) == s
  }

  predicate Terminates(m: seq<byte>)
    requires IsMsg(m)
  {
    TypeOf(m) == NLMSG_DONE || TypeOf(m) == NLMSG_ERROR
  }

  /** Data for request `s` and, at the end, the message that closes it. */
  ghost predicate Final(ms: seq<seq<byte>>, s: nat)
    requires AreMsgs(ms)
  {
    ms != [] &&
    var last := ms[|ms| - 1];
    assert IsMsg(last);
    Part(ms[..|ms| - 1], s) && Terminates(last) && SeqOf(last) == s
  }

  /** The datagrams are, in order, (the beginning of) answers to the requests with the given
      numbers. */
  ghost predicate AnswersTo(feed: seq<seq<byte>>, numbers: seq<nat>)
    decreases |feed|
  {
    feed == [] ||
    var ms := Split(feed[0]);
    feed[0] != [] && numbers != [] &&
    ((Part(ms, numbers[0]) && AnswersTo(feed[1..], numbers))
     || (Final(ms, numbers[0]) && AnswersTo(feed[1..], numbers[1..])))
  }

  /** The same for the `n` numbers from `s` on. */
  ghost predicate Answers(feed: seq<seq<byte>>, s: nat, n: nat)
    decreases |feed|
  {
    feed == [] ||
    var ms := Split(feed[0]);
    feed[0] != [] && n > 0 &&
    ((Part(ms, s) && Answers(feed[1..], s, n)) || (Final(ms, s) && Answers(feed[1..], NextSeq(s), n - 1)))
  }

  /** The `n` numbers from `s` on, modulo 2^32. */
  ghost predicate Consecutive(numbers: seq<nat>, s: nat) {
    forall i :: 0 <= i < |numbers| ==> numbers[i] == (s + i) % SEQ_MOD
  }

  lemma {:induction false} AnswersConsecutive(feed: seq<seq<byte>>, numbers: seq<nat>, s: nat)
    requires AnswersTo(feed, numbers) && Consecutive(numbers, s) && s < SEQ_MOD
    ensures Answers(feed, s, |numbers|)
    decreases |feed|
  {
    if feed != [] {
      hide Split, Part, Final;
      var ms := Split(feed[0]);
      assert numbers[0] == s;
      if Part(ms, numbers[0]) && AnswersTo(feed[1..], numbers) {
        AnswersConsecutive(feed[1..], numbers, s);
      } else {
        ConsecutiveTail(numbers, s);
        AnswersConsecutive(feed[1..], numbers[1..], NextSeq(s));
      }
    }
  }

  lemma ConsecutiveTail(numbers: seq<nat>, s: nat)
    requires Consecutive(numbers, s) && numbers != [] && s < SEQ_MOD
    ensures Consecutive(numbers[1..], NextSeq(s))
  {
    forall i | 0 <= i < |numbers| - 1
      ensures numbers[1..][i] == (NextSeq(s) + i) % SEQ_MOD
    {
      ModSum(s, 1, i);
    }
  }

  /** How many requests a datagram closes. */
  function ClosesOne(ms: seq<seq<byte>>): nat
    requires forall m :: m in ms ==> IsMsg(m)
  {
    if ms != [] && (assert ms[|ms| - 1] in ms; Counts(ms[|ms| - 1])) then 1 else 0
  }

  function Closes(feed: seq<seq<byte>>): nat {
    if feed == [] then 0 else ClosesOne(Split(feed[0])) + Closes(feed[1..])
  }

  lemma ClosesFirst(feed: seq<seq<byte>>, j: nat)
    requires j < |feed|
    ensures Closes(feed[..j + 1]) == ClosesOne(Split(feed[0])) + Closes(feed[1..][..j])
  {
    assert feed[..j + 1][1..] == feed[1..][..j];
  }

  /** A whole answer in one datagram: any data messages with the request's number, then DONE or an
      error message. */
  lemma {:induction false} WholeAnswer(numbers: seq<nat>, data: seq<seq<byte>>, last: seq<byte>)
    requires numbers != [] && AreMsgs(data) && IsMsg(last)
    requires (forall m :: m in data ==> !(1 <= TypeOf(m) <= 4) && SeqOf(m) == numbers[0])
    requires (TypeOf(last) == 3 || TypeOf(last) == 2) && SeqOf(last) == numbers[0]
    ensures AnswersTo([Join(data + [last])], numbers)
  {
    hide Un16, Un32, Join, Split, AnswersTo;
    var ms := data + [last];
    assert AreMsgs(ms);
    SplitJoin(ms);
    assert ms[..|ms| - 1] == data && ms[|ms| - 1] == last;
    OneAnswer(Join(ms), numbers);
  }

  lemma {:induction false} OneAnswer(d: seq<byte>, numbers: seq<nat>)
    requires numbers != [] && Split(d) != [] && Final(Split(d), numbers[0])
    ensures AnswersTo([d], numbers)
  {
    hide Final, MsgOk, After;
    NoMsgInNothing();
    assert [d][1..] == [];
  }

  /** Callbacks that always go on are patient, if the default sequence check is in force. */
  lemma AgreeableIsPatient(cfg: Config)
    requires AllOk(cfg) && cfg.autoAck && MsgIn !in cfg.present && SeqCheck !in cfg.present
    ensures Patient(cfg)
  {
  }

  // ---- one message

  /** Data in step goes by without moving the expected number, whatever else happens. */
  lemma {:induction false} DataGoesBy(cfg: Config, st: State, m: seq<byte>)
    requires Patient(cfg) && IsMsg(m) && IsData(m) && SeqOf(m) == st.expected
    ensures var (st', flow) := Handle(cfg, st, m); st'.expected == st.expected && (flow == Next || flow == Skip)
  {
    hide Un16, Un32;
    assert Opening(cfg, st.expected, m) == [];
    PatientPlay(cfg, st.calls, Acking(cfg, m), m);
    var c2 := Play(cfg, st.calls, Acking(cfg, m), m).0;
    PatientPlay(cfg, c2, Closing(cfg, m), m);
  }

  lemma {:induction false} PatientPlay(cfg: Config, calls: seq<Call>, script: seq<Step>, m: seq<byte>)
    requires Patient(cfg) && IsMsg(m) && IsData(m)
    requires |script| <= 1 && forall s :: s in script ==> s.Ask? && s.kind != Error
    ensures Play(cfg, calls, script, m).1 == Next || Play(cfg, calls, script, m).1 == Skip
  {
    if script != [] {
      assert script[0] in script;
      var call := Call(script[0].kind, m);
      assert cfg.answer(calls, call) == NL_OK || cfg.answer(calls, call) == NL_SKIP;
      assert Play(cfg, calls + [call], script[1..], m).1 == Next;
    }
  }

  /** A closing message in step moves the expected number, however the callbacks answer. */
  lemma {:induction false} CloserMoves(cfg: Config, st: State, m: seq<byte>)
    requires Patient(cfg) && IsMsg(m) && Counts(m) && SeqOf(m) == st.expected
    ensures Handle(cfg, st, m).0.expected == NextSeq(st.expected)
  {
    assert Opening(cfg, st.expected, m) == [];
    assert Play(cfg, st.calls, [], m) == (st.calls, Next);
  }

  // ---- in step

  /** Every message that is looked at carries the number expected at that time: no mismatch is
      ever found. */
  ghost predicate InStep(cfg: Config, st: State, msgs: seq<seq<byte>>)
    requires AreMsgs(msgs)
    decreases |msgs|
  {
    msgs == [] ||
    (assert IsMsg(msgs[0]);
     var (st1, flow) := Handle(cfg, st, msgs[0]);
     SeqOf(msgs[0]) == st.expected && (flow == Next || flow == Skip ==> InStep(cfg, st1, msgs[1..])))
  }

  ghost predicate SessionInStep(cfg: Config, st: State, feed: seq<seq<byte>>)
    decreases |feed|
  {
    feed == [] || feed[0] == [] ||
    (InStep(cfg, st, Split(feed[0])) &&
     var (st1, flow, k) := HandleAll(cfg, st, Split(feed[0]));
     (flow == Next && st1.multipart ==> SessionInStep(cfg, st1, feed[1..])))
  }

  /** With the default check and no callback to excuse a mismatch, only data with the number
      expected at that time is delivered, whatever arrives and however callbacks answer. */
  lemma {:induction false} OnlyExpectedDelivered(cfg: Config, st: State, m: seq<byte>)
    requires IsMsg(m) && cfg.autoAck && SeqCheck !in cfg.present && Invalid !in cfg.present
    ensures Delivered(Handle(cfg, st, m).0.calls) != Delivered(st.calls) ==> SeqOf(m) == st.expected && IsData(m)
  {
    hide Play, Delivered, Reply, Un16, Un32, Opening, Acking, Closing;
    QuietStages(cfg, st.expected, m);
    QuietPlay(cfg, st.calls, Opening(cfg, st.expected, m), m);
    var c1 := Play(cfg, st.calls, Opening(cfg, st.expected, m), m).0;
    QuietPlay(cfg, c1, Acking(cfg, m), m);
    var c2 := Play(cfg, c1, Acking(cfg, m), m).0;
    if !IsData(m) {
      QuietPlay(cfg, c2, Closing(cfg, m), m);
    }
    if SeqOf(m) != st.expected {
      MismatchStops(cfg, st.calls, st.expected, m);
    }
  }

  lemma {:induction false} MismatchStops(cfg: Config, calls: seq<Call>, expected: nat, m: seq<byte>)
    requires IsMsg(m) && cfg.autoAck && SeqCheck !in cfg.present && Invalid !in cfg.present && SeqOf(m) != expected
    ensures Play(cfg, calls, Opening(cfg, expected, m), m).1 != Next
  {
    hide Un32, Reply;
    var a, b := AskOr(cfg, MsgIn, []), [Fail(-NLE_SEQ_MISMATCH)];
    assert Opening(cfg, expected, m) == a + b;
    PlayTwo(cfg, calls, a, b, m);
  }

  // ---- one datagram

  lemma {:induction false} PartGoesBy(cfg: Config, st: State, ms: seq<seq<byte>>)
    requires Patient(cfg) && AreMsgs(ms) && Part(ms, st.expected)
    ensures var (st', flow, k) := HandleAll(cfg, st, ms); st'.expected == st.expected && flow == Next
    ensures InStep(cfg, st, ms)
    decreases |ms|
  {
    if ms != [] {
      hide Handle, IsMsg, IsData, Patient;
      assert IsMsg(ms[0]) && ms[0] in ms;
      DataGoesBy(cfg, st, ms[0]);
      PartGoesBy(cfg, Handle(cfg, st, ms[0]).0, ms[1..]);
    }
  }

  lemma {:induction false} FinalMoves(cfg: Config, st: State, ms: seq<seq<byte>>)
    requires Patient(cfg) && AreMsgs(ms) && Final(ms, st.expected)
    ensures HandleAll(cfg, st, ms).0.expected == NextSeq(st.expected)
    ensures InStep(cfg, st, ms)
    decreases |ms|
  {
    hide Handle, IsMsg, IsData, Patient, Counts;
    assert IsMsg(ms[0]) && ms[0] in ms;
    var st1 := Handle(cfg, st, ms[0]).0;
    assert HandleAll(cfg, st1, []).0 == st1;
    if |ms| == 1 {
      assert ms[1..] == [];
      TerminatorCounts(ms[0]);
      CloserMoves(cfg, st, ms[0]);
    } else {
      assert ms[0] in ms[..|ms| - 1];
      DataGoesBy(cfg, st, ms[0]);
      assert ms[1..][..|ms| - 2] == ms[..|ms| - 1][1..];
      FinalMoves(cfg, st1, ms[1..]);
    }
  }

  lemma TerminatorCounts(m: seq<byte>)
    requires IsMsg(m) && Terminates(m)
    ensures Counts(m)
  {
  }

  // ---- a whole call

  /** A call moves the expected number once for each request closed by the datagrams it reads,
      finds no mismatch, and leaves the rest of the answers for the next call. */
  lemma {:induction false} CallKeepsStep(cfg: Config, st: State, feed: seq<seq<byte>>, last: int, n: nat)
    requires Patient(cfg) && Answers(feed, st.expected, n) && st.expected < SEQ_MOD
    ensures var r := Session(cfg, st, feed, last);
      && Closes(feed[..r.used]) <= n && r.st.expected == (st.expected + Closes(feed[..r.used])) % SEQ_MOD
      && Answers(feed[r.used..], r.st.expected, n - Closes(feed[..r.used]))
    ensures SessionInStep(cfg, st, feed)
    decreases |feed|
  {
    hide Split, HandleAll, InStep, Patient, Part, Final, Answers, ClosesOne, Closes;
    if feed == [] {
      NothingRead(feed);
    } else {
      DatagramKeepsStep(cfg, st, feed, n);
      var c := ClosesOne(Split(feed[0]));
      var (st1, flow, k) := HandleAll(cfg, st, Split(feed[0]));
      if flow == Next && st1.multipart {
        CallKeepsStep(cfg, st1, feed[1..], last, n - c);
        var r1 := Session(cfg, st1, feed[1..], last);
        ClosesFirst(feed, r1.used);
        assert feed[r1.used + 1..] == feed[1..][r1.used..];
        ModSum(st.expected, c, Closes(feed[1..][..r1.used]));
      } else {
        ClosesFirst(feed, 0);
        NothingRead(feed[1..]);
      }
    }
  }

  lemma NothingRead(feed: seq<seq<byte>>)
    ensures Closes(feed[..0]) == 0 && feed[0..] == feed
  {
  }

  lemma ModSum(a: nat, b: nat, c: nat)
    ensures ((a + b) % SEQ_MOD + c) % SEQ_MOD == (a + (b + c)) % SEQ_MOD
  {
    ModLaps((a + b) % SEQ_MOD + c, (a + b) / SEQ_MOD);
  }

  lemma {:induction false} ModLaps(x: nat, laps: nat)
    ensures (x + laps * SEQ_MOD) % SEQ_MOD == x % SEQ_MOD
  {
    if laps > 0 {
      ModLaps(x, laps - 1);
      assert (x + (laps - 1) * SEQ_MOD + SEQ_MOD) % SEQ_MOD == (x + (laps - 1) * SEQ_MOD) % SEQ_MOD;
    }
  }

  lemma {:induction false} DatagramKeepsStep(cfg: Config, st: State, feed: seq<seq<byte>>, n: nat)
    requires Patient(cfg) && Answers(feed, st.expected, n) && st.expected < SEQ_MOD && feed != []
    ensures feed[0] != [] && InStep(cfg, st, Split(feed[0]))
    ensures var c, st1 := ClosesOne(Split(feed[0])), HandleAll(cfg, st, Split(feed[0])).0;
      && c <= n && st1.expected == (st.expected + c) % SEQ_MOD && Answers(feed[1..], st1.expected, n - c)
  {
    hide Split, HandleAll, InStep, Patient, IsMsg, IsData, Part, Final, Answers, ClosesOne;
    var ms := Split(feed[0]);
    AnswersFirst(feed, st.expected, n);
    if Part(ms, st.expected) && Answers(feed[1..], st.expected, n) {
      PartGoesBy(cfg, st, ms);
      PartCloses(ms, st.expected);
    } else {
      FinalMoves(cfg, st, ms);
      FinalCloses(ms, st.expected);
    }
  }

  lemma {:induction false} AnswersFirst(feed: seq<seq<byte>>, s: nat, n: nat)
    requires Answers(feed, s, n) && feed != []
    ensures feed[0] != [] && n > 0
    ensures var ms := Split(feed[0]);
      || (Part(ms, s) && Answers(feed[1..], s, n))
      || (Final(ms, s) && Answers(feed[1..], NextSeq(s), n - 1))
  {
    hide Split, Part, Final;
  }

  lemma FinalCloses(ms: seq<seq<byte>>, s: nat)
    requires AreMsgs(ms) && Final(ms, s)
    ensures ClosesOne(ms) == 1
  {
    assert ms[|ms| - 1] in ms;
    TerminatorCounts(ms[|ms| - 1]);
  }

  lemma PartCloses(ms: seq<seq<byte>>, s: nat)
    requires AreMsgs(ms) && Part(ms, s)
    ensures ClosesOne(ms) == 0
  {
    if ms != [] {
      assert ms[|ms| - 1] in ms;
    }
  }

  // ---- over every run

  /** The socket's counters; the numbers its requests were sent with; all datagrams that ever
      arrived, and how many of them have been read. `first` is the first number. */
  datatype World = World(
    first: nat, next: nat, expected: nat, numbers: seq<nat>, stream: seq<seq<byte>>, read: nat)

  datatype Event = Send | Arrive(datagram: seq<byte>) | Receive(cfg: Config, last: int)

  /** `__alloc_socket`: both counters start at the same clock value. */
  function Start(time: nat): World {
    var s := time % SEQ_MOD;
    World(s, s, s, [], [], 0)
  }

  /** The peer answers the requests in order, each under the number it was sent with; callbacks are
      patient. */
  ghost predicate Allowed(w: World, e: Event) {
    match e
    case Send => true
    case Arrive(d) => AnswersTo(w.stream + [d], w.numbers)
    case Receive(cfg, last) => Patient(cfg)
  }

  /** The datagrams not yet read. */
  function Unread(w: World): seq<seq<byte>> {
    if w.read <= |w.stream| then w.stream[w.read..] else []
  }

  /** A request is numbered from `s_seq_next`; a call of `recvmsgs` reads what is unread. */
  function Do(w: World, e: Event): World {
    match e
    case Send => w.(next := NextSeq(w.next), numbers := w.numbers + [w.next])
    case Arrive(d) => w.(stream := w.stream + [d])
    case Receive(cfg, last) =>
      var r := Session(cfg, State(w.expected, false, [], 0), Unread(w), last);
      w.(expected := r.st.expected, read := w.read + r.used)
  }

  /** The number of requests closed as far as the socket has read. */
  function Closed(w: World): nat {
    if w.read <= |w.stream| then Closes(w.stream[..w.read]) else 0
  }

  ghost predicate Window(w: World) {
    && w.first < SEQ_MOD && w.read <= |w.stream| && Answers(w.stream, w.first, |w.numbers|)
    && Consecutive(w.numbers, w.first) && w.next == (w.first + |w.numbers|) % SEQ_MOD
    && w.expected == (w.first + Closed(w)) % SEQ_MOD
  }

  /** More requests outstanding do not invalidate answers under way. */
  lemma {:induction false} AnswersMore(feed: seq<seq<byte>>, s: nat, n: nat)
    requires Answers(feed, s, n)
    ensures Answers(feed, s, n + 1)
    decreases |feed|
  {
    if feed != [] {
      hide Split, Part, Final;
      if Part(Split(feed[0]), s) && Answers(feed[1..], s, n) {
        AnswersMore(feed[1..], s, n);
      } else {
        AnswersMore(feed[1..], NextSeq(s), n - 1);
      }
    }
  }

  /** What is left of the answers once some of the datagrams have been read. */
  lemma {:induction false} AnswersLeft(feed: seq<seq<byte>>, s: nat, n: nat, k: nat)
    requires Answers(feed, s, n) && k <= |feed| && s < SEQ_MOD
    ensures Closes(feed[..k]) <= n && Answers(feed[k..], (s + Closes(feed[..k])) % SEQ_MOD, n - Closes(feed[..k]))
    decreases k
  {
    hide Split, Part, Final, ClosesOne, Answers, Closes;
    NothingRead(feed);
    if k > 0 {
      var ms := Split(feed[0]);
      ClosesFirst(feed, k - 1);
      AnswersFirst(feed, s, n);
      assert feed[1..][k - 1..] == feed[k..];
      if Part(ms, s) && Answers(feed[1..], s, n) {
        PartCloses(ms, s);
        AnswersLeft(feed[1..], s, n, k - 1);
      } else {
        FinalCloses(ms, s);
        AnswersLeft(feed[1..], NextSeq(s), n - 1, k - 1);
        ModSum(s, 1, Closes(feed[1..][..k - 1]));
      }
    }
  }

  lemma {:induction false} ClosesConcat(a: seq<seq<byte>>, b: seq<seq<byte>>)
    ensures Closes(a + b) == Closes(a) + Closes(b)
    decreases |a|
  {
    hide Split, ClosesOne;
    if a == [] {
      assert a + b == b;
    } else {
      assert (a + b)[1..] == a[1..] + b;
      ClosesConcat(a[1..], b);
    }
  }

  lemma {:induction false} SendKeepsWindow(w: World)
    requires Window(w)
    ensures Window(Do(w, Send))
  {
    hide Answers, Closes;
    AnswersMore(w.stream, w.first, |w.numbers|);
    ModSum(w.first, |w.numbers|, 1);
  }

  lemma {:induction false} ArriveKeepsWindow(w: World, d: seq<byte>)
    requires Window(w) && AnswersTo(w.stream + [d], w.numbers)
    ensures Window(Do(w, Arrive(d)))
  {
    hide Answers, AnswersTo, Closes, Consecutive;
    AnswersConsecutive(w.stream + [d], w.numbers, w.first);
    assert (w.stream + [d])[..w.read] == w.stream[..w.read];
  }

  lemma {:induction false} ReceiveKeepsWindow(w: World, cfg: Config, last: int)
    requires Window(w) && Patient(cfg)
    ensures Window(Do(w, Receive(cfg, last)))
    ensures SessionInStep(cfg, State(w.expected, false, [], 0), Unread(w))
  {
    hide Answers, Session, SessionInStep, Patient, Closes, Consecutive;
    var st, queue := State(w.expected, false, [], 0), w.stream[w.read..];
    AnswersLeft(w.stream, w.first, |w.numbers|, w.read);
    CallKeepsStep(cfg, st, queue, last, |w.numbers| - Closed(w));
    var used := Session(cfg, st, queue, last).used;
    ClosesConcat(w.stream[..w.read], queue[..used]);
    assert w.stream[..w.read] + queue[..used] == w.stream[..w.read + used];
    ModSum(w.first, Closed(w), Closes(queue[..used]));
  }

  lemma {:induction false} StepKeepsWindow(w: World, e: Event)
    requires Window(w) && Allowed(w, e)
    ensures Window(Do(w, e))
    ensures e.Receive? ==> SessionInStep(e.cfg, State(w.expected, false, [], 0), Unread(w))
  {
    hide Window, Do, SessionInStep, AnswersTo, Patient;
    match e
    case Send => SendKeepsWindow(w);
    case Arrive(d) => ArriveKeepsWindow(w, d);
    case Receive(cfg, last) => ReceiveKeepsWindow(w, cfg, last);
  }

  ghost predicate AllAllowed(w: World, es: seq<Event>)
    decreases |es|
  {
    es == [] || (Allowed(w, es[0]) && AllAllowed(Do(w, es[0]), es[1..]))
  }

  function DoAll(w: World, es: seq<Event>): World
    decreases |es|
  {
    if es == [] then w else DoAll(Do(w, es[0]), es[1..])
  }

  lemma {:induction false} RunKeepsWindow(w: World, es: seq<Event>)
    requires Window(w) && AllAllowed(w, es)
    ensures Window(DoAll(w, es))
    decreases |es|
  {
    if es != [] {
      hide Window, Do, Allowed;
      StepKeepsWindow(w, es[0]);
      RunKeepsWindow(Do(w, es[0]), es[1..]);
    }
  }

  /** After every run, next minus expected (modulo 2^32) is the number of requests sent and not
      closed, and the requests bear the numbers from the start on. */
  lemma {:induction false} WindowIsOutstanding(time: nat, es: seq<Event>)
    requires AllAllowed(Start(time), es)
    ensures var w := DoAll(Start(time), es);
      && Closed(w) <= |w.numbers| && Consecutive(w.numbers, w.first)
      && (w.next - w.expected) % 0x1_0000_0000 == (|w.numbers| - Closed(w)) % 0x1_0000_0000
  {
    hide Do, Allowed, Answers, AllAllowed, DoAll, Closed;
    StartsInStep(time);
    RunKeepsWindow(Start(time), es);
    ModDistance(DoAll(Start(time), es));
  }

  lemma StartsInStep(time: nat)
    ensures Window(Start(time))
  {
  }

  lemma ModDistance(w: World)
    requires Window(w)
    ensures Closed(w) <= |w.numbers| && (w.next - w.expected) % SEQ_MOD == (|w.numbers| - Closed(w)) % SEQ_MOD
  {
    hide Answers, Consecutive, Closes;
    AnswersLeft(w.stream, w.first, |w.numbers|, w.read);
    var c, n := Closed(w), |w.numbers|;
    ModSum(w.first, c, n - c);
    var e := w.expected + (n - c);
    assert w.next - w.expected == (n - c) - e / SEQ_MOD * SEQ_MOD;
    ModBack(n - c, e / SEQ_MOD);
  }

  lemma {:induction false} ModBack(x: nat, laps: nat)
    ensures (x - laps * SEQ_MOD) % SEQ_MOD == x % SEQ_MOD
  {
    if laps > 0 {
      ModBack(x, laps - 1);
      var y := x - (laps - 1) * SEQ_MOD;
      assert (y - SEQ_MOD) % SEQ_MOD == y % SEQ_MOD;
    }
  }
}

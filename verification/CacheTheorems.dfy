/** Including refines a map keyed by identity, and resynchronisation is exact. */
module CacheTheorems {
  import opened Wrappers
  import opened CacheModel

  // ---- one message

  ghost predicate Clean(es: seq<Entry>, ops: Ops) {
    Typed(es, ops) && NoTwins(es)
  }

  /** On a twin-free cache NEW replaces the identical entry, if any, and DEL removes it; the
      cache stays twin-free. */
  lemma {:induction false} IncludeReplaces(es: seq<Entry>, act: Action, e: Entry)
    requires HasKeys(e.obj.ops) && Clean(es, e.obj.ops)
    ensures var es' := Include(es, act, e).0;
      && es' == (match act case New => Without(es, e.obj) + [e] case Del => Without(es, e.obj) case Other => es)
      && Clean(es', e.obj.ops)
  {
    hide Identical, HasKeys;
    RemoveIsWithout(es, e.obj);
    WithoutClean(es, e.obj);
  }

  /** Without an object's twins a list stays clean, and stays so when the object is appended. */
  lemma {:induction false} WithoutClean(es: seq<Entry>, o: Obj)
    requires Clean(es, o.ops)
    ensures Clean(Without(es, o), o.ops)
    ensures forall marked :: Clean(Without(es, o) + [Entry(o, marked)], o.ops)
  {
    hide Identical, Without;
    WithoutKeeps(es, o);
    WithoutHas(es, o);
  }

  // ---- resynchronisation

  function Unmarked(es: seq<Entry>): seq<Entry> {
    if es == [] then [] else (if es[0].marked then [] else [es[0]]) + Unmarked(es[1..])
  }

  lemma {:induction false} UnmarkedHas(es: seq<Entry>)
    ensures forall e :: e in Unmarked(es) ==> e in es && !e.marked
  {
    if es != [] {
      UnmarkedHas(es[1..]);
    }
  }

  lemma {:induction false} UnmarkedClean(es: seq<Entry>, ops: Ops)
    requires Clean(es, ops)
    ensures Clean(Unmarked(es), ops)
  {
    if es != [] {
      UnmarkedClean(es[1..], ops);
      UnmarkedHas(es[1..]);
    }
  }

  lemma {:induction false} UnmarkedWithout(es: seq<Entry>, o: Obj)
    ensures Unmarked(Without(es, o)) == Without(Unmarked(es), o)
  {
    if es != [] {
      UnmarkedWithout(es[1..], o);
      var w, u := Without(es[1..], o), Unmarked(es[1..]);
      assert Without(es, o) == if Identical(es[0].obj, o) then w else [es[0]] + w;
      assert Unmarked(es) == if es[0].marked then u else [es[0]] + u;
      assert ([es[0]] + w)[1..] == w && ([es[0]] + u)[1..] == u;
    }
  }

  lemma {:induction false} UnmarkedAppend(es: seq<Entry>, e: Entry)
    requires !e.marked
    ensures Unmarked(es + [e]) == Unmarked(es) + [e]
  {
    if es == [] {
      assert es + [e] == [e] && [e][1..] == [];
    } else {
      assert (es + [e])[1..] == es[1..] + [e];
      UnmarkedAppend(es[1..], e);
    }
  }

  /** Obsolete entries do not disturb what the messages build among the unmarked ones. */
  lemma {:induction false} IncludeIgnoresMarked(es: seq<Entry>, act: Action, e: Entry)
    requires HasKeys(e.obj.ops) && Clean(es, e.obj.ops) && !e.marked
    ensures Unmarked(Include(es, act, e).0) == Include(Unmarked(es), act, e).0
  {
    IncludeReplaces(es, act, e);
    UnmarkedClean(es, e.obj.ops);
    IncludeReplaces(Unmarked(es), act, e);
    UnmarkedWithout(es, e.obj);
    UnmarkedAppend(Without(es, e.obj), e);
  }

  lemma {:induction false} IncludeAllIgnoresMarked(es: seq<Entry>, msgs: seq<Msg>, ops: Ops)
    requires HasKeys(ops) && Clean(es, ops) && MsgsTyped(msgs, ops)
    ensures Unmarked(IncludeAll(es, msgs).0) == IncludeAll(Unmarked(es), msgs).0
    ensures Clean(IncludeAll(es, msgs).0, ops)
    decreases |msgs|
  {
    if msgs != [] {
      var e := Entry(msgs[0].obj, false);
      IncludeReplaces(es, msgs[0].act, e);
      IncludeIgnoresMarked(es, msgs[0].act, e);
      IncludeAllIgnoresMarked(Include(es, msgs[0].act, e).0, msgs[1..], ops);
    }
  }

  lemma {:induction false} NothingUnmarked(es: seq<Entry>)
    requires forall i :: 0 <= i < |es| ==> es[i].marked
    ensures Unmarked(es) == []
  {
    if es != [] {
      NothingUnmarked(es[1..]);
    }
  }

  lemma {:induction false} SweepLeavesUnmarked(es: seq<Entry>, i: nat)
    requires i <= |es|
    ensures Sweep(es, i).0 == es[..i] + Unmarked(es[i..])
    decreases |es| - i
  {
    if i < |es| {
      if es[i].marked {
        var es' := RemoveAt(es, i);
        SweepLeavesUnmarked(es', i);
        assert es'[..i] == es[..i] && es'[i..] == es[i..][1..];
      } else {
        SweepLeavesUnmarked(es, i + 1);
        assert es[i..][1..] == es[i + 1..];
        assert es[..i + 1] == es[..i] + [es[i]];
      }
    }
  }

  lemma {:induction false} MarkedTwinFree(es: seq<Entry>, ops: Ops)
    requires Clean(es, ops)
    ensures Clean(MarkAll(es), ops) && Unmarked(MarkAll(es)) == []
  {
    NothingUnmarked(MarkAll(es));
  }

  /** A resynchronised cache holds exactly what the dump builds from nothing, in that order,
      whatever it held before. */
  lemma {:induction false} ResyncIsExact(es: seq<Entry>, msgs: seq<Msg>, ops: Ops)
    requires HasKeys(ops) && Clean(es, ops) && MsgsTyped(msgs, ops)
    ensures Resync(es, msgs).0 == IncludeAll([], msgs).0
  {
    MarkedTwinFree(es, ops);
    IncludeAllIgnoresMarked(MarkAll(es), msgs, ops);
    var es1 := IncludeAll(MarkAll(es), msgs).0;
    SweepLeavesUnmarked(es1, 0);
    assert es1[0..] == es1;
  }

  // ---- exactly which object types resynchronise exactly

  ghost predicate ResyncsExactly(ops: Ops) {
    forall es: seq<Entry>, msgs: seq<Msg> {:trigger Resync(es, msgs)} ::
      Clean(es, ops) && MsgsTyped(msgs, ops) ==> Resync(es, msgs).0 == IncludeAll([], msgs).0
  }

  lemma {:induction false} IncludeFirst(e0: Entry, rest: seq<Entry>, e: Entry)
    requires Identical(e0.obj, e.obj)
    ensures Include([e0] + rest, New, e).0 == rest + [e]
  {
    assert Search([e0] + rest, e.obj) == 0;
    assert RemoveAt([e0] + rest, 0) == rest;
  }

  lemma {:induction false} TwoMessages(es: seq<Entry>, m: Msg, m': Msg)
    ensures IncludeAll(es, [m, m']).0 ==
      Include(Include(es, m.act, Entry(m.obj, false)).0, m'.act, Entry(m'.obj, false)).0
  {
    assert [m, m'][1..] == [m'] && [m'][1..] == [];
    var es1 := Include(es, m.act, Entry(m.obj, false)).0;
    assert IncludeAll(es1, [m']).0 == Include(es1, m'.act, Entry(m'.obj, false)).0;
  }

  /** With identity taken over shared attributes, a stale entry can be replaced in place of the
      right one, which then survives: one compared attribute is enough, also if all three objects
      have another one in common. */
  lemma {:induction false} StaleEntryMasks(ops: Ops, x: nat)
    requires ops.hasCompare && ops.idAttrs.None? && x in ops.known
    ensures !ResyncsExactly(ops)
  {
    var y := x + 1;
    var p, q, o := Obj(ops, map[x := 0, y := 0]), Obj(ops, map[x := 1, y := 0]), Obj(ops, map[y := 0]);
    var es, msgs := [Entry(p, false)], [Msg(New, q), Msg(New, o)];
    var mp, eq, eo := Entry(p, true), Entry(q, false), Entry(o, false);
    assert !Identical(p, q) && Identical(p, o) && Identical(q, o) by {
      assert x in Compare(p, q, p.vals.Keys * q.vals.Keys);
      assert p.vals.Keys * o.vals.Keys == {y} && q.vals.Keys * o.vals.Keys == {y};
    }
    hide Identical, Compare;
    assert MarkAll(es) == [mp];
    assert IncludeAll([mp], msgs).0 == [eq, eo] by {
      TwoMessages([mp], msgs[0], msgs[1]);
      assert Search([mp], q) == 1;
      IncludeFirst(mp, [eq], eo);
      assert [mp] + [eq] == [mp, eq] && [eq] + [eo] == [eq, eo];
    }
    assert IncludeAll([], msgs).0 == [eo] by {
      TwoMessages([], msgs[0], msgs[1]);
      IncludeFirst(eq, [], eo);
      assert [eq] + [] == [eq] && [] + [eo] == [eo];
    }
    assert Sweep([eq, eo], 0).0 == [eq, eo] by {
      SweepLeavesUnmarked([eq, eo], 0);
      UnmarkedAppend([], eq);
      UnmarkedAppend([eq], eo);
      assert [] + [eq] == [eq] && [eq] + [eo] == [eq, eo] && [eq, eo][0..] == [eq, eo];
    }
    assert Clean(es, ops) && MsgsTyped(msgs, ops);
    assert Resync(es, msgs).0 == [eq, eo];
  }

  /** Resynchronisation is exact for every cache and every dump of a type if and only if
      identity of that type is equality of keys. */
  lemma {:induction false} ExactlyTheKeyedTypes(ops: Ops)
    ensures ResyncsExactly(ops) <==> HasKeys(ops)
  {
    if HasKeys(ops) {
      forall es: seq<Entry>, msgs: seq<Msg> {:trigger Resync(es, msgs)} | Clean(es, ops) && MsgsTyped(msgs, ops)
        ensures Resync(es, msgs).0 == IncludeAll([], msgs).0
      {
        ResyncIsExact(es, msgs, ops);
      }
    } else {
      var x :| x in ops.known;
      StaleEntryMasks(ops, x);
    }
  }

  // ---- the cache as a map

  type View = map<map<nat, int>, map<nat, int>>

  /** What comparison sees of every object that can be identified, by its identity. */
  function ToMap(es: seq<Entry>): View {
    if es == [] then map[]
    else
      var o := es[|es| - 1].obj;
      var m := ToMap(es[..|es| - 1]);
      if Key(o).Some? then m[Key(o).value := Seen(o)] else m
  }

  /** A listener's map after one callback. */
  function ReplayOne(m: View, ev: Event): View {
    match Key(ev.obj)
    case None => m
    case Some(k) => if ev.Deleted? then m - {k} else m[k := Seen(ev.obj)]
  }

  function Replay(m: View, evs: seq<Event>): View
    decreases |evs|
  {
    if evs == [] then m else Replay(ReplayOne(m, evs[0]), evs[1..])
  }

  /** The effect a message is meant to have. */
  function Meant(m: View, msg: Msg): View {
    match Key(msg.obj)
    case None => m
    case Some(k) =>
      match msg.act
      case New => m[k := Seen(msg.obj)]
      case Del => m - {k}
      case Other => m
  }

  lemma {:induction false} MapAt(es: seq<Entry>, i: nat, ops: Ops)
    requires Clean(es, ops) && HasKeys(ops) && i < |es| && Key(es[i].obj).Some?
    ensures var k := Key(es[i].obj).value; k in ToMap(es) && ToMap(es)[k] == Seen(es[i].obj)
  {
    var n := |es| - 1;
    if i < n {
      MapAt(es[..n], i, ops);
      IdentityIsKey(es[i].obj, es[n].obj);
    }
  }

  lemma {:induction false} MapOnly(es: seq<Entry>, k: map<nat, int>)
    ensures k in ToMap(es) ==> exists i :: 0 <= i < |es| && Key(es[i].obj) == Some(k)
  {
    if es != [] {
      var n := |es| - 1;
      MapOnly(es[..n], k);
      if k in ToMap(es[..n]) {
        var i :| 0 <= i < n && Key(es[..n][i].obj) == Some(k);
        assert Key(es[i].obj) == Some(k);
      } else if k in ToMap(es) {
        assert Key(es[n].obj) == Some(k);
      }
    }
  }

  /** Two twin-free lists with the same objects, whatever the order, are the same map. */
  lemma {:induction false} MapDetermined(es: seq<Entry>, m: View, ops: Ops)
    requires Clean(es, ops) && HasKeys(ops)
    requires forall i :: 0 <= i < |es| && Key(es[i].obj).Some? ==>
      Key(es[i].obj).value in m && m[Key(es[i].obj).value] == Seen(es[i].obj)
    requires forall k :: k in m ==> exists i :: 0 <= i < |es| && Key(es[i].obj) == Some(k)
    ensures ToMap(es) == m
  {
    forall k | k in ToMap(es)
      ensures k in m && m[k] == ToMap(es)[k]
    {
      MapOnly(es, k);
      var i :| 0 <= i < |es| && Key(es[i].obj) == Some(k);
      MapAt(es, i, ops);
    }
    forall k | k in m
      ensures k in ToMap(es)
    {
      var i :| 0 <= i < |es| && Key(es[i].obj) == Some(k);
      MapAt(es, i, ops);
    }
  }

  /** Taking one entry out of a twin-free list takes its key out of the map. */
  lemma {:induction false} MapRemove(es: seq<Entry>, i: nat, ops: Ops)
    requires Clean(es, ops) && HasKeys(ops) && i < |es|
    ensures Clean(RemoveAt(es, i), ops)
    ensures ToMap(RemoveAt(es, i)) == ReplayOne(ToMap(es), Deleted(es[i].obj))
  {
    hide Key, Seen, Identical, ToMap, HasKeys;
    var es', m := RemoveAt(es, i), ReplayOne(ToMap(es), Deleted(es[i].obj));
    forall j | 0 <= j < |es'| && Key(es'[j].obj).Some?
      ensures Key(es'[j].obj).value in m && m[Key(es'[j].obj).value] == Seen(es'[j].obj)
    {
      var j' := if j < i then j else j + 1;
      assert es'[j] == es[j'];
      MapAt(es, j', ops);
      if j' < i {
        IdentityIsKey(es[j'].obj, es[i].obj);
      } else {
        IdentityIsKey(es[i].obj, es[j'].obj);
      }
    }
    forall k | k in m
      ensures exists j :: 0 <= j < |es'| && Key(es'[j].obj) == Some(k)
    {
      MapOnly(es, k);
      var j :| 0 <= j < |es| && Key(es[j].obj) == Some(k);
      if j < i {
        assert Key(es'[j].obj) == Some(k);
      } else {
        assert j > i && Key(es'[j - 1].obj) == Some(k);
      }
    }
    MapDetermined(es', m, ops);
  }

  lemma {:induction false} MapAppend(es: seq<Entry>, e: Entry)
    ensures ToMap(es + [e]) == ReplayOne(ToMap(es), Added(e.obj))
  {
    assert (es + [e])[..|es|] == es;
  }

  lemma {:induction false} ReplaySingle(m: View, ev: Event)
    ensures Replay(m, [ev]) == ReplayOne(m, ev)
  {
    assert [ev][1..] == [];
  }

  lemma {:induction false} ReplayNothing(m: View)
    ensures Replay(m, []) == m
  {
  }

  /** No entry is identical to an object exactly when its key is not in the map. */
  lemma {:induction false} AbsentMeansAbsent(es: seq<Entry>, o: Obj)
    requires HasKeys(o.ops) && Clean(es, o.ops) && Search(es, o) == |es| && Key(o).Some?
    ensures Key(o).value !in ToMap(es)
  {
    MapOnly(es, Key(o).value);
    forall j | 0 <= j < |es|
      ensures Key(es[j].obj) != Key(o)
    {
      IdentityIsKey(es[j].obj, o);
    }
  }

  lemma {:induction false} PresentMeansPresent(es: seq<Entry>, o: Obj)
    requires HasKeys(o.ops) && Clean(es, o.ops) && Search(es, o) < |es|
    ensures var was := es[Search(es, o)].obj;
      && Key(o).Some? && Key(was) == Key(o) && Key(o).value in ToMap(es)
      && ToMap(es)[Key(o).value] == Seen(was) && (Differ(was, o) <==> Seen(was) != Seen(o))
  {
    var i := Search(es, o);
    IdentityIsKey(es[i].obj, o);
    MapAt(es, i, o.ops);
    DifferSeesAll(es[i].obj, o);
  }

  lemma {:induction false} ReplacedInMap(m: View, k: map<nat, int>, v: map<nat, int>)
    requires k in m
    ensures (m - {k})[k := v] == m[k := v]
    ensures m[k] == v ==> m[k := v] == m
  {
  }

  lemma {:induction false} IncludeFoundRefines(es: seq<Entry>, msg: Msg, e: Entry)
    requires HasKeys(msg.obj.ops) && Clean(es, msg.obj.ops) && e.obj == msg.obj && Search(es, msg.obj) < |es|
    ensures var r := Include(es, msg.act, e);
      ToMap(r.0) == Meant(ToMap(es), msg) && Replay(ToMap(es), r.1) == ToMap(r.0)
  {
    var i, m := Search(es, msg.obj), ToMap(es);
    hide Key, Seen, Differ, Identical, ToMap, Clean, HasKeys, Replay;
    PresentMeansPresent(es, msg.obj);
    MapRemove(es, i, msg.obj.ops);
    ReplacedInMap(m, Key(msg.obj).value, Seen(msg.obj));
    match msg.act
    case New =>
      MapAppend(RemoveAt(es, i), e);
      ReplaySingle(m, Changed(msg.obj));
      ReplayNothing(m);
    case Del =>
      ReplaySingle(m, Deleted(es[i].obj));
    case Other =>
      ReplayNothing(m);
  }

  /** Including a message does to the map what the message means, and replaying the callbacks
      keeps a listener's map equal to the cache. */
  lemma {:induction false} IncludeRefinesMap(es: seq<Entry>, msg: Msg, e: Entry)
    requires HasKeys(msg.obj.ops) && Clean(es, msg.obj.ops) && e.obj == msg.obj
    ensures var (es', evs) := Include(es, msg.act, e);
      ToMap(es') == Meant(ToMap(es), msg) && Replay(ToMap(es), evs) == ToMap(es')
  {
    hide Key, Seen, Differ, Identical, Clean, HasKeys, ToMap;
    if Search(es, msg.obj) < |es| {
      IncludeFoundRefines(es, msg, e);
    } else {
      MapAppend(es, e);
      ReplaySingle(ToMap(es), Added(msg.obj));
      if Key(msg.obj).Some? {
        AbsentMeansAbsent(es, msg.obj);
      }
    }
  }

  /** The callback is `Added` exactly when the key was absent, `Changed` exactly when it was
      present with other contents, and `Deleted` exactly when a DEL found it; it then carries the
      object that was cached, not the one in the message. */
  lemma {:induction false} CallbackTellsWhatChanged(es: seq<Entry>, msg: Msg, e: Entry)
    requires HasKeys(msg.obj.ops) && Clean(es, msg.obj.ops) && e.obj == msg.obj && Key(msg.obj).Some?
    ensures var evs, m, k := Include(es, msg.act, e).1, ToMap(es), Key(msg.obj).value;
      && (evs == [Added(msg.obj)] <==> msg.act.New? && k !in m)
      && (evs == [Changed(msg.obj)] <==> msg.act.New? && k in m && m[k] != Seen(msg.obj))
      && (evs != [] && evs[0].Deleted? <==> msg.act.Del? && k in m)
      && |evs| <= 1
    ensures var evs := Include(es, msg.act, e).1;
      evs != [] && evs[0].Deleted? ==>
        exists i :: 0 <= i < |es| && Key(es[i].obj) == Key(msg.obj) && evs[0].obj == es[i].obj
  {
    if Search(es, msg.obj) < |es| {
      PresentMeansPresent(es, msg.obj);
      assert Key(es[Search(es, msg.obj)].obj) == Key(msg.obj);
    } else {
      AbsentMeansAbsent(es, msg.obj);
    }
  }

  // ---- callbacks over whole runs

  lemma {:induction false} ReplayConcat(m: View, a: seq<Event>, b: seq<Event>)
    ensures Replay(m, a + b) == Replay(Replay(m, a), b)
    decreases |a|
  {
    if a == [] {
      assert a + b == b;
    } else {
      assert (a + b)[1..] == a[1..] + b;
      ReplayConcat(ReplayOne(m, a[0]), a[1..], b);
    }
  }

  function MeantAll(m: View, msgs: seq<Msg>): View
    decreases |msgs|
  {
    if msgs == [] then m else MeantAll(Meant(m, msgs[0]), msgs[1..])
  }

  lemma {:induction false} IncludeAllRefinesMap(es: seq<Entry>, msgs: seq<Msg>, ops: Ops)
    requires HasKeys(ops) && Clean(es, ops) && MsgsTyped(msgs, ops)
    ensures var (es', evs) := IncludeAll(es, msgs);
      ToMap(es') == MeantAll(ToMap(es), msgs) && Replay(ToMap(es), evs) == ToMap(es')
    decreases |msgs|
  {
    if msgs != [] {
      var e := Entry(msgs[0].obj, false);
      var (es1, ev1) := Include(es, msgs[0].act, e);
      IncludeReplaces(es, msgs[0].act, e);
      IncludeRefinesMap(es, msgs[0], e);
      IncludeAllRefinesMap(es1, msgs[1..], ops);
      ReplayConcat(ToMap(es), ev1, IncludeAll(es1, msgs[1..]).1);
    }
  }

  lemma {:induction false} SweepReplays(es: seq<Entry>, i: nat, ops: Ops)
    requires i <= |es| && Clean(es, ops) && HasKeys(ops)
    ensures Replay(ToMap(es), Sweep(es, i).1) == ToMap(Sweep(es, i).0)
    decreases |es| - i
  {
    if i < |es| {
      if es[i].marked {
        MapRemove(es, i, ops);
        SweepReplays(RemoveAt(es, i), i, ops);
        var evs := Sweep(RemoveAt(es, i), i).1;
        assert ([Deleted(es[i].obj)] + evs)[1..] == evs;
      } else {
        SweepReplays(es, i + 1, ops);
      }
    }
  }

  /** The deletions for the marked entries, in order. */
  function MarkedGone(es: seq<Entry>): seq<Event> {
    if es == [] then [] else (if es[0].marked then [Deleted(es[0].obj)] else []) + MarkedGone(es[1..])
  }

  /** The sweep announces exactly the marked entries, each once, in the order of the list. */
  lemma {:induction false} SweepTells(es: seq<Entry>, i: nat)
    requires i <= |es|
    ensures Sweep(es, i).1 == MarkedGone(es[i..])
    decreases |es| - i
  {
    if i < |es| {
      if es[i].marked {
        var es' := RemoveAt(es, i);
        SweepTells(es', i);
        assert es'[i..] == es[i..][1..];
      } else {
        SweepTells(es, i + 1);
        assert es[i..][1..] == es[i + 1..];
      }
    }
  }

  lemma {:induction false} MarksAreInvisible(es: seq<Entry>)
    ensures ToMap(MarkAll(es)) == ToMap(es)
  {
    if es != [] {
      MarksAreInvisible(es[..|es| - 1]);
      assert MarkAll(es)[..|es| - 1] == MarkAll(es[..|es| - 1]);
    }
  }

  /** A resynchronised cache is the map the dump describes, and a listener that replays the
      callbacks on the old map arrives at the new one. */
  lemma {:induction false} ResyncReplays(es: seq<Entry>, msgs: seq<Msg>, ops: Ops)
    requires HasKeys(ops) && Clean(es, ops) && MsgsTyped(msgs, ops)
    ensures var (es', evs) := Resync(es, msgs);
      ToMap(es') == MeantAll(map[], msgs) && Replay(ToMap(es), evs) == ToMap(es')
  {
    var marked := MarkAll(es);
    MarkedTwinFree(es, ops);
    MarksAreInvisible(es);
    IncludeAllRefinesMap(marked, msgs, ops);
    IncludeAllIgnoresMarked(marked, msgs, ops);
    var (es1, ev1) := IncludeAll(marked, msgs);
    SweepReplays(es1, 0, ops);
    ReplayConcat(ToMap(es), ev1, Sweep(es1, 0).1);
    ResyncIsExact(es, msgs, ops);
    IncludeAllRefinesMap([], msgs, ops);
  }
}

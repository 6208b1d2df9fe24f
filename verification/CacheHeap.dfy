/** The cache as it lies in memory: intrusive circular lists, back pointers and reference
    counts. A list head and an object's list entry are both `Node`s; `nl_list_entry` is then the
    identity. */
module CacheHeap {
  import opened Errors
  import opened Wrappers
  import opened CacheModel

  /** An `nl_object` (or the head of a cache's list). */
  class Node {
    var next: Node
    var prev: Node
    var refcnt: int
    var cache: Cache?
    var marked: bool
    const obj: Obj

    /** `nl_object_alloc`: one reference, alone on its list, in no cache. */
    constructor (obj: Obj)
      ensures next == this && prev == this && refcnt == 1 && cache == null && !marked && this.obj == obj
    {
      next, prev, refcnt, cache, marked := this, this, 1, null, false;
      this.obj := obj;
    }
  }

  /** A list without one of its elements. */
  function Drop<T(==)>(s: seq<T>, x: T): seq<T> {
    if s == [] then [] else if s[0] == x then s[1..] else [s[0]] + Drop(s[1..], x)
  }

  lemma {:induction false} DropIsRemoveAt<T>(s: seq<T>, k: nat)
    requires k < |s| && forall i :: 0 <= i < k ==> s[i] != s[k]
    ensures Drop(s, s[k]) == RemoveAt(s, k)
  {
    if k > 0 {
      DropIsRemoveAt(s[1..], k - 1);
      assert RemoveAt(s, k) == [s[0]] + RemoveAt(s[1..], k - 1);
    }
  }

  lemma {:induction false} DropAbsent<T>(s: seq<T>, x: T)
    requires x !in s
    ensures Drop(s, x) == s
  {
    if s != [] {
      DropAbsent(s[1..], x);
    }
  }

  lemma RemoveAtHas<T>(s: seq<T>, k: nat)
    requires k < |s| && forall i, j :: 0 <= i < j < |s| ==> s[i] != s[j]
    ensures forall x :: x in RemoveAt(s, k) <==> x in s && x != s[k]
    ensures |RemoveAt(s, k)| == |s| - 1
  {
    forall x | x in s && x != s[k]
      ensures x in RemoveAt(s, k)
    {
      var i :| 0 <= i < |s| && s[i] == x;
      assert RemoveAt(s, k)[if i < k then i else i - 1] == x;
    }
  }

  ghost function EntriesOf(s: seq<Node>): (es: seq<Entry>)
    reads s`marked
    ensures |es| == |s|
    ensures forall i :: 0 <= i < |es| ==> es[i] == Entry(s[i].obj, s[i].marked)
  {
    if s == [] then [] else [Entry(s[0].obj, s[0].marked)] + EntriesOf(s[1..])
  }

  /** The first object with the identity of `o`, if any. */
  ghost function FirstLike(s: seq<Node>, o: Obj): (r: Node?)
    ensures r != null ==> r in s && Identical(r.obj, o)
  {
    if s == [] then null else if Identical(s[0].obj, o) then s[0] else FirstLike(s[1..], o)
  }

  lemma {:induction false} FirstLikeFrom(s: seq<Node>, o: Obj, i: nat)
    requires i <= |s| && forall k :: 0 <= k < i ==> !Identical(s[k].obj, o)
    ensures FirstLike(s, o) == FirstLike(s[i..], o)
  {
    if i > 0 {
      FirstLikeFrom(s[1..], o, i - 1);
      assert s[1..][i - 1..] == s[i..];
    } else {
      assert s[0..] == s;
    }
  }

  /** It is the one the search of the abstract cache finds. */
  lemma {:induction false} FirstLikeIsSearch(s: seq<Node>, o: Obj)
    ensures var k := Search(EntriesOf(s), o); FirstLike(s, o) == if k == |s| then null else s[k]
  {
    var k := Search(EntriesOf(s), o);
    FirstLikeFrom(s, o, k);
  }

  /** What a NEW or DEL message about object `n` makes of a cache's list. */
  ghost function Renewed(s: seq<Node>, act: Action, n: Node): seq<Node> {
    var was := FirstLike(s, n.obj);
    var rest := if was == null then s else Drop<Node>(s, was);
    match act
    case New => Drop(rest, n) + [n]
    case Del => rest
    case Other => s
  }

  /** The callbacks it makes. */
  ghost function Tell(was: Node?, act: Action, o: Obj): seq<Event> {
    match act
    case New => if was == null then [Added(o)] else if Differ(was.obj, o) then [Changed(o)] else []
    case Del => if was == null then [] else [Deleted(was.obj)]
    case Other => []
  }

  /** Who is freed by it: what was taken out, unless it is put back or someone else holds it. */
  ghost function Gone(was: Node?, act: Action, n: Node, refs: map<Node, int>): set<Node> {
    if was == null || act.Other? || (act.New? && was == n) || (was in refs && refs[was] > 0) then {} else {was}
  }

  lemma {:induction false} EntriesDropped(s: seq<Node>, k: nat)
    requires k < |s|
    ensures EntriesOf(RemoveAt(s, k)) == RemoveAt(EntriesOf(s), k)
  {
  }

  lemma {:induction false} EntriesAppended(s: seq<Node>, n: Node)
    ensures EntriesOf(s + [n]) == EntriesOf(s) + [Entry(n.obj, n.marked)]
  {
  }

  /** Having come to position `i` of `es` with callbacks `evs`, the sweep is on its way to what
      sweeping `start` gives. */
  ghost predicate OnTheWay(start: seq<Entry>, es: seq<Entry>, i: nat, evs: seq<Event>) {
    i <= |es| && Sweep(start, 0) == (Sweep(es, i).0, evs + Sweep(es, i).1)
  }

  lemma {:induction false} SweepGoesOn(start: seq<Entry>, es: seq<Entry>, i: nat, evs: seq<Event>)
    ensures OnTheWay(start, start, 0, [])
    ensures OnTheWay(start, es, i, evs) && i < |es| ==>
      if es[i].marked then OnTheWay(start, RemoveAt(es, i), i, evs + [Deleted(es[i].obj)])
      else OnTheWay(start, es, i + 1, evs)
    ensures OnTheWay(start, es, i, evs) && i == |es| ==> Sweep(start, 0) == (es, evs)
  {
    assert [] + Sweep(start, 0).1 == Sweep(start, 0).1 && evs + [] == evs;
    if OnTheWay(start, es, i, evs) && i < |es| && es[i].marked {
      var e, later := [Deleted(es[i].obj)], Sweep(RemoveAt(es, i), i).1;
      assert evs + (e + later) == evs + e + later;
    }
  }

  /** After the first `k` messages with callbacks `evs`, the dump is on its way to what including
      all of it in `start` gives. */
  ghost predicate Underway(start: seq<Entry>, es: seq<Entry>, dump: seq<Msg>, k: nat, evs: seq<Event>) {
    k <= |dump| && IncludeAll(start, dump) == (IncludeAll(es, dump[k..]).0, evs + IncludeAll(es, dump[k..]).1)
  }

  lemma {:induction false} DumpGoesOn(start: seq<Entry>, es: seq<Entry>, dump: seq<Msg>, k: nat, evs: seq<Event>)
    ensures Underway(start, start, dump, 0, [])
    ensures Underway(start, es, dump, k, evs) && k < |dump| ==>
      var r := Include(es, dump[k].act, Entry(dump[k].obj, false)); Underway(start, r.0, dump, k + 1, evs + r.1)
    ensures Underway(start, es, dump, k, evs) && k == |dump| ==> IncludeAll(start, dump) == (es, evs)
  {
    hide Include;
    assert dump[0..] == dump;
    assert [] + IncludeAll(start, dump).1 == IncludeAll(start, dump).1 && evs + [] == evs;
    if Underway(start, es, dump, k, evs) && k < |dump| {
      var r := Include(es, dump[k].act, Entry(dump[k].obj, false));
      var later := IncludeAll(r.0, dump[k + 1..]).1;
      assert dump[k..][1..] == dump[k + 1..];
      assert evs + (r.1 + later) == evs + r.1 + later;
    }
  }

  /** On the list of entries it is what the abstract cache does, unless the object sits in this
      very cache unrecognised. */
  lemma {:induction false} RenewedIsInclude(s: seq<Node>, act: Action, n: Node)
    requires forall i, j :: 0 <= i < j < |s| ==> s[i] != s[j]
    requires n in s ==> FirstLike(s, n.obj) == n
    ensures Include(EntriesOf(s), act, Entry(n.obj, n.marked)) ==
      (EntriesOf(Renewed(s, act, n)), Tell(FirstLike(s, n.obj), act, n.obj))
  {
    hide Identical, Differ, FirstLike, Drop;
    var k := Search(EntriesOf(s), n.obj);
    FirstLikeIsSearch(s, n.obj);
    if k < |s| {
      DropIsRemoveAt(s, k);
      RemoveAtHas(s, k);
      DropAbsent(RemoveAt(s, k), n);
      EntriesDropped(s, k);
      EntriesAppended(RemoveAt(s, k), n);
      var rest := RemoveAt(s, k);
      assert Renewed(s, act, n) == match act case New => rest + [n] case Del => rest case Other => s;
    } else {
      DropAbsent(s, n);
      EntriesAppended(s, n);
    }
  }

  class Cache {
    const head: Node
    const ops: Ops
    var nitems: int
    ghost var items: seq<Node>

    /** `nl_cache_alloc`. */
    constructor (ops: Ops)
      ensures Ring() && items == [] && nitems == 0 && this.ops == ops && fresh(head)
    {
      var h := new Node(Obj(ops, map[]));
      head, this.ops, nitems, items := h, ops, 0, [];
    }

    /** The list is circular and doubly linked through distinct nodes. */
    ghost predicate Ring()
      reads this`items, head`next, head`prev, items`next, items`prev
    {
      && head !in items && (forall i, j :: 0 <= i < j < |items| ==> items[i] != items[j])
      && (items == [] ==> head.next == head && head.prev == head)
      && (items != [] ==>
            && head.next == items[0] && items[0].prev == head
            && head.prev == items[|items| - 1] && items[|items| - 1].next == head)
      && (forall i {:trigger items[i].next} :: 0 <= i < |items| - 1 ==> items[i].next == items[i + 1])
      && (forall i {:trigger items[i].prev} :: 1 <= i < |items| ==> items[i].prev == items[i - 1])
    }

    /** The cache as the list of objects and marks it stands for. */
    ghost function Entries(): (es: seq<Entry>)
      reads this`items, items`marked
      ensures |es| == |items|
    {
      EntriesOf(items)
    }

    /** The node at position `i` of the ring, the head being where the items end. */
    ghost function At(i: nat): Node
      reads this`items
      requires i <= |items|
    {
      if i < |items| then items[i] else head
    }

    lemma NextIs(i: nat)
      requires Ring() && i < |items|
      ensures items[i].next == At(i + 1) && items[i] != head
    {
    }

    lemma StartIs()
      requires Ring()
      ensures head.next == At(0)
    {
    }

    lemma EndIs(i: nat)
      requires Ring() && i <= |items| && At(i) == head
      ensures i == |items|
    {
    }

    /** `nl_list_add_tail`. */
    method AddTail(n: Node)
      requires Ring() && n !in items && n != head
      modifies this`items, n`next, n`prev, head`next, head`prev, head.prev`next
      ensures Ring() && items == old(items) + [n]
    {
      var prev := head.prev;
      assert items != [] ==> prev == items[|items| - 1];
      prev.next := n;
      n.prev := prev;
      head.prev := n;
      n.next := head;
      items := items + [n];
    }

    /** `nl_list_del`: the neighbours are joined; the node itself keeps its stale links. */
    method Delete(n: Node, ghost k: nat)
      requires Ring() && k < |items| && items[k] == n
      modifies this`items, n.next`prev, n.prev`next
      ensures Ring() && items == RemoveAt(old(items), k)
      ensures n.next == old(n.next) && n.prev == old(n.prev)
    {
      n.next.prev := n.prev;
      n.prev.next := n.next;
      items := RemoveAt(items, k);
    }

    /** The loop of `nl_cache_mark_all`. */
    method MarkEach()
      requires Ring()
      modifies items`marked
      ensures Entries() == MarkAll(old(Entries()))
    {
      hide Cache.Ring;
      StartIs();
      ghost var i: nat := 0;
      var obj := head.next;
      while obj != head
        invariant Ring() && i <= |items| && obj == At(i)
        invariant forall k :: 0 <= k < i ==> items[k].marked
        decreases |items| - i
      {
        NextIs(i);
        obj.marked := true;
        obj := obj.next;
        i := i + 1;
      }
      EndIs(i);
    }

    lemma Position(n: Node) returns (k: nat)
      requires Ring() && n in items
      ensures k < |items| && items[k] == n && RemoveAt(items, k) == Drop(items, n)
      ensures |Drop(items, n)| == |items| - 1 && forall m :: m in Drop(items, n) <==> m in items && m != n
    {
      k :| 0 <= k < |items| && items[k] == n;
      RemoveAtHas(items, k);
      DropIsRemoveAt(items, k);
    }

    /** A member leaves: list, back pointer and count. */
    method Detach(n: Node)
      requires Ring() && n in items
      modifies this`items, this`nitems, n`cache, n.next`prev, n.prev`next
      ensures Ring() && items == Drop(old(items), n) && nitems == old(nitems) - 1 && n.cache == null
      ensures |items| == |old(items)| - 1 && forall m :: m in items <==> m in old(items) && m != n
    {
      hide Cache.Ring, Drop;
      ghost var k := Position(n);
      Delete(n, k);
      n.cache := null;
      nitems := nitems - 1;
    }
  }

  /** A row of `co_msgtypes`. */
  datatype MsgType = MsgType(id: int, act: Action)

  /** The action a message type stands for: the first row with its number, rows ending at the
      first negative number. */
  function ActionOf(types: seq<MsgType>, msgtype: int): Option<Action> {
    if types == [] || types[0].id < 0 then None
    else if types[0].id == msgtype then Some(types[0].act)
    else ActionOf(types[1..], msgtype)
  }

  /** Row `k` is the one for a message type: it has the number, none before it has, and the table has
      not ended. */
  ghost predicate IsRow(types: seq<MsgType>, msgtype: int, k: int) {
    && 0 <= k < |types| && types[k].id == msgtype
    && (forall j :: 0 <= j < k ==> types[j].id != msgtype) && (forall j :: 0 <= j <= k ==> types[j].id >= 0)
  }

  lemma {:induction false} RowDecides(types: seq<MsgType>, msgtype: int)
    ensures forall k :: IsRow(types, msgtype, k) ==> ActionOf(types, msgtype) == Some(types[k].act)
    ensures ActionOf(types, msgtype).Some? ==> exists k :: IsRow(types, msgtype, k)
  {
    if types != [] && types[0].id >= 0 && types[0].id != msgtype {
      var rest := types[1..];
      RowDecides(rest, msgtype);
      forall k | IsRow(types, msgtype, k)
        ensures ActionOf(types, msgtype) == Some(types[k].act)
      {
        assert k > 0 && IsRow(rest, msgtype, k - 1);
      }
      if ActionOf(types, msgtype).Some? {
        var k :| IsRow(rest, msgtype, k);
        assert forall j :: 1 <= j < |types| ==> types[j] == rest[j - 1];
        assert IsRow(types, msgtype, k + 1);
      }
    } else if types != [] && types[0].id >= 0 {
      assert IsRow(types, msgtype, 0);
    }
  }

  /** How things stand with one cache and with the memory of all objects. */
  datatype Snapshot = Snapshot(live: set<Node>, freed: set<Node>, refs: map<Node, int>, items: seq<Node>)

  /** From `a` to `b` nobody's references changed, an object was freed exactly if it left the
      cache and nobody held it, and whatever is new is held by the cache alone. */
  ghost predicate Follows(a: Snapshot, b: Snapshot) {
    && (forall m :: m in a.live ==> m in a.refs)
    && (forall m :: m in a.refs ==> m in b.refs && b.refs[m] == a.refs[m])
    && (forall m :: m in a.live ==>
          if m in a.items && m !in b.items && a.refs[m] == 0 then m !in b.live && m in b.freed
          else m in b.live && m !in b.freed)
    && (forall m :: m in b.live && m !in a.live ==> m in b.refs && b.refs[m] == 0)
    && (forall m :: m in b.items ==> m in b.live && (m in a.items || m !in a.live))
    && (forall m :: m in a.freed ==> m in b.freed && m !in b.live)
  }

  ghost predicate Distinct(s: seq<Node>) {
    forall i, j :: 0 <= i < j < |s| ==> s[i] != s[j]
  }

  /** Who is on the list after a message: all that were, but for the object replaced or deleted,
      and the object itself if the message is NEW. */
  lemma RenewedHas(s: seq<Node>, act: Action, n: Node)
    requires Distinct(s) && n !in s
    ensures var was := FirstLike(s, n.obj);
      forall m :: m in Renewed(s, act, n) <==> (m in s && (m != was || act.Other?)) || (m == n && act.New?)
  {
    hide Identical, FirstLike, Drop;
    var was := FirstLike(s, n.obj);
    DropAbsent(s, n);
    if was != null {
      var k :| 0 <= k < |s| && s[k] == was;
      DropIsRemoveAt(s, k);
      RemoveAtHas(s, k);
      DropAbsent(RemoveAt(s, k), n);
    }
  }

  /** A new object `n` has been allocated and included. */
  ghost predicate Entered(a: Snapshot, b: Snapshot, act: Action, n: Node) {
    && Distinct(a.items) && (forall m :: m in a.items ==> m in a.live)
    && (forall m :: m in a.live ==> m in a.refs && a.refs[m] >= 0 && m !in a.freed)
    && n !in a.live && n !in a.freed && n !in a.refs
    && b.items == Renewed(a.items, act, n) && b.refs == a.refs[n := 1]
    && var gone := Gone(FirstLike(a.items, n.obj), act, n, b.refs);
    b.live == a.live + {n} - gone && b.freed == a.freed + gone
  }

  /** The books after one message of a dump, when the parser has let go of the object. */
  lemma ReceivedFollows(a: Snapshot, mid: Snapshot, b: Snapshot, act: Action, n: Node)
    requires Entered(a, mid, act, n) && b.items == mid.items && b.refs == mid.refs[n := 0]
    requires b.live == (if act.New? then mid.live else mid.live - {n})
    requires b.freed == (if act.New? then mid.freed else mid.freed + {n})
    ensures Follows(a, b)
  {
    hide FirstLike, Renewed, Identical;
    RenewedHas(a.items, act, n);
  }

  lemma FollowsOn(a: Snapshot, b: Snapshot, c: Snapshot)
    requires Follows(a, b) && Follows(b, c)
    ensures Follows(a, c)
  {
  }

  /** Every object and cache there is. `refs` counts the references held outside caches. */
  class Library {
    ghost var caches: set<Cache>
    ghost var live: set<Node>
    ghost var freed: set<Node>
    ghost var refs: map<Node, int>

    ghost function Heads(): set<Node>
      reads this`caches
    {
      set c | c in caches :: c.head
    }

    /** Cache `c` is a ring of live objects that point back to it, and counts them. */
    ghost predicate CacheOk(c: Cache)
      reads this`live, this`freed, c`items, c`nitems, c.head`next, c.head`prev
      reads c.items`next, c.items`prev, c.items`cache
    {
      && (forall n :: n in c.items ==> n in live && n.cache == c && n.obj.ops == c.ops)
      && c.Ring() && c.nitems == |c.items| && c.head !in live && c.head !in freed
    }

    /** Object `n` is in the cache it names, and is counted once for every reference held
        outside and once more if it is cached. */
    ghost predicate NodeOk(n: Node)
      reads this`caches, this`refs, n`cache, n`refcnt, caches`items
    {
      && (n.cache != null ==> n.cache in caches && n in n.cache.items)
      && n in refs && refs[n] >= 0 && n.refcnt > 0
      && n.refcnt == refs[n] + if n.cache != null then 1 else 0
    }

    ghost predicate CachesOk()
      reads this`caches, this`live, this`freed, caches`items, caches`nitems
      reads Heads()`next, Heads()`prev, live`next, live`prev, live`cache
    {
      && (forall c, n :: c in caches && n in c.items ==> n in live)
      && (forall c :: c in caches ==> CacheOk(c))
      && (forall c, d :: c in caches && d in caches && c != d ==> c.head != d.head)
    }

    ghost predicate NodesOk()
      reads this`caches, this`live, this`freed, this`refs, caches`items, live`cache, live`refcnt
    {
      (forall n :: n in live ==> NodeOk(n)) && live !! freed
    }

    ghost predicate Valid()
      reads this, caches, Heads(), live
    {
      CachesOk() && NodesOk()
    }

    /** Nothing there yet. */
    constructor ()
      ensures Valid() && caches == {} && live == {} && freed == {}
    {
      caches, live, freed, refs := {}, {}, {}, map[];
    }

    /** `nl_cache_alloc`: a new empty cache, or nothing and no change. */
    method NewCache(ops: Ops, memory: bool) returns (c: Cache?)
      requires Valid()
      modifies this`caches
      ensures Valid() && (c == null <==> !memory)
      ensures c == null ==> caches == old(caches)
      ensures c != null ==> fresh(c) && caches == old(caches) + {c} && c.items == [] && c.ops == ops
    {
      if !memory {
        return null;
      }
      c := new Cache(ops);
      hide Cache.Ring;
      assert forall d :: d in caches ==> CacheOk(d);
      caches := caches + {c};
    }

    /** `nl_object_get`. */
    method Get(n: Node)
      requires Valid() && n in live
      modifies this`refs, n`refcnt
      ensures Valid() && n in old(refs) && refs == old(refs)[n := old(refs)[n] + 1]
    {
      hide Library.CacheOk;
      assert NodeOk(n);
      n.refcnt := n.refcnt + 1;
      refs := refs[n := refs[n] + 1];
    }

    /** An object that no cache holds may leave the set of live ones. */
    lemma LooseNode(n: Node)
      requires Valid() && n in live && n.cache == null
      ensures forall c :: c in caches ==> n !in c.items
    {
      forall c | c in caches
        ensures n !in c.items
      {
        assert CacheOk(c);
      }
    }

    /** `free`: what no cache holds may go without any cache noticing. */
    ghost method Free(n: Node)
      requires CachesOk() && n in live && forall c :: c in caches ==> n !in c.items
      modifies this`live, this`freed
      ensures CachesOk() && live == old(live) - {n} && freed == old(freed) + {n}
    {
      hide Cache.Ring;
      assert forall c :: c in caches ==> CacheOk(c);
      live := live - {n};
      freed := freed + {n};
    }

    /** `nl_object_put`: the object is freed exactly when this was the last reference of all. */
    method Put(n: Node)
      requires Valid() && n in live && n in refs && refs[n] > 0
      modifies this`refs, this`live, this`freed, n`refcnt
      ensures Valid() && refs == old(refs)[n := old(refs)[n] - 1]
      ensures var last := old(n.refcnt) == 1;
        && live == (if last then old(live) - {n} else old(live))
        && freed == (if last then old(freed) + {n} else old(freed))
    {
      assert NodeOk(n);
      if n.cache == null {
        LooseNode(n);
      }
      hide Library.CachesOk;
      n.refcnt := n.refcnt - 1;
      refs := refs[n := refs[n] - 1];
      if n.refcnt <= 0 {
        Free(n);
      }
    }

    /** The list neighbours of anything in cache `c` belong to `c` and to no other cache. */
    lemma Neighbours(c: Cache, n: Node)
      requires CachesOk() && c in caches
      ensures c.head.prev == c.head || c.head.prev in c.items
      ensures n in c.items ==> (n.next == c.head || n.next in c.items) && (n.prev == c.head || n.prev in c.items)
      ensures forall d :: d in caches && d != c ==>
        && d.head != c.head && d.head !in c.items && c.head !in d.items
        && forall m :: m in c.items ==> m !in d.items
    {
      assert CacheOk(c);
      forall d | d in caches && d != c
        ensures d.head !in c.items && c.head !in d.items && forall m :: m in c.items ==> m !in d.items
      {
        assert CacheOk(d);
      }
    }

    /** Linking a loose node into one list: every cache is in order afterwards. */
    method Link(c: Cache, n: Node)
      requires CachesOk() && c in caches && n in live && n.obj.ops == c.ops
      requires forall d :: d in caches ==> n !in d.items
      modifies n`cache, n`next, n`prev, c`items, c`nitems, c.head`next, c.head`prev, c.head.prev`next
      ensures CachesOk() && c.items == old(c.items) + [n] && n.cache == c
    {
      ghost var last := c.head.prev;
      Neighbours(c, n);
      assert CacheOk(c);
      hide Cache.Ring;
      n.cache := c;
      c.nitems := c.nitems + 1;
      c.AddTail(n);
      forall d | d in caches && d != c
        ensures CacheOk(d)
      {
        hide Library.CacheOk;
        assert old(CacheOk(d));
        assert n !in d.items && last !in d.items && c.head !in d.items && d.head != last;
      }
    }

    /** Unlinking a node from its list: every cache is in order afterwards. */
    method Unlink(c: Cache, n: Node)
      requires CachesOk() && c in caches && n in c.items
      modifies n`cache, n.next`prev, n.prev`next, c`items, c`nitems
      ensures CachesOk() && c.items == Drop(old(c.items), n) && n.cache == null
      ensures forall m :: m in c.items <==> m in old(c.items) && m != n
    {
      ghost var next, prev := n.next, n.prev;
      Neighbours(c, n);
      assert CacheOk(c);
      hide Cache.Ring;
      c.Detach(n);
      assert CacheOk(c);
      forall d | d in caches && d != c
        ensures CacheOk(d)
      {
        hide Library.CacheOk;
        assert old(CacheOk(d));
        assert n !in d.items && next !in d.items && prev !in d.items && d.head != next && d.head != prev;
      }
    }

    /** `__cache_add`: one outside reference becomes the cache's. */
    method AddRaw(c: Cache, n: Node)
      requires Valid() && c in caches && n in live && n.cache == null && n in refs && refs[n] > 0 && n.obj.ops == c.ops
      modifies this`refs, n`cache, n`next, n`prev
      modifies c`items, c`nitems, c.head`next, c.head`prev, c.head.prev`next
      ensures Valid() && c.items == old(c.items) + [n] && refs == old(refs)[n := old(refs)[n] - 1]
      ensures n.cache == c
    {
      hide Library.CachesOk;
      LooseNode(n);
      Link(c, n);
      refs := refs[n := refs[n] - 1];
      forall m | m in live
        ensures NodeOk(m)
      {
        assert old(NodeOk(m));
      }
    }

    /** The list neighbours of a cached object. */
    ghost function Around(n: Node): set<Node>
      reads n
    {
      if n.cache == null then {} else {n.next, n.prev}
    }

    ghost function CacheOf(n: Node): set<Cache>
      reads n
    {
      if n.cache == null then {} else {n.cache}
    }

    /** A cached object leaves its list; the cache's reference becomes an outside one. */
    method Leave(c: Cache, n: Node)
      requires Valid() && n in live && n.cache == c
      modifies this`refs, n`cache, n.next`prev, n.prev`next, c`items, c`nitems
      ensures Valid() && n in old(refs) && refs == old(refs)[n := old(refs)[n] + 1] && n.cache == null
      ensures c.items == Drop(old(c.items), n)
    {
      assert NodeOk(n);
      hide Library.CachesOk, Drop;
      Unlink(c, n);
      refs := refs[n := refs[n] + 1];
      forall m | m in live
        ensures NodeOk(m)
      {
        assert old(NodeOk(m));
      }
    }

    /** `nl_cache_remove`: no effect on an object in no cache; otherwise it leaves its list and
        the cache's reference is dropped, which may free it. */
    method Remove(n: Node)
      requires Valid() && n in live
      modifies this`refs, this`live, this`freed, n`refcnt, n`cache, Around(n)`next, Around(n)`prev
      modifies CacheOf(n)`items, CacheOf(n)`nitems
      ensures Valid() && refs == old(refs) && n.cache == null && n in refs
      ensures var last := old(n.cache) != null && refs[n] == 0;
        && live == (if last then old(live) - {n} else old(live))
        && freed == (if last then old(freed) + {n} else old(freed))
      ensures old(n.cache) != null ==> old(n.cache).items == Drop(old(n.cache.items), n)
    {
      assert NodeOk(n);
      hide Library.Valid, Drop;
      if n.cache != null {
        Leave(n.cache, n);
        Put(n);
        assert refs == old(refs);
      }
    }

    /** Everything an operation on caches may write; marks are not among it. */
    ghost function AllNodes(): set<Node>
      reads this`live, this`caches
    {
      live + Heads()
    }

    /** A cached object's neighbours are live objects or list heads. */
    lemma AroundIsKnown(n: Node)
      requires Valid() && n in live
      ensures Around(n) <= AllNodes() && CacheOf(n) <= caches
      ensures n.cache != null ==> n.next != n
    {
      assert NodeOk(n);
      if n.cache != null {
        assert CacheOk(n.cache);
        Neighbours(n.cache, n);
        var k :| 0 <= k < |n.cache.items| && n.cache.items[k] == n;
      }
    }

    lemma TailIsKnown(c: Cache)
      requires Valid() && c in caches
      ensures c.head in Heads() && c.head.prev in AllNodes()
    {
      assert CacheOk(c);
      Neighbours(c, c.head);
    }

    /** What no cache knows may join the live objects without any cache noticing. */
    ghost method Admit(n: Node)
      requires CachesOk() && n !in Heads() && n !in freed
      modifies this`live
      ensures CachesOk() && live == old(live) + {n}
    {
      hide Cache.Ring;
      assert forall c :: c in caches ==> CacheOk(c) && c.head in Heads();
      live := live + {n};
    }

    /** A new object with one reference. */
    method Create(obj: Obj) returns (n: Node)
      requires Valid()
      modifies this`live, this`refs
      ensures Valid() && fresh(n) && live == old(live) + {n} && refs == old(refs)[n := 1]
      ensures n.obj == obj && n.cache == null && !n.marked && n.next == n
    {
      hide Library.CachesOk;
      ghost var heads := Heads();
      n := new Node(obj);
      assert Heads() == heads && CachesOk();
      Admit(n);
      refs := refs[n := 1];
    }

    /** `nl_object_alloc`: a new object with one reference, or nothing and no change. */
    method Alloc(obj: Obj, memory: bool) returns (n: Node?)
      requires Valid()
      modifies this`live, this`refs
      ensures Valid() && (n == null <==> !memory)
      ensures n == null ==> live == old(live) && refs == old(refs)
      ensures n != null ==>
        && fresh(n) && live == old(live) + {n} && refs == old(refs)[n := 1]
        && n.obj == obj && n.cache == null && !n.marked && n.next == n
    {
      hide Library.Valid;
      if !memory {
        return null;
      }
      n := Create(obj);
    }

    /** The list of cache `d` once `n` has moved to the end of `c`. */
    ghost function Moved(d: Cache, c: Cache, n: Node): seq<Node>
      reads d`items, n`cache
    {
      (if n.cache == d then Drop(d.items, n) else d.items) + if d == c then [n] else []
    }

    /** The first half of `nl_cache_move`: take a reference, then leave the present cache, if any.
        The test is whether the object was ever linked; an object that has left a cache passes it
        too, and its removal then does nothing. */
    method Loosen(n: Node)
      requires Valid() && n in live
      modifies this`refs, this`live, this`freed, n`refcnt, n`cache, Around(n)`next, Around(n)`prev
      modifies CacheOf(n)`items, CacheOf(n)`nitems
      ensures Valid() && live == old(live) && freed == old(freed) && n.cache == null
      ensures n in old(refs) && old(refs)[n] >= 0 && refs == old(refs)[n := old(refs)[n] + 1]
      ensures old(n.cache) != null ==> old(n.cache).items == Drop(old(n.cache.items), n)
    {
      AroundIsKnown(n);
      assert NodeOk(n);
      hide Library.Valid, Drop;
      Get(n);
      if n.next != n {
        Remove(n);
      }
    }

    /** `nl_cache_move` between matching types: the object leaves whatever cache it is in and goes
        to the end of `c`; nobody gains or loses a reference. */
    method Rehome(c: Cache, n: Node)
      requires Valid() && c in caches && n in live && n.obj.ops == c.ops
      modifies this`refs, this`live, this`freed, caches`items, caches`nitems
      modifies AllNodes()`next, AllNodes()`prev, n`refcnt, n`cache
      ensures Valid() && live == old(live) && freed == old(freed) && refs == old(refs) && n.cache == c
      ensures forall d :: d in caches ==> d.items == old(Moved(d, c, n))
    {
      hide Library.Valid, Drop;
      AroundIsKnown(n);
      Loosen(n);
      UpDown(old(refs), n);
      Append(c, n);
    }

    lemma UpDown(m: map<Node, int>, n: Node)
      requires n in m
      ensures m[n := m[n] + 1][n := m[n]] == m
    {
    }

    /** `__cache_add` within the whole library. */
    method Append(c: Cache, n: Node)
      requires Valid() && c in caches && n in live && n.cache == null && n in refs && refs[n] > 0 && n.obj.ops == c.ops
      modifies this`refs, n`cache, AllNodes()`next, AllNodes()`prev, c`items, c`nitems
      ensures Valid() && c.items == old(c.items) + [n] && refs == old(refs)[n := old(refs)[n] - 1] && n.cache == c
    {
      hide Library.Valid;
      TailIsKnown(c);
      AddRaw(c, n);
    }

    /** `nl_cache_move`. */
    method Move(c: Cache, n: Node) returns (err: int)
      requires Valid() && c in caches && n in live
      modifies this`refs, this`live, this`freed, caches`items, caches`nitems
      modifies AllNodes()`next, AllNodes()`prev, n`refcnt, n`cache
      ensures Valid() && live == old(live) && freed == old(freed) && refs == old(refs)
      ensures err == if n.obj.ops != c.ops then -NLE_OBJ_MISMATCH else 0
      ensures err != 0 ==> forall d :: d in caches ==> d.items == old(d.items)
      ensures err == 0 ==> n.cache == c && forall d :: d in caches ==> d.items == old(Moved(d, c, n))
    {
      hide Library.Valid, Drop;
      if c.ops != n.obj.ops {
        return -NLE_OBJ_MISMATCH;
      }
      Rehome(c, n);
      err := 0;
    }

    lemma HeldSomewhere(n: Node)
      requires Valid() && n in live
      ensures n in refs && refs[n] >= 0
    {
      assert NodeOk(n);
    }

    lemma ItemIsLive(c: Cache, n: Node)
      requires Valid() && c in caches && n in c.items
      ensures n in live && n.cache == c && n.obj.ops == c.ops && n in refs && refs[n] >= 0
    {
      assert CacheOk(c) && NodeOk(n);
    }

    /** The walk of `nl_cache_search`. */
    method Lookup(c: Cache, needle: Obj) returns (r: Node?)
      requires c.Ring()
      ensures r == FirstLike(c.items, needle)
    {
      ghost var i := 0;
      var pos := c.head.next;
      while pos != c.head
        invariant i <= |c.items| && pos == c.At(i)
        invariant forall k :: 0 <= k < i ==> !Identical(c.items[k].obj, needle)
        decreases |c.items| - i
      {
        hide Cache.Ring;
        c.NextIs(i);
        if Identical(pos.obj, needle) {
          FirstLikeFrom(c.items, needle, i);
          return pos;
        }
        pos := pos.next;
        i := i + 1;
      }
      FirstLikeFrom(c.items, needle, i);
      r := null;
    }

    /** `nl_cache_search`: the first object with the needle's identity, with a reference taken, or
        nothing. */
    method Find(c: Cache, needle: Obj) returns (r: Node?)
      requires Valid() && c in caches
      modifies this`refs, live`refcnt
      ensures Valid() && r == FirstLike(c.items, needle)
      ensures r == null ==> refs == old(refs)
      ensures r != null ==> r in live && r in old(refs) && old(refs)[r] >= 0 && refs == old(refs)[r := old(refs)[r] + 1]
    {
      assert CacheOk(c);
      hide Library.Valid, Cache.Ring;
      r := Lookup(c, needle);
      if r != null {
        ItemIsLive(c, r);
        Get(r);
      }
    }

    /** `nl_cache_add`: an object never linked before goes in itself, any other as a copy. */
    method Add(c: Cache, n: Node, memory: bool) returns (err: int, ghost added: Node)
      requires Valid() && c in caches && n in live
      modifies this`refs, this`live, n`refcnt, n`cache, n`next, n`prev
      modifies c`items, c`nitems, c.head`next, c.head`prev, c.head.prev`next
      ensures Valid()
      ensures err == (if n.obj.ops != c.ops then -NLE_OBJ_MISMATCH
                      else if old(n.next) != n && !memory then -NLE_NOMEM else 0)
      ensures err != 0 ==> c.items == old(c.items) && refs == old(refs) && live == old(live)
      ensures err == 0 ==> c.items == old(c.items) + [added] && added.cache == c
      ensures err == 0 && old(n.next) == n ==> added == n && refs == old(refs) && live == old(live)
      ensures err == 0 && old(n.next) != n ==>
        && fresh(added) && added.obj == n.obj && !added.marked
        && live == old(live) + {added} && refs == old(refs)[added := 0]
    {
      AroundIsKnown(n);
      TailIsKnown(c);
      assert NodeOk(n);
      hide Library.Valid, Library.NodeOk;
      added := n;
      if c.ops != n.obj.ops {
        return -NLE_OBJ_MISMATCH, added;
      }
      var item := n;
      if n.next != n {
        var clone := Alloc(n.obj, memory);
        if clone == null {
          return -NLE_NOMEM, added;
        }
        item := clone;
      } else {
        Get(n);
      }
      AddRaw(c, item);
      added := item;
      assert item == n ==> refs == old(refs);
      err := 0;
    }

    /** The first half of `cache_include`: look an object up, hold it and take it out. */
    method TakeOut(c: Cache, o: Obj) returns (was: Node?)
      requires Valid() && c in caches
      modifies this`refs, this`live, this`freed, c`items, c`nitems
      modifies AllNodes()`next, AllNodes()`prev, live`refcnt, live`cache
      ensures Valid() && live == old(live) && freed == old(freed)
      ensures was == FirstLike(old(c.items), o)
      ensures was == null ==> refs == old(refs) && c.items == old(c.items)
      ensures was != null ==>
        && was in live && was.cache == null && c.items == Drop<Node>(old(c.items), was)
        && was in old(refs) && old(refs)[was] >= 0 && refs == old(refs)[was := old(refs)[was] + 1]
    {
      hide Library.Valid, Drop, Identical, FirstLike;
      was := Find(c, o);
      if was != null {
        ItemIsLive(c, was);
        AroundIsKnown(was);
        Remove(was);
      }
    }

    /** No cache but its own lists an object. */
    lemma NotElsewhere(n: Node)
      requires Valid() && n in live
      ensures forall d :: d in caches && d != n.cache ==> Drop(d.items, n) == d.items
    {
      forall d | d in caches && d != n.cache
        ensures Drop(d.items, n) == d.items
      {
        assert CacheOk(d);
        DropAbsent(d.items, n);
      }
    }

    /** The last step of `cache_include`: give back the reference that the search took. */
    method Release(was: Node)
      requires Valid() && was in live && was in refs && refs[was] > 0
      modifies this`refs, this`live, this`freed, was`refcnt
      ensures Valid() && refs == old(refs)[was := old(refs)[was] - 1]
      ensures var last := was.cache == null && refs[was] == 0;
        && live == (if last then old(live) - {was} else old(live))
        && freed == (if last then old(freed) + {was} else old(freed))
    {
      assert NodeOk(was);
      hide Library.Valid;
      Put(was);
    }

    /** What the object replaces is taken out, the object goes in; the former is still held. */
    method Exchange(c: Cache, n: Node) returns (was: Node?)
      requires Valid() && c in caches && n in live && n.obj.ops == c.ops
      modifies this`refs, this`live, this`freed, caches`items, caches`nitems
      modifies AllNodes()`next, AllNodes()`prev, live`refcnt, live`cache
      ensures Valid() && live == old(live) && freed == old(freed) && was == FirstLike(old(c.items), n.obj)
      ensures c.items == Renewed(old(c.items), New, n)
      ensures forall d :: d in caches && d != c ==> d.items == Drop(old(d.items), n)
      ensures was == null ==> refs == old(refs)
      ensures was != null ==>
        && was in live && (was.cache == null <==> was != n) && was in old(refs) && old(refs)[was] >= 0
        && refs == old(refs)[was := old(refs)[was] + 1]
    {
      hide Library.Valid, Drop, Identical, FirstLike;
      was := TakeOut(c, n.obj);
      NotElsewhere(n);
      Rehome(c, n);
    }

    /** `cache_include` of a NEW message. */
    method IncludeNew(c: Cache, n: Node) returns (evs: seq<Event>)
      requires Valid() && c in caches && n in live && n.obj.ops == c.ops
      modifies this`refs, this`live, this`freed, caches`items, caches`nitems
      modifies AllNodes()`next, AllNodes()`prev, live`refcnt, live`cache
      ensures Valid() && refs == old(refs)
      ensures c.items == Renewed(old(c.items), New, n)
      ensures forall d :: d in caches && d != c ==> d.items == Drop(old(d.items), n)
      ensures var was := FirstLike(old(c.items), n.obj);
        && evs == Tell(was, New, n.obj)
        && live == old(live) - Gone(was, New, n, refs) && freed == old(freed) + Gone(was, New, n, refs)
    {
      hide Library.Valid, Drop, Identical, FirstLike, Renewed, Differ;
      var was := Exchange(c, n);
      if was == null {
        evs := [Added(n.obj)];
      } else {
        evs := if Differ(was.obj, n.obj) then [Changed(n.obj)] else [];
        Release(was);
        assert refs == old(refs);
      }
    }

    /** `cache_include` of a DEL message. */
    method IncludeDel(c: Cache, n: Node) returns (evs: seq<Event>)
      requires Valid() && c in caches && n in live
      modifies this`refs, this`live, this`freed, c`items, c`nitems
      modifies AllNodes()`next, AllNodes()`prev, live`refcnt, live`cache
      ensures Valid() && refs == old(refs)
      ensures c.items == Renewed(old(c.items), Del, n)
      ensures var was := FirstLike(old(c.items), n.obj);
        && evs == Tell(was, Del, n.obj)
        && live == old(live) - Gone(was, Del, n, refs) && freed == old(freed) + Gone(was, Del, n, refs)
    {
      hide Library.Valid, Drop, Identical, FirstLike;
      evs := [];
      var was := TakeOut(c, n.obj);
      if was != null {
        evs := [Deleted(was.obj)];
        Release(was);
        assert refs == old(refs);
      }
    }

    /** `cache_include`: no reference is gained or lost, whichever objects are the same. */
    method Include(c: Cache, n: Node, act: Action) returns (evs: seq<Event>)
      requires Valid() && c in caches && n in live && n.obj.ops == c.ops
      modifies this`refs, this`live, this`freed, caches`items, caches`nitems
      modifies AllNodes()`next, AllNodes()`prev, live`refcnt, live`cache
      ensures Valid() && refs == old(refs)
      ensures c.items == Renewed(old(c.items), act, n)
      ensures forall d :: d in caches && d != c ==> d.items == if act.New? then Drop(old(d.items), n) else old(d.items)
      ensures var was := FirstLike(old(c.items), n.obj);
        && evs == Tell(was, act, n.obj)
        && live == old(live) - Gone(was, act, n, refs) && freed == old(freed) + Gone(was, act, n, refs)
    {
      hide Library.Valid, Drop, Identical, FirstLike;
      match act
      case New => evs := IncludeNew(c, n);
      case Del => evs := IncludeDel(c, n);
      case Other => evs := [];
    }

    /** `nl_cache_include`: the type of the object must be the cache's and the type of the message
        must be in the table; otherwise nothing happens at all. */
    method IncludeMessage(c: Cache, n: Node, types: seq<MsgType>, msgtype: int) returns (err: int, evs: seq<Event>)
      requires Valid() && c in caches && n in live
      modifies this`refs, this`live, this`freed, caches`items, caches`nitems
      modifies AllNodes()`next, AllNodes()`prev, live`refcnt, live`cache
      ensures Valid() && refs == old(refs)
      ensures err == (if n.obj.ops != c.ops then -NLE_OBJ_MISMATCH
                      else if ActionOf(types, msgtype).None? then -NLE_MSGTYPE_NOSUPPORT else 0)
      ensures err == 0 <==> n.obj.ops == c.ops && exists k :: IsRow(types, msgtype, k)
      ensures forall k :: err == 0 && IsRow(types, msgtype, k) ==>
        && c.items == Renewed(old(c.items), types[k].act, n)
        && evs == Tell(FirstLike(old(c.items), n.obj), types[k].act, n.obj)
      ensures err != 0 ==>
        evs == [] && live == old(live) && freed == old(freed) && forall d :: d in caches ==> d.items == old(d.items)
      ensures err == 0 ==>
        var act, was := ActionOf(types, msgtype).value, FirstLike(old(c.items), n.obj);
        && c.items == Renewed(old(c.items), act, n) && evs == Tell(was, act, n.obj)
        && live == old(live) - Gone(was, act, n, refs) && freed == old(freed) + Gone(was, act, n, refs)
        && forall d :: d in caches && d != c ==> d.items == if act.New? then Drop(old(d.items), n) else old(d.items)
    {
      hide Library.Valid, Drop, FirstLike, Identical, Renewed, Tell, IsRow;
      RowDecides(types, msgtype);
      if c.ops != n.obj.ops {
        return -NLE_OBJ_MISMATCH, [];
      }
      var i := 0;
      while i < |types| && types[i].id >= 0
        invariant i <= |types| && ActionOf(types, msgtype) == ActionOf(types[i..], msgtype)
      {
        if types[i].id == msgtype {
          evs := Include(c, n, types[i].act);
          return 0, evs;
        }
        i := i + 1;
      }
      return -NLE_MSGTYPE_NOSUPPORT, [];
    }

    /** The end of a reference that the object may not survive: hold it, take it out, let go. */
    method Expel(n: Node)
      requires Valid() && n in live && n.cache != null
      modifies this`refs, this`live, this`freed, n`refcnt, n`cache, Around(n)`next, Around(n)`prev
      modifies CacheOf(n)`items, CacheOf(n)`nitems
      ensures Valid() && refs == old(refs) && n in refs && n.cache == null
      ensures live == (if refs[n] == 0 then old(live) - {n} else old(live))
      ensures freed == (if refs[n] == 0 then old(freed) + {n} else old(freed))
      ensures old(n.cache).items == Drop(old(n.cache.items), n)
    {
      HeldSomewhere(n);
      hide Library.Valid, Drop;
      UpDown(refs, n);
      Get(n);
      Remove(n);
      Release(n);
    }

    /** Who is freed when `c` goes from the objects `before` to the objects `after`: those that
        left and that nobody outside holds. */
    ghost function Lost(before: seq<Node>, after: seq<Node>): set<Node>
      reads this`refs
    {
      set n | n in before && n !in after && n in refs && refs[n] == 0
    }

    lemma LostOneMore(before: seq<Node>, items: seq<Node>, n: Node, rest: seq<Node>)
      requires n in refs && n in items && (forall m :: m in items ==> m in before)
      requires forall m :: m in rest <==> m in items && m != n
      ensures Lost(before, rest) == Lost(before, items) + if refs[n] == 0 then {n} else {}
    {
    }

    /** The safe iterator over `c`, at position `i`, may lose the item it stands on: what followed
        it is then at position `i`. */
    lemma Skipped(c: Cache, i: nat)
      requires Valid() && c in caches && i < |c.items|
      ensures var n := c.items[i];
        && n in live && n.cache == c && n.next == c.At(i + 1) && n != c.head
        && Drop(c.items, n) == RemoveAt(c.items, i)
        && (forall m :: m in RemoveAt(c.items, i) <==> m in c.items && m != n)
    {
      assert CacheOk(c);
      c.NextIs(i);
      RemoveAtHas(c.items, i);
      DropIsRemoveAt(c.items, i);
    }

    lemma AtHead(c: Cache, i: nat)
      requires Valid() && c in caches && i <= |c.items| && c.At(i) == c.head
      ensures i == |c.items|
    {
      assert CacheOk(c);
    }

    /** What a loop over the members of `c` may touch. */
    ghost function Members(c: Cache): set<Node>
      reads c`items
    {
      (set n | n in c.items) + {c.head}
    }

    lemma AroundIsMember(c: Cache, n: Node)
      requires Valid() && c in caches && n in c.items
      ensures Around(n) <= Members(c) && CacheOf(n) == {c}
    {
      Neighbours(c, n);
      assert CacheOk(c);
    }

    /** `nl_cache_mark_all`. */
    method MarkObjects(c: Cache)
      requires Valid() && c in caches
      modifies c.items`marked
      ensures Valid() && c.Entries() == MarkAll(old(c.Entries()))
    {
      hide Library.CachesOk, Library.NodesOk, EntriesOf;
      RingIsOk(c);
      ghost var heads := Heads();
      c.MarkEach();
      assert Heads() == heads && CachesOk();
    }

    lemma RingIsOk(c: Cache)
      requires Valid() && c in caches
      ensures c.Ring()
    {
      assert CacheOk(c);
    }

    ghost function Now(c: Cache): Snapshot
      reads this`live, this`freed, this`refs, c`items
    {
      Snapshot(live, freed, refs, c.items)
    }

    /** Exactly the objects lost from the list since `was` have been freed. */
    ghost predicate Accounted(was: Snapshot, items: seq<Node>)
      reads this`refs, this`live, this`freed
    {
      && live == was.live - Lost(was.items, items) && freed == was.freed + Lost(was.items, items)
      && forall m :: m in items ==> m in was.items
    }

    lemma NothingLost(c: Cache)
      requires Valid() && c in caches
      ensures c.head.next == c.At(0) && Accounted(Now(c), c.items)
    {
      assert CacheOk(c);
    }

    /** One object leaves under the safe iterator standing on it. */
    method ExpelAt(c: Cache, n: Node, ghost i: nat, ghost was: Snapshot)
      requires Valid() && c in caches && i < |c.items| && n == c.items[i] && Accounted(was, c.items)
      modifies this`refs, this`live, this`freed, c`items, c`nitems
      modifies Members(c)`next, Members(c)`prev, Members(c)`refcnt, Members(c)`cache
      ensures Valid() && refs == old(refs) && c.items == RemoveAt(old(c.items), i)
      ensures c.At(i) == old(n.next) && Members(c) <= old(Members(c)) && Accounted(was, c.items)
    {
      hide Library.Valid, Drop;
      ItemIsLive(c, n);
      Skipped(c, i);
      AroundIsMember(c, n);
      LostOneMore(was.items, c.items, n, RemoveAt(c.items, i));
      Expel(n);
    }

    /** The same without holding the object meanwhile. */
    method RemoveAtHead(c: Cache, n: Node, ghost was: Snapshot)
      requires Valid() && c in caches && |c.items| > 0 && n == c.items[0] && Accounted(was, c.items)
      modifies this`refs, this`live, this`freed, c`items, c`nitems
      modifies Members(c)`next, Members(c)`prev, Members(c)`refcnt, Members(c)`cache
      ensures Valid() && refs == old(refs) && c.items == RemoveAt(old(c.items), 0)
      ensures c.At(0) == old(n.next) && Members(c) <= old(Members(c)) && Accounted(was, c.items)
    {
      hide Library.Valid, Drop;
      ItemIsLive(c, n);
      Skipped(c, 0);
      AroundIsMember(c, n);
      LostOneMore(was.items, c.items, n, RemoveAt(c.items, 0));
      Remove(n);
    }

    /** `nl_cache_clear`: an object is freed exactly if nobody outside holds it. */
    method Clear(c: Cache)
      requires Valid() && c in caches
      modifies this`refs, this`live, this`freed, c`items, c`nitems
      modifies Members(c)`next, Members(c)`prev, Members(c)`refcnt, Members(c)`cache
      ensures Valid() && c.items == [] && refs == old(refs) && Accounted(old(Now(c)), [])
    {
      hide Library.Valid, Library.Accounted;
      NothingLost(c);
      var obj := c.head.next;
      var tmp := obj.next;
      while obj != c.head
        invariant Valid() && c in caches && refs == old(refs) && obj == c.At(0) && tmp == obj.next
        invariant Members(c) <= old(Members(c)) && Accounted(old(Now(c)), c.items)
        decreases |c.items|
      {
        RemoveAtHead(c, obj, old(Now(c)));
        obj := tmp;
        tmp := tmp.next;
      }
      AtHead(c, 0);
    }

    /** The body of the last loop of `nl_cache_resync`: a marked object goes, with a callback. */
    method SweepOne(c: Cache, n: Node, told: seq<Event>, ghost i: nat, ghost start: seq<Entry>, ghost was: Snapshot)
      returns (evs: seq<Event>, ghost j: nat)
      requires Valid() && c in caches && i < |c.items| && n == c.items[i]
      requires OnTheWay(start, c.Entries(), i, told) && Accounted(was, c.items)
      modifies this`refs, this`live, this`freed, c`items, c`nitems
      modifies Members(c)`next, Members(c)`prev, Members(c)`refcnt, Members(c)`cache
      ensures Valid() && refs == old(refs) && Members(c) <= old(Members(c)) && Accounted(was, c.items)
      ensures j <= |c.items| && |c.items| - j < |old(c.items)| - i && c.At(j) == old(n.next)
      ensures OnTheWay(start, c.Entries(), j, evs)
    {
      hide Library.Valid, OnTheWay, Sweep, EntriesOf, Library.Accounted;
      Skipped(c, i);
      SweepGoesOn(start, c.Entries(), i, told);
      if n.marked {
        EntriesDropped(c.items, i);
        ExpelAt(c, n, i, was);
        evs, j := told + [Deleted(n.obj)], i;
      } else {
        evs, j := told, i + 1;
      }
    }

    /** The last loop of `nl_cache_resync`: marked objects go, with a callback each. */
    method SweepObjects(c: Cache) returns (evs: seq<Event>)
      requires Valid() && c in caches
      modifies this`refs, this`live, this`freed, c`items, c`nitems
      modifies Members(c)`next, Members(c)`prev, Members(c)`refcnt, Members(c)`cache
      ensures Valid() && refs == old(refs)
      ensures (c.Entries(), evs) == Sweep(old(c.Entries()), 0)
      ensures Accounted(old(Now(c)), c.items)
    {
      hide Library.Valid, OnTheWay, Sweep, EntriesOf, Library.Accounted;
      NothingLost(c);
      ghost var i: nat, start := 0, c.Entries();
      evs := [];
      SweepGoesOn(start, start, 0, []);
      var obj := c.head.next;
      var next := obj.next;
      while obj != c.head
        invariant Valid() && c in caches && refs == old(refs)
        invariant i <= |c.items| && obj == c.At(i) && next == obj.next
        invariant Members(c) <= old(Members(c)) && Accounted(old(Now(c)), c.items)
        invariant OnTheWay(start, c.Entries(), i, evs)
        decreases |c.items| - i
      {
        Skipped(c, i);
        evs, i := SweepOne(c, obj, evs, i, start, old(Now(c)));
        obj := next;
        next := next.next;
      }
      AtHead(c, i);
      SweepGoesOn(start, c.Entries(), i, evs);
    }

    lemma BooksOk(c: Cache)
      requires Valid() && c in caches
      ensures Distinct(c.items) && (forall m :: m in c.items ==> m in live)
      ensures forall m :: m in live ==> m in refs && refs[m] >= 0 && m !in freed
    {
      assert CacheOk(c);
      assert forall m :: m in live ==> NodeOk(m);
    }

    /** Once included, a new object is in the cache exactly if the message was NEW. */
    lemma Settled(c: Cache, n: Node, s: seq<Node>, act: Action)
      requires Valid() && c in caches && n in live && Distinct(s) && n !in s && c.items == Renewed(s, act, n)
      requires forall d :: d in caches && d != c ==> n !in d.items
      ensures n.cache == null <==> !act.New?
    {
      hide Library.CachesOk, FirstLike, Renewed;
      RenewedHas(s, act, n);
      assert NodeOk(n);
      if act.New? {
        ItemIsLive(c, n);
      }
    }

    /** The parser allocates an object and the change goes into the cache. */
    method Enter(c: Cache, msg: Msg) returns (n: Node, evs: seq<Event>)
      requires Valid() && c in caches && msg.obj.ops == c.ops
      modifies this`refs, this`live, this`freed, caches`items, caches`nitems
      modifies AllNodes()`next, AllNodes()`prev, live`refcnt, live`cache
      ensures Valid() && fresh(n) && n in live && n in refs && refs[n] == 1 && (n.cache == null <==> !msg.act.New?)
      ensures forall m :: m in live ==> m in old(live) || m == n
      ensures forall d :: d in caches && d != c ==> d.items == old(d.items)
      ensures Entered(old(Now(c)), Now(c), msg.act, n)
      ensures n.obj == msg.obj && !n.marked && Distinct(old(c.items)) && n !in old(c.items)
      ensures c.items == Renewed(old(c.items), msg.act, n)
      ensures evs == Tell(FirstLike(old(c.items), n.obj), msg.act, n.obj)
    {
      hide Library.Valid, Drop, FirstLike, Identical, Differ, Renewed, Tell, CacheModel.Include;
      BooksOk(c);
      n := Create(msg.obj);
      NotElsewhere(n);
      evs := Include(c, n, msg.act);
      Settled(c, n, old(c.items), msg.act);
    }

    /** One message of the dump, from the parser's allocation to its release of the object. */
    method Receive(c: Cache, msg: Msg) returns (evs: seq<Event>)
      requires Valid() && c in caches && msg.obj.ops == c.ops
      modifies this`refs, this`live, this`freed, caches`items, caches`nitems
      modifies AllNodes()`next, AllNodes()`prev, live`refcnt, live`cache
      ensures Valid() && (c.Entries(), evs) == CacheModel.Include(old(c.Entries()), msg.act, Entry(msg.obj, false))
      ensures forall d :: d in caches && d != c ==> d.items == old(d.items)
      ensures forall m :: m in live ==> m in old(live) || fresh(m)
      ensures Follows(old(Now(c)), Now(c))
    {
      hide Library.Valid, FirstLike, Follows, CacheModel.Include, Entered, Renewed, Tell;
      var n;
      n, evs := Enter(c, msg);
      RenewedIsInclude(old(c.items), msg.act, n);
      assert EntriesOf(old(c.items)) == old(c.Entries());
      ghost var mid := Now(c);
      Release(n);
      ReceivedFollows(old(Now(c)), mid, Now(c), msg.act, n);
    }

    /** `__cache_pickup` with `resync_cb`: every message of the dump in turn. */
    method ReceiveAll(c: Cache, dump: seq<Msg>) returns (evs: seq<Event>)
      requires Valid() && c in caches && MsgsTyped(dump, c.ops)
      modifies this`refs, this`live, this`freed, caches`items, caches`nitems
      modifies AllNodes()`next, AllNodes()`prev, live`refcnt, live`cache
      ensures Valid() && (c.Entries(), evs) == IncludeAll(old(c.Entries()), dump)
      ensures forall d :: d in caches && d != c ==> d.items == old(d.items)
      ensures forall m :: m in live ==> m in old(live) || fresh(m)
      ensures Follows(old(Now(c)), Now(c))
    {
      hide Library.Valid, EntriesOf, Follows, CacheModel.Include, IncludeAll, Underway;
      NothingYet(c);
      ghost var start := c.Entries();
      DumpGoesOn(start, start, dump, 0, []);
      evs := [];
      var k := 0;
      while k < |dump|
        invariant Valid() && c in caches && k <= |dump| && Underway(start, c.Entries(), dump, k, evs)
        invariant forall d :: d in caches && d != c ==> d.items == old(d.items)
        invariant forall m :: m in live ==> m in old(live) || fresh(m)
        invariant Follows(old(Now(c)), Now(c))
      {
        ghost var before := Now(c);
        DumpGoesOn(start, c.Entries(), dump, k, evs);
        var more := Receive(c, dump[k]);
        FollowsOn(old(Now(c)), before, Now(c));
        evs := evs + more;
        k := k + 1;
      }
      DumpGoesOn(start, c.Entries(), dump, k, evs);
    }

    lemma NothingYet(c: Cache)
      requires Valid() && c in caches
      ensures Follows(Now(c), Now(c))
    {
      BooksOk(c);
    }

    lemma AccountedFollows(c: Cache, was: Snapshot)
      requires Valid() && c in caches && refs == was.refs && Accounted(was, c.items) && Follows(was, was)
      ensures Follows(was, Now(c))
    {
    }

    lemma MembersKnown(c: Cache)
      requires Valid() && c in caches
      ensures Members(c) <= AllNodes() && forall m :: m in c.items ==> m in live
    {
      TailIsKnown(c);
      BooksOk(c);
    }

    /** The sweep, as seen by the whole library. */
    method SweepAway(c: Cache) returns (evs: seq<Event>)
      requires Valid() && c in caches
      modifies this`refs, this`live, this`freed, c`items, c`nitems
      modifies AllNodes()`next, AllNodes()`prev, Members(c)`refcnt, Members(c)`cache
      ensures Valid() && (c.Entries(), evs) == Sweep(old(c.Entries()), 0)
      ensures Follows(old(Now(c)), Now(c))
    {
      hide Library.Valid, EntriesOf, Follows, Sweep, Library.Accounted;
      NothingYet(c);
      MembersKnown(c);
      evs := SweepObjects(c);
      AccountedFollows(c, old(Now(c)));
    }

    /** `nl_cache_resync`. The dump is requested (`sent` is the outcome of that), then its messages
        arrive (`received` is how that ends). Unless both succeed the marks stay. */
    method ResyncObjects(c: Cache, sent: int, dump: seq<Msg>, received: int) returns (err: int, evs: seq<Event>)
      requires Valid() && c in caches && MsgsTyped(dump, c.ops)
      modifies this`refs, this`live, this`freed, caches`items, caches`nitems, c.items`marked
      modifies AllNodes()`next, AllNodes()`prev, AllNodes()`refcnt, AllNodes()`cache
      ensures Valid() && Follows(old(Now(c)), Now(c))
      ensures forall d :: d in caches && d != c ==> d.items == old(d.items)
      ensures err == if sent < 0 then sent else if received < 0 then received else 0
      ensures var es := old(c.Entries());
        (c.Entries(), evs) ==
          if sent < 0 then (MarkAll(es), [])
          else if received < 0 then IncludeAll(MarkAll(es), dump)
          else Resync(es, dump)
    {
      hide Library.Valid, EntriesOf, Follows, CacheModel.Include, IncludeAll, Sweep, MarkAll;
      NothingYet(c);
      evs := [];
      MarkObjects(c);
      if sent < 0 {
        return sent, [];
      }
      evs := ReceiveAll(c, dump);
      if received < 0 {
        return received, evs;
      }
      ghost var mid := Now(c);
      MembersKnown(c);
      var last := SweepAway(c);
      FollowsOn(old(Now(c)), mid, Now(c));
      return 0, evs + last;
    }

  }
}

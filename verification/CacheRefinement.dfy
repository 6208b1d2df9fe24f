/** Including an object in a cache of list nodes refines the map keyed by identity, also when the
    object is in that cache already. */
module CacheRefinement {
  import opened CacheModel
  import opened CacheTheorems
  import opened CacheHeap

  /** The objects of a list, all of one type and no two with the same identity. */
  ghost predicate CleanList(s: seq<Node>, ops: Ops)
    reads s`marked
  {
    Distinct(s) && Clean(EntriesOf(s), ops)
  }

  lemma {:induction false} SelfSearch(es: seq<Entry>, i: nat, ops: Ops)
    requires Clean(es, ops) && HasKeys(ops) && i < |es|
    ensures Search(es, es[i].obj) == if Key(es[i].obj).Some? then i else |es|
  {
    hide Identical, Key, HasKeys;
    var k := Search(es, es[i].obj);
    IdentityIsKey(es[i].obj, es[i].obj);
    if k < |es| {
      IdentityIsKey(es[k].obj, es[i].obj);
    }
  }

  /** An entry that cannot be identified may move to the end without the map noticing. */
  lemma {:induction false} KeylessMoves(es: seq<Entry>, i: nat, ops: Ops)
    requires Clean(es, ops) && HasKeys(ops) && i < |es| && Key(es[i].obj).None?
    ensures var es' := RemoveAt(es, i) + [es[i]]; Clean(es', ops) && ToMap(es') == ToMap(es)
  {
    hide Identical, Key, HasKeys, ToMap;
    MapRemove(es, i, ops);
    MapAppend(RemoveAt(es, i), es[i]);
    forall j | 0 <= j < |es| - 1
      ensures !Identical(RemoveAt(es, i)[j].obj, es[i].obj)
    {
      IdentityIsKey(RemoveAt(es, i)[j].obj, es[i].obj);
    }
  }

  lemma Where(s: seq<Node>, n: Node) returns (i: nat)
    requires n in s
    ensures i < |s| && s[i] == n && EntriesOf(s)[i] == Entry(n.obj, n.marked)
  {
    i :| 0 <= i < |s| && s[i] == n;
  }

  /** An object looks for itself in its own cache: it is found exactly if it can be identified. */
  lemma {:induction false} RecognisedIffKeyed(s: seq<Node>, n: Node, ops: Ops)
    requires CleanList(s, ops) && HasKeys(ops) && n in s
    ensures FirstLike(s, n.obj) == (if Key(n.obj).Some? then n else null)
  {
    hide Identical, FirstLike, Key, HasKeys, Clean, EntriesOf, Search;
    var i := Where(s, n);
    SelfSearch(EntriesOf(s), i, ops);
    FirstLikeIsSearch(s, n.obj);
  }

  /** A NEW message about an object that cannot be identified and is in the cache already: the
      object goes to the end, and is announced as new all the same. */
  lemma {:induction false} UnidentifiedIsAnnouncedAgain(s: seq<Node>, n: Node, ops: Ops)
    requires CleanList(s, ops) && HasKeys(ops) && n in s && Key(n.obj).None?
    ensures Tell(FirstLike(s, n.obj), New, n.obj) == [Added(n.obj)]
    ensures Renewed(s, New, n) == Drop(s, n) + [n] && CleanList(Renewed(s, New, n), ops)
    ensures ToMap(EntriesOf(Renewed(s, New, n))) == ToMap(EntriesOf(s))
  {
    hide Identical, FirstLike, Key, HasKeys, ToMap, Drop, Clean, EntriesOf;
    var i := Where(s, n);
    RecognisedIffKeyed(s, n, ops);
    DropIsRemoveAt(s, i);
    RemoveAtHas(s, i);
    EntriesDropped(s, i);
    EntriesAppended(RemoveAt(s, i), n);
    KeylessMoves(EntriesOf(s), i, ops);
  }

  /** Whatever object is included, the list stays free of twins, the map it stands for changes as
      the message means, and a listener replaying the callbacks keeps the same map. */
  lemma {:induction false} IncludedListRefinesMap(s: seq<Node>, act: Action, n: Node, ops: Ops)
    requires CleanList(s, ops) && HasKeys(ops) && n.obj.ops == ops
    ensures var s', m := Renewed(s, act, n), ToMap(EntriesOf(s));
      && CleanList(s', ops) && ToMap(EntriesOf(s')) == Meant(m, Msg(act, n.obj))
      && Replay(m, Tell(FirstLike(s, n.obj), act, n.obj)) == ToMap(EntriesOf(s'))
  {
    hide Identical, FirstLike, Key, HasKeys, ToMap, Drop, Renewed, Tell, Replay, Meant, Clean, EntriesOf;
    if n in s && Key(n.obj).None? && act.New? {
      UnidentifiedIsAnnouncedAgain(s, n, ops);
      KeylessChangesNothing(ToMap(EntriesOf(s)), n.obj);
    } else if n in s && Key(n.obj).None? {
      RecognisedIffKeyed(s, n, ops);
      NothingHappens(s, act, n);
    } else {
      if n in s {
        RecognisedIffKeyed(s, n, ops);
      }
      var e := Entry(n.obj, n.marked);
      RenewedIsInclude(s, act, n);
      IncludeReplaces(EntriesOf(s), act, e);
      IncludeRefinesMap(EntriesOf(s), Msg(act, n.obj), e);
      RenewedDistinct(s, act, n);
    }
  }

  lemma KeylessChangesNothing(m: View, o: Obj)
    requires Key(o).None?
    ensures Replay(m, [Added(o)]) == m && forall act :: Meant(m, Msg(act, o)) == m
  {
    ReplaySingle(m, Added(o));
  }

  lemma NothingHappens(s: seq<Node>, act: Action, n: Node)
    requires !act.New? && FirstLike(s, n.obj) == null && Key(n.obj).None?
    ensures Renewed(s, act, n) == s && Tell(FirstLike(s, n.obj), act, n.obj) == []
    ensures forall m: View :: Replay(m, []) == m && Meant(m, Msg(act, n.obj)) == m
  {
  }

  lemma StillDistinct(s: seq<Node>, k: nat, n: Node)
    requires Distinct(s)
    ensures n !in s ==> Distinct(s + [n])
    ensures k < |s| ==> Distinct(RemoveAt(s, k))
  {
  }

  lemma {:induction false} RenewedDistinct(s: seq<Node>, act: Action, n: Node)
    requires Distinct(s) && (n in s ==> FirstLike(s, n.obj) == n)
    ensures Distinct(Renewed(s, act, n))
  {
    hide Identical, FirstLike, Drop;
    var was := FirstLike(s, n.obj);
    if was != null {
      var k := Where(s, was);
      DropIsRemoveAt(s, k);
      RemoveAtHas(s, k);
      DropAbsent(RemoveAt(s, k), n);
      StillDistinct(s, k, n);
      hide Distinct, RemoveAt;
      StillDistinct(RemoveAt(s, k), |s|, n);
    } else {
      DropAbsent(s, n);
      StillDistinct(s, |s|, n);
    }
  }
}

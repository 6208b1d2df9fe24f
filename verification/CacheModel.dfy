/** What the object cache means: a list of objects compared by their identifying attributes,
    the effect of NEW and DEL messages on it, and mark-and-sweep resynchronisation. */
module CacheModel {
  import opened Wrappers

  /** An object type. `idAttrs` is `oo_id_attrs`, `None` standing for the all-ones mask;
      `known` are the attributes `oo_compare` looks at. */
  datatype Ops = Ops(name: nat, idAttrs: Option<set<nat>>, hasCompare: bool, known: set<nat>)

  /** An object's plain data; the attribute mask `ce_mask` is the domain of `vals`. */
  datatype Obj = Obj(ops: Ops, vals: map<nat, int>)

  // ---- comparing objects

  /** `ATTR_MISMATCH`. */
  predicate Mismatch(a: Obj, b: Obj, x: nat) {
    (x in a.vals) != (x in b.vals) || (x in a.vals && x in b.vals && a.vals[x] != b.vals[x])
  }

  /** `oo_compare` restricted to `attrs`. */
  function Compare(a: Obj, b: Obj, attrs: set<nat>): set<nat> {
    set x | x in a.ops.known && x in attrs && Mismatch(a, b, x)
  }

  /** `nl_object_identical`. */
  predicate Identical(a: Obj, b: Obj) {
    && a.ops == b.ops && a.ops.hasCompare
    && var req := if a.ops.idAttrs.Some? then a.ops.idAttrs.value else a.vals.Keys * b.vals.Keys;
    req <= a.vals.Keys && req <= b.vals.Keys && Compare(a, b, req) == {}
  }

  /** `nl_object_diff` is non-zero. */
  predicate Differ(a: Obj, b: Obj) {
    a.ops != b.ops || !a.ops.hasCompare || Compare(a, b, a.ops.known) != {}
  }

  /** The part of an object that comparison sees. */
  function Seen(a: Obj): map<nat, int> {
    map x | x in a.vals && x in a.ops.known :: a.vals[x]
  }

  lemma {:induction false} DifferSeesAll(a: Obj, b: Obj)
    ensures Differ(a, b) <==> a.ops != b.ops || !a.ops.hasCompare || Seen(a) != Seen(b)
  {
    if a.ops != b.ops || !a.ops.hasCompare {
      return;
    }
    if Compare(a, b, a.ops.known) == {} {
      forall x | x in a.ops.known
        ensures x in Seen(a) <==> x in Seen(b)
        ensures x in Seen(a) ==> Seen(a)[x] == Seen(b)[x]
      {
        assert x !in Compare(a, b, a.ops.known);
      }
      assert Seen(a) == Seen(b);
    } else {
      var x :| x in Compare(a, b, a.ops.known);
      assert x in a.ops.known && Mismatch(a, b, x);
      assert x in Seen(a) <==> x in a.vals;
      assert x in Seen(b) <==> x in b.vals;
    }
  }

  /** The identifying attributes of an object that has them all. */
  function Key(a: Obj): Option<map<nat, int>> {
    if !a.ops.hasCompare then None
    else if a.ops.idAttrs.None? then Some(map[])
    else if a.ops.idAttrs.value <= a.vals.Keys
    then Some(map x | x in a.ops.idAttrs.value && x in a.ops.known :: a.vals[x])
    else None
  }

  /** Types whose identity is an equality of keys: all but those that compare whatever
      attributes two objects happen to share. */
  predicate HasKeys(ops: Ops) {
    !ops.hasCompare || ops.idAttrs.Some? || ops.known == {}
  }

  lemma {:induction false} IdentityIsKey(a: Obj, b: Obj)
    requires a.ops == b.ops && HasKeys(a.ops)
    ensures Identical(a, b) <==> Key(a).Some? && Key(a) == Key(b)
  {
    if a.ops.hasCompare && a.ops.idAttrs.Some? && a.ops.idAttrs.value <= a.vals.Keys * b.vals.Keys {
      var ids := a.ops.idAttrs.value;
      if Identical(a, b) {
        forall x | x in ids && x in a.ops.known
          ensures a.vals[x] == b.vals[x]
        {
          assert x !in Compare(a, b, ids);
        }
        assert Key(a).value == Key(b).value;
      } else {
        var x :| x in Compare(a, b, ids);
        assert Key(a).value[x] != Key(b).value[x];
      }
    }
  }

  /** Objects of different types, or of a type that cannot compare, are never identical; without fixed
      identifying attributes, two are exactly if they agree on every compared one that both have. */
  lemma {:induction false} IdentityOtherwise(a: Obj, b: Obj)
    ensures a.ops != b.ops || !a.ops.hasCompare ==> !Identical(a, b)
    ensures a.ops == b.ops && a.ops.hasCompare && a.ops.idAttrs.None? ==>
      (Identical(a, b) <==> forall x :: x in a.ops.known && x in a.vals && x in b.vals ==> a.vals[x] == b.vals[x])
  {
    var shared := a.vals.Keys * b.vals.Keys;
    if a.ops == b.ops && a.ops.hasCompare && a.ops.idAttrs.None? {
      forall x
        ensures x in Compare(a, b, shared) <==> x in a.ops.known && x in a.vals && x in b.vals && a.vals[x] != b.vals[x]
      {
      }
    }
  }

  // ---- the cache

  datatype Entry = Entry(obj: Obj, marked: bool)

  /** `NL_ACT_NEW`, `NL_ACT_DEL`, and the actions `cache_include` ignores. */
  datatype Action = New | Del | Other

  datatype Msg = Msg(act: Action, obj: Obj)

  /** A call of the change callback. */
  datatype Event = Added(obj: Obj) | Changed(obj: Obj) | Deleted(obj: Obj)

  /** `nl_cache_search`: the first identical entry, or the length of the list. */
  function Search(es: seq<Entry>, o: Obj): (i: nat)
    ensures i <= |es|
    ensures i < |es| ==> Identical(es[i].obj, o)
    ensures forall k :: 0 <= k < i ==> !Identical(es[k].obj, o)
  {
    if es == [] || Identical(es[0].obj, o) then 0 else 1 + Search(es[1..], o)
  }

  function RemoveAt<T>(s: seq<T>, i: nat): seq<T>
    requires i < |s|
  {
    s[..i] + s[i + 1..]
  }

  /** `cache_include`: the list afterwards and the callbacks made. */
  function Include(es: seq<Entry>, act: Action, e: Entry): (seq<Entry>, seq<Event>) {
    var i := Search(es, e.obj);
    match act
    case New =>
      if i < |es| then (RemoveAt(es, i) + [e], if Differ(es[i].obj, e.obj) then [Changed(e.obj)] else [])
      else (es + [e], [Added(e.obj)])
    case Del =>
      if i < |es| then (RemoveAt(es, i), [Deleted(es[i].obj)]) else (es, [])
    case Other => (es, [])
  }

  function IncludeAll(es: seq<Entry>, msgs: seq<Msg>): (seq<Entry>, seq<Event>)
    decreases |msgs|
  {
    if msgs == [] then (es, [])
    else
      var (es1, ev1) := Include(es, msgs[0].act, Entry(msgs[0].obj, false));
      var (es2, ev2) := IncludeAll(es1, msgs[1..]);
      (es2, ev1 + ev2)
  }

  function MarkAll(es: seq<Entry>): seq<Entry> {
    seq(|es|, i requires 0 <= i < |es| => es[i].(marked := true))
  }

  /** The sweep over the list from position `i`: marked entries go, with a callback each. */
  function Sweep(es: seq<Entry>, i: nat): (seq<Entry>, seq<Event>)
    requires i <= |es|
    decreases |es| - i
  {
    if i == |es| then (es, [])
    else if es[i].marked then
      var (es', evs) := Sweep(RemoveAt(es, i), i);
      (es', [Deleted(es[i].obj)] + evs)
    else Sweep(es, i + 1)
  }

  /** `nl_cache_resync` when the dump arrives without error. */
  function Resync(es: seq<Entry>, msgs: seq<Msg>): (seq<Entry>, seq<Event>) {
    var (es1, ev1) := IncludeAll(MarkAll(es), msgs);
    var (es2, ev2) := Sweep(es1, 0);
    (es2, ev1 + ev2)
  }

  // ---- well-formed caches

  ghost predicate Typed(es: seq<Entry>, ops: Ops) {
    forall i :: 0 <= i < |es| ==> es[i].obj.ops == ops
  }

  ghost predicate MsgsTyped(msgs: seq<Msg>, ops: Ops) {
    forall i :: 0 <= i < |msgs| ==> msgs[i].obj.ops == ops
  }

  ghost predicate NoTwins(es: seq<Entry>) {
    forall i, j :: 0 <= i < j < |es| ==> !Identical(es[i].obj, es[j].obj)
  }

  /** All entries but those identical to `o`. */
  function Without(es: seq<Entry>, o: Obj): seq<Entry> {
    if es == [] then []
    else (if Identical(es[0].obj, o) then [] else [es[0]]) + Without(es[1..], o)
  }

  /** Among twin-free entries at most one is found, so removing the first is removing all. */
  lemma {:induction false} RemoveIsWithout(es: seq<Entry>, o: Obj)
    requires Typed(es, o.ops) && HasKeys(o.ops) && NoTwins(es)
    ensures Without(es, o) == if Search(es, o) < |es| then RemoveAt(es, Search(es, o)) else es
  {
    if es != [] {
      if Identical(es[0].obj, o) {
        forall k | 0 <= k < |es[1..]|
          ensures !Identical(es[1..][k].obj, o)
        {
          IdentityIsKey(es[0].obj, o);
          IdentityIsKey(es[k + 1].obj, o);
          IdentityIsKey(es[0].obj, es[k + 1].obj);
        }
        NoneWithout(es[1..], o);
      } else {
        RemoveIsWithout(es[1..], o);
        var i := Search(es, o);
        if i < |es| {
          assert RemoveAt(es, i) == [es[0]] + RemoveAt(es[1..], i - 1);
        }
      }
    }
  }

  lemma {:induction false} NoneWithout(es: seq<Entry>, o: Obj)
    requires forall k :: 0 <= k < |es| ==> !Identical(es[k].obj, o)
    ensures Without(es, o) == es
  {
    if es != [] {
      NoneWithout(es[1..], o);
    }
  }

  lemma {:induction false} WithoutHas(es: seq<Entry>, o: Obj)
    ensures forall e :: e in Without(es, o) ==> e in es && !Identical(e.obj, o)
  {
    if es != [] {
      WithoutHas(es[1..], o);
    }
  }

  lemma {:induction false} WithoutKeeps(es: seq<Entry>, o: Obj)
    requires NoTwins(es)
    ensures NoTwins(Without(es, o))
  {
    if es != [] {
      WithoutKeeps(es[1..], o);
      WithoutHas(es[1..], o);
    }
  }
}

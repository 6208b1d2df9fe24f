/** Validating and indexing arbitrary attribute streams: the loops of `nla_parse`,
    `nla_validate` and `nla_find`. */
module AttrParser {
  import opened Errors
  import opened Bytes
  import opened Attributes
  import opened Wrappers

  const NLA_U8 := 1
  const NLA_U16 := 2
  const NLA_U32 := 3
  const NLA_U64 := 4
  const NLA_STRING := 5
  const NLA_FLAG := 6
  const NLA_TYPE_MAX := 8

  datatype Policy = Policy(typ: nat, minlen: nat, maxlen: nat)

  /** `validate_nla` stops the program on a policy with an unknown data type. */
  predicate KnownTypes(policy: seq<Policy>) {
    forall i :: 0 <= i < |policy| ==> policy[i].typ <= NLA_TYPE_MAX
  }

  function MinLen(p: Policy): nat {
    if p.minlen != 0 then p.minlen
    else if p.typ == NLA_U8 || p.typ == NLA_STRING then 1
    else if p.typ == NLA_U16 then 2
    else if p.typ == NLA_U32 then 4
    else if p.typ == NLA_U64 then 8
    else 0
  }

  /** What a policy demands of a payload. */
  predicate Accepts(p: Policy, payload: seq<byte>) {
    && MinLen(p) <= |payload|
    && (p.maxlen != 0 ==> |payload| <= p.maxlen)
    && (p.typ == NLA_FLAG ==> payload == [])
    && (p.typ == NLA_STRING ==> payload != [] && payload[|payload| - 1] == 0)
  }

  /** `validate_nla`. The last byte of a string is looked at only when there is one. */
  function Verdict(it: Item, maxtype: nat, policy: seq<Policy>): (code: int)
    requires |policy| == maxtype + 1 && KnownTypes(policy)
    ensures code == 0 <==> it.typ == 0 || it.typ > maxtype || Accepts(policy[it.typ], it.payload)
    ensures code == 0 || code == -NLE_RANGE || code == -NLE_INVAL
  {
    if it.typ <= 0 || it.typ > maxtype then 0
    else
      var pt, len := policy[it.typ], |it.payload|;
      if pt.typ == NLA_FLAG && len > 0 then -NLE_RANGE
      else if len < MinLen(pt) then -NLE_RANGE
      else if pt.maxlen != 0 && len > pt.maxlen then -NLE_RANGE
      else if pt.typ == NLA_STRING && it.payload[len - 1] != 0 then -NLE_INVAL
      else 0
  }

  /** The codes, by number. By data type 0 to 8 the least length is 0, 1, 2, 4, 8, 1, 0, 0, 0 unless the
      policy gives one. A payload too short or too long, or a flag (type 6) with any payload, is -8;
      a string (type 5) of admissible length that does not end in 0 is -7; all else passes. */
  lemma VerdictByNumber(it: Item, maxtype: nat, policy: seq<Policy>)
    requires |policy| == maxtype + 1 && KnownTypes(policy)
    ensures !(0 < it.typ <= maxtype) ==> Verdict(it, maxtype, policy) == 0
    ensures 0 < it.typ <= maxtype ==>
      && var p, len, code := policy[it.typ], |it.payload|, Verdict(it, maxtype, policy);
      && p.typ <= 8
      && var least := if p.minlen != 0 then p.minlen else [0, 1, 2, 4, 8, 1, 0, 0, 0][p.typ];
      && var out := len < least || (p.maxlen != 0 && len > p.maxlen) || (p.typ == 6 && len > 0);
      && (out ==> code == -8)
      && (!out && p.typ == 5 ==> len > 0 && code == if it.payload[len - 1] == 0 then 0 else -7)
      && (!out && p.typ != 5 ==> code == 0)
  {
  }

  /** Without bounds of its own, a policy of a given type passes exactly these payloads. */
  lemma PassesByType(it: Item, maxtype: nat, policy: seq<Policy>)
    requires |policy| == maxtype + 1 && KnownTypes(policy) && 0 < it.typ <= maxtype
    requires policy[it.typ].minlen == 0 && policy[it.typ].maxlen == 0
    ensures var t, len, passes := policy[it.typ].typ, |it.payload|, Verdict(it, maxtype, policy) == 0;
      && (t == 1 ==> (passes <==> len >= 1)) && (t == 2 ==> (passes <==> len >= 2))
      && (t == 3 ==> (passes <==> len >= 4)) && (t == 4 ==> (passes <==> len >= 8))
      && (t == 5 ==> (passes <==> len >= 1 && it.payload[len - 1] == 0)) && (t == 6 ==> (passes <==> len == 0))
      && (t == 0 || t == 7 || t == 8 ==> passes)
  {
    VerdictByNumber(it, maxtype, policy);
  }

  /** `err` is the verdict on the first item that is refused, or zero if none is. */
  ghost predicate FirstRefusal(err: int, items: seq<Item>, maxtype: nat, policy: seq<Policy>)
    requires |policy| == maxtype + 1 && KnownTypes(policy)
  {
    || (err == 0 && forall i :: 0 <= i < |items| ==> Verdict(items[i], maxtype, policy) == 0)
    || (err != 0 &&
        exists k :: (
          && 0 <= k < |items| && Verdict(items[k], maxtype, policy) == err
          && forall i :: 0 <= i < k ==> Verdict(items[i], maxtype, policy) == 0))
  }

  /** The last item of a type. */
  ghost predicate IsLast(found: Option<Item>, items: seq<Item>, t: nat) {
    match found
    case None => forall i :: 0 <= i < |items| ==> items[i].typ != t
    case Some(it) =>
      exists k :: (
        && 0 <= k < |items| && items[k] == it && it.typ == t
        && forall i :: k < i < |items| ==> items[i].typ != t)
  }

  /** The first item of a type. */
  ghost predicate IsFirst(found: Option<Item>, items: seq<Item>, t: nat) {
    match found
    case None => forall i :: 0 <= i < |items| ==> items[i].typ != t
    case Some(it) =>
      exists k :: (
        && 0 <= k < |items| && items[k] == it && it.typ == t
        && forall i :: 0 <= i < k ==> items[i].typ != t)
  }

  /** What a walk standing at `pos` has still to find; past the end there is nothing. */
  ghost function Ahead(s: seq<byte>, pos: nat): seq<Item> {
    if pos <= |s| then Walk(s[pos..], pos) else []
  }

  lemma AheadStart(s: seq<byte>)
    ensures Ahead(s, 0) == Walk(s, 0)
  {
    assert s[0..] == s;
  }

  lemma AheadStep(s: seq<byte>, pos: nat)
    ensures pos > |s| || !Ok(s[pos..]) ==> Ahead(s, pos) == []
    ensures pos <= |s| && Ok(s[pos..]) ==>
      Ahead(s, pos) == [ItemAt(s[pos..], pos)] + Ahead(s, pos + Stride(s[pos..]))
  {
    if pos <= |s| && Ok(s[pos..]) {
      var n := Stride(s[pos..]);
      if pos + n <= |s| {
        assert s[pos..][n..] == s[pos + n..];
      }
    }
  }

  /** `nla_validate`. */
  method Validate(s: seq<byte>, maxtype: nat, policy: seq<Policy>) returns (err: int)
    requires |policy| == maxtype + 1 && KnownTypes(policy)
    ensures FirstRefusal(err, Walk(s, 0), maxtype, policy)
  {
    hide Walk, Ahead, ItemAt, Ok, Un16, Align4;
    AheadStart(s);
    ghost var seen: seq<Item> := [];
    var pos, rem := 0, |s|;
    while rem >= 0 && Ok(s[pos..])
      invariant 0 <= pos && rem == |s| - pos
      invariant Walk(s, 0) == seen + Ahead(s, pos)
      invariant forall i :: 0 <= i < |seen| ==> Verdict(seen[i], maxtype, policy) == 0
      decreases rem
    {
      AheadStep(s, pos);
      var it := ItemAt(s[pos..], pos);
      err := Verdict(it, maxtype, policy);
      if err < 0 {
        assert Walk(s, 0)[|seen|] == it;
        return;
      }
      seen := seen + [it];
      rem := rem - Stride(s[pos..]);
      pos := pos + Stride(s[pos..]);
    }
    AheadStep(s, pos);
    assert seen == Walk(s, 0);
    err := 0;
  }

  /** `nla_find`. */
  method Find(s: seq<byte>, attrtype: nat) returns (found: Option<Item>)
    ensures IsFirst(found, Walk(s, 0), attrtype)
  {
    hide Walk, Ahead, ItemAt, Ok, Un16, Align4;
    AheadStart(s);
    ghost var seen: seq<Item> := [];
    var pos, rem := 0, |s|;
    while rem >= 0 && Ok(s[pos..])
      invariant 0 <= pos && rem == |s| - pos
      invariant Walk(s, 0) == seen + Ahead(s, pos)
      invariant forall i :: 0 <= i < |seen| ==> seen[i].typ != attrtype
      decreases rem
    {
      AheadStep(s, pos);
      var it := ItemAt(s[pos..], pos);
      if it.typ == attrtype {
        assert Walk(s, 0)[|seen|] == it;
        return Some(it);
      }
      seen := seen + [it];
      rem := rem - Stride(s[pos..]);
      pos := pos + Stride(s[pos..]);
    }
    AheadStep(s, pos);
    assert seen == Walk(s, 0);
    found := None;
  }

  /** Entry `t` of the index is the last item of type `t`; entry 0 is unused. */
  ghost predicate Indexes(tb: seq<Option<Item>>, items: seq<Item>, maxtype: nat) {
    && |tb| == maxtype + 1 && tb[0].None?
    && forall t :: 0 < t <= maxtype ==> IsLast(tb[t], items, t)
  }

  /** The index after one more item: a later attribute of a type replaces an earlier one. */
  lemma IndexStep(tb: seq<Option<Item>>, seen: seq<Item>, it: Item, maxtype: nat)
    requires Indexes(tb, seen, maxtype)
    ensures Indexes(if 0 < it.typ <= maxtype then tb[it.typ := Some(it)] else tb, seen + [it], maxtype)
  {
    var tb' := if 0 < it.typ <= maxtype then tb[it.typ := Some(it)] else tb;
    forall t | 0 < t <= maxtype
      ensures IsLast(tb'[t], seen + [it], t)
    {
      assert IsLast(tb[t], seen, t);
      if t == it.typ {
        assert (seen + [it])[|seen|] == it;
      } else if tb[t].Some? {
        var k :| 0 <= k < |seen| && seen[k] == tb[t].value && forall i :: k < i < |seen| ==> seen[i].typ != t;
        assert (seen + [it])[k] == tb'[t].value;
      }
    }
  }

  ghost predicate Usable(maxtype: nat, policy: Option<seq<Policy>>) {
    policy.Some? ==> |policy.value| == maxtype + 1 && KnownTypes(policy.value)
  }

  /** The verdict when there may be no policy. */
  function Judge(it: Item, maxtype: nat, policy: Option<seq<Policy>>): (code: int)
    requires Usable(maxtype, policy)
    ensures code <= 0
  {
    if policy.Some? then Verdict(it, maxtype, policy.value) else 0
  }

  ghost predicate NoneRefused(items: seq<Item>, maxtype: nat, policy: Option<seq<Policy>>)
    requires Usable(maxtype, policy)
  {
    forall i :: 0 <= i < |items| ==> Judge(items[i], maxtype, policy) == 0
  }

  lemma NothingYet(tb: seq<Option<Item>>, maxtype: nat, policy: Option<seq<Policy>>)
    requires Usable(maxtype, policy) && |tb| == maxtype + 1 && forall t :: 0 <= t <= maxtype ==> tb[t].None?
    ensures Indexes(tb, [], maxtype) && NoneRefused([], maxtype, policy)
  {
  }

  lemma AllFine(items: seq<Item>, maxtype: nat, policy: Option<seq<Policy>>)
    requires Usable(maxtype, policy) && NoneRefused(items, maxtype, policy)
    ensures policy.Some? ==> FirstRefusal(0, items, maxtype, policy.value)
  {
    assert policy.Some? ==>
      forall i :: 0 <= i < |items| ==> Verdict(items[i], maxtype, policy.value) == Judge(items[i], maxtype, policy);
  }

  lemma JudgeStep(items: seq<Item>, seen: seq<Item>, it: Item, ahead: seq<Item>, maxtype: nat,
                  policy: Option<seq<Policy>>)
    requires Usable(maxtype, policy) && items == seen + ([it] + ahead) && NoneRefused(seen, maxtype, policy)
    ensures Judge(it, maxtype, policy) == 0 ==> NoneRefused(seen + [it], maxtype, policy)
    ensures Judge(it, maxtype, policy) != 0 ==>
      policy.Some? && FirstRefusal(Judge(it, maxtype, policy), items, maxtype, policy.value)
    ensures it.typ == 0 || it.typ > maxtype ==> Judge(it, maxtype, policy) == 0
  {
    assert items[|seen|] == it;
  }

  /** `nla_parse`: with a policy it refuses exactly what `nla_validate` refuses, with the same
      code; on success entry `t` of the index is the last attribute of type `t`, and entry 0
      stays empty. */
  method Parse(s: seq<byte>, maxtype: nat, policy: Option<seq<Policy>>)
    returns (err: int, tb: seq<Option<Item>>)
    requires Usable(maxtype, policy)
    ensures |tb| == maxtype + 1
    ensures policy.None? ==> err == 0
    ensures policy.Some? ==> FirstRefusal(err, Walk(s, 0), maxtype, policy.value)
    ensures err == 0 ==> Indexes(tb, Walk(s, 0), maxtype)
  {
    hide Indexes, Judge, NoneRefused, FirstRefusal, Walk, Ahead, ItemAt, Ok, Un16, Align4;
    tb := seq(maxtype + 1, _ => None);
    NothingYet(tb, maxtype, policy);
    AheadStart(s);
    ghost var seen: seq<Item> := [];
    var pos, rem := 0, |s|;
    while rem >= 0 && Ok(s[pos..])
      invariant 0 <= pos && rem == |s| - pos
      invariant Walk(s, 0) == seen + Ahead(s, pos) && NoneRefused(seen, maxtype, policy)
      invariant |tb| == maxtype + 1 && Indexes(tb, seen, maxtype)
      decreases rem
    {
      AheadStep(s, pos);
      var it := ItemAt(s[pos..], pos);
      IndexStep(tb, seen, it, maxtype);
      JudgeStep(Walk(s, 0), seen, it, Ahead(s, pos + Stride(s[pos..])), maxtype, policy);
      if it.typ != 0 && it.typ <= maxtype {
        err := Judge(it, maxtype, policy);
        if err < 0 {
          return;
        }
        tb := tb[it.typ := Some(it)];
      }
      seen := seen + [it];
      rem := rem - Stride(s[pos..]);
      pos := pos + Stride(s[pos..]);
    }
    AheadStep(s, pos);
    assert seen == Walk(s, 0);
    AllFine(seen, maxtype, policy);
    err := 0;
  }

  /** The two results a first refusal can have are one: parsing and validating agree. */
  lemma RefusalIsUnique(e: int, e': int, items: seq<Item>, maxtype: nat, policy: seq<Policy>)
    requires |policy| == maxtype + 1 && KnownTypes(policy)
    requires FirstRefusal(e, items, maxtype, policy) && FirstRefusal(e', items, maxtype, policy)
    ensures e == e'
  {
    if e != 0 && e' != 0 {
      var k :| 0 <= k < |items| && Verdict(items[k], maxtype, policy) == e
        && forall i :: 0 <= i < k ==> Verdict(items[i], maxtype, policy) == 0;
      var k' :| 0 <= k' < |items| && Verdict(items[k'], maxtype, policy) == e'
        && forall i :: 0 <= i < k' ==> Verdict(items[i], maxtype, policy) == 0;
      assert k == k';
    }
  }

  /** Index and search return the same attribute exactly when the type occurs at most once
      among distinct items. */
  lemma FirstIsLast(items: seq<Item>, t: nat, first: Option<Item>, last: Option<Item>)
    requires IsFirst(first, items, t) && IsLast(last, items, t)
    requires forall i, j :: 0 <= i < j < |items| ==> items[i].off < items[j].off
    ensures first == last <==> forall i, j :: 0 <= i < j < |items| && items[i].typ == t ==> items[j].typ != t
  {
    if first.Some? && last.Some? {
      var k :| 0 <= k < |items| && items[k] == first.value && forall i :: 0 <= i < k ==> items[i].typ != t;
      var m :| 0 <= m < |items| && items[m] == last.value && forall i :: m < i < |items| ==> items[i].typ != t;
      assert k <= m;
      if k < m {
        assert items[k].typ == items[m].typ == t;
      }
    }
  }

  /** Offsets grow along a walk, so distinct items have distinct addresses. */
  lemma {:induction false} OffsetsGrow(s: seq<byte>, base: nat)
    ensures forall i :: 0 <= i < |Walk(s, base)| ==> base <= Walk(s, base)[i].off
    ensures forall i, j :: 0 <= i < j < |Walk(s, base)| ==> Walk(s, base)[i].off < Walk(s, base)[j].off
    decreases |s|
  {
    if Ok(s) && Stride(s) <= |s| {
      OffsetsGrow(s[Stride(s)..], base + Stride(s));
    }
  }
}

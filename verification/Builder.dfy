/** Emitting whole attribute forests with `nla_put`, `nla_nest_start` and `nla_nest_end`. */
module Builder {
  import opened Bytes
  import opened Attributes
  import opened Message

  lemma AlignedStays(c: seq<byte>)
    requires |c| % 4 == 0
    ensures Align4(|c|) == |c| && Padded(c) == c
  {
    assert Pad(|c|) == [];
  }

  /** Writing the final length over an empty container followed by its contents gives the
      container's encoding. */
  lemma NestPatch(pre: seq<byte>, typ: nat, inner: seq<byte>)
    requires |inner| % 4 == 0
    ensures var c := pre + EncodeAttr(typ, []) + inner;
      && |pre| + 2 <= |c|
      && Splice(c, |pre|, Le16(Trunc16(|c| - |pre|))) == pre + EncodeAttr(typ, inner)
  {
    assert Align4(HDRLEN) == HDRLEN && Pad(HDRLEN) == [];
    assert Align4(HDRLEN + |inner|) == HDRLEN + |inner| && Pad(HDRLEN + |inner|) == [];
    assert EncodeAttr(typ, []) == Le16(Trunc16(HDRLEN)) + Le16(Trunc16(typ));
    assert EncodeAttr(typ, inner) == Le16(Trunc16(HDRLEN + |inner|)) + Le16(Trunc16(typ)) + inner;
  }

  ghost predicate OnlyLen(h: Header, h': Header) {
    h'.typ == h.typ && h'.flags == h.flags && h'.seqno == h.seqno && h'.pid == h.pid
  }

  // ---- what is written

  /** The attributes as they end up in memory: a leaf whose length wraps to less than a header has
      lost (part of) its type. */
  function AsStored(f: seq<Attr>): (g: seq<Attr>)
    ensures |g| == |f|
    decreases f, 0
  {
    if f == [] then [] else [StoredOne(f[0])] + AsStored(f[1..])
  }

  function StoredOne(a: Attr): Attr
    decreases a, 1
  {
    match a
    case Leaf(typ, data) => Leaf(StoredType(typ, |data|), data)
    case Nest(typ, kids) => Nest(typ, AsStored(kids))
  }

  /** A leaf that suffers: its length modulo 2^16 lies inside the header and its type has bits
      there. */
  predicate Clobbered(typ: nat, len: nat) {
    var l := Trunc16(HDRLEN + len);
    ((l == 1 || l == 2) && Trunc16(typ) != 0) || (l == 3 && Trunc16(typ) >= 0x100)
  }

  /** No leaf anywhere suffers. */
  ghost predicate Spared(f: seq<Attr>)
    decreases f
  {
    forall i :: 0 <= i < |f| ==>
      if f[i].Leaf? then !Clobbered(f[i].typ, |f[i].data|) else Spared(f[i].kids)
  }

  lemma {:induction false} StoredSize(f: seq<Attr>)
    ensures |Encode(AsStored(f))| == |Encode(f)|
    decreases f
  {
    if f != [] {
      hide EncodeAttr, Align4, StoredType;
      if f[0].Nest? {
        StoredSize(f[0].kids);
      }
      StoredSize(f[1..]);
      StoredFirst(f);
    }
  }

  lemma EncodeAttrSame(typ: nat, typ': nat, p: seq<byte>, p': seq<byte>)
    requires |p| == |p'|
    ensures EncodeAttr(typ, p) == EncodeAttr(typ', p') <==> Trunc16(typ) == Trunc16(typ') && p == p'
  {
    var e, e' := EncodeAttr(typ, p), EncodeAttr(typ', p');
    if e == e' {
      assert e[2] == Trunc16(typ) % 0x100 && e[3] == Trunc16(typ) / 0x100;
      assert e'[2] == Trunc16(typ') % 0x100 && e'[3] == Trunc16(typ') / 0x100;
      assert e[HDRLEN..HDRLEN + |p|] == p && e'[HDRLEN..HDRLEN + |p|] == p';
    }
  }

  lemma StoredLeaf(typ: nat, len: nat)
    ensures Trunc16(StoredType(typ, len)) == Trunc16(typ) <==> !Clobbered(typ, len)
  {
  }

  lemma ConcatSame(a: seq<byte>, a': seq<byte>, b: seq<byte>, b': seq<byte>)
    requires |a| == |a'|
    ensures a + b == a' + b' <==> a == a' && b == b'
  {
    if a + b == a' + b' {
      assert a == (a + b)[..|a|] && a' == (a' + b')[..|a|];
      assert b == (a + b)[|a|..] && b' == (a' + b')[|a|..];
    }
  }

  lemma SparedFirst(f: seq<Attr>)
    requires f != []
    ensures Spared(f) <==>
      (if f[0].Leaf? then !Clobbered(f[0].typ, |f[0].data|) else Spared(f[0].kids)) && Spared(f[1..])
  {
    if Spared(f[1..]) {
      assert forall i :: 1 <= i < |f| ==> f[i] == f[1..][i - 1];
    }
  }

  lemma {:induction false} StoredHead(a: Attr)
    requires a.Nest? ==> (Encode(AsStored(a.kids)) == Encode(a.kids) <==> Spared(a.kids))
    ensures EncodeAttr(StoredOne(a).typ, Payload(StoredOne(a))) == EncodeAttr(a.typ, Payload(a)) <==>
      if a.Leaf? then !Clobbered(a.typ, |a.data|) else Spared(a.kids)
  {
    hide EncodeAttr, Align4, StoredType, Clobbered, Trunc16, Spared, Encode;
    if a.Leaf? {
      StoredLeaf(a.typ, |a.data|);
    } else {
      StoredSize(a.kids);
    }
    EncodeAttrSame(StoredOne(a).typ, a.typ, Payload(StoredOne(a)), Payload(a));
  }

  /** What is written is the recursive encoding of the forest if and only if no leaf suffers. */
  lemma {:induction false} StoredIsEncoding(f: seq<Attr>)
    ensures Encode(AsStored(f)) == Encode(f) <==> Spared(f)
    decreases f
  {
    if f != [] {
      hide EncodeAttr, Align4, StoredType, Clobbered, Trunc16, Spared;
      SparedFirst(f);
      var a, g := f[0], AsStored(f);
      StoredFirst(f);
      StoredIsEncoding(f[1..]);
      if a.Nest? {
        StoredIsEncoding(a.kids);
      }
      StoredHead(a);
      EncodeSplits(f);
      EncodeSplits(g);
      StoredSizeOne(a);
      hide Encode, Payload, StoredOne;
      ConcatSame(EncodeAttr(g[0].typ, Payload(g[0])), EncodeAttr(a.typ, Payload(a)), Encode(g[1..]), Encode(f[1..]));
    }
  }

  /** Forests that fit the format are among them. */
  lemma {:induction false} FittingIsSpared(f: seq<Attr>)
    requires Fits(f)
    ensures Spared(f)
    decreases f
  {
    forall i | 0 <= i < |f|
      ensures if f[i].Leaf? then !Clobbered(f[i].typ, |f[i].data|) else Spared(f[i].kids)
    {
      if f[i].Nest? {
        FittingIsSpared(f[i].kids);
      }
    }
  }

  /** Type 5 with 65533 bytes: the length field wraps to 1 and the type reads 0. */
  lemma OversizedLosesType()
    ensures Trunc16(HDRLEN + 65533) == 1 && StoredType(5, 65533) == 0
    ensures var f := [Leaf(5, Zeros(65533))]; Encode(AsStored(f)) != Encode(f)
  {
    var f := [Leaf(5, Zeros(65533))];
    assert Clobbered(f[0].typ, |f[0].data|);
    StoredIsEncoding(f);
  }

  lemma LengthField(typ: nat, payload: seq<byte>, rest: seq<byte>)
    ensures var s := EncodeAttr(typ, payload) + rest; |s| >= HDRLEN && Un16(s, 0) == Trunc16(HDRLEN + |payload|)
  {
    var s := EncodeAttr(typ, payload) + rest;
    assert s[0] == Trunc16(HDRLEN + |payload|) % 0x100 && s[1] == Trunc16(HDRLEN + |payload|) / 0x100;
  }

  /** Whole words that come back no shorter than they went do not wrap. */
  lemma NoWrap(n: nat)
    requires n % 4 == 0 && HDRLEN <= Trunc16(HDRLEN + n) && n <= Align4(Trunc16(HDRLEN + n) - HDRLEN)
    ensures HDRLEN + n < 0x1_0000
  {
  }

  lemma ItemFields(s: seq<byte>)
    requires Ok(s)
    ensures ItemAt(s, 0).typ < TYPE_SPAN && |s| >= HDRLEN && |ItemAt(s, 0).payload| == Un16(s, 0) - HDRLEN
  {
  }

  /** The first attribute of what was written, if it was read back as it should be. */
  lemma {:induction false} StoredHeadFits(f: seq<Attr>, schema: Schema)
    requires f != [] && Conforms(f, schema) && Decode(Encode(AsStored(f)), schema) == f
    ensures f[0].typ < TYPE_SPAN && HDRLEN + |Payload(f[0])| < 0x1_0000
  {
    hide Decode, Encode, EncodeAttr, AsStored, StoredOne, Un16, Align4, Trunc16, Conforms, ItemAt, Ok, Stride;
    ConformsFirst(f, schema);
    var g := AsStored(f);
    var s := Encode(g);
    StoredFirst(f);
    StoredPayload(f[0]);
    EncodeSplits(g);
    LengthField(g[0].typ, Payload(g[0]), Encode(g[1..]));
    DecodeUnfolds(s, schema);
    ItemFields(s);
    if f[0].Nest? {
      DecodeShrinks(ItemAt(s, 0).payload, schema.nested[f[0].typ]);
      NoWrap(|Encode(f[0].kids)|);
    }
  }

  lemma StoredPayload(a: Attr)
    ensures |Payload(StoredOne(a))| == |Payload(a)|
  {
    if a.Nest? {
      StoredSize(a.kids);
    }
  }

  lemma FittingType(a: Attr)
    requires a.typ < TYPE_SPAN && HDRLEN + |Payload(a)| < 0x1_0000
    ensures StoredOne(a).typ == a.typ
  {
  }

  lemma FitsFirst(f: seq<Attr>)
    requires f != [] && f[0].typ < TYPE_SPAN && HDRLEN + |Payload(f[0])| < 0x1_0000
    requires (f[0].Nest? ==> Fits(f[0].kids)) && Fits(f[1..])
    ensures Fits(f)
  {
    assert forall i :: 1 <= i < |f| ==> f[i] == f[1..][i - 1];
  }

  lemma ConformsFirst(f: seq<Attr>, schema: Schema)
    requires f != [] && Conforms(f, schema)
    ensures f[0].Nest? <==> f[0].typ in schema.nested
    ensures f[0].Nest? ==> Conforms(f[0].kids, schema.nested[f[0].typ])
    ensures Conforms(f[1..], schema)
  {
  }

  lemma {:induction false} OnlyFittingAreReadBack(f: seq<Attr>, schema: Schema)
    requires Conforms(f, schema) && Decode(Encode(AsStored(f)), schema) == f
    ensures Fits(f)
    decreases f
  {
    if f != [] {
      hide Decode, Encode, EncodeAttr, AsStored, StoredType, Un16, Align4, Conforms, Fits, Ok, ItemAt, Stride;
      var g := AsStored(f);
      StoredHeadFits(f, schema);
      ConformsFirst(f, schema);
      StoredFirst(f);
      StoredPayload(f[0]);
      FittingType(f[0]);
      EncodeSplits(g);
      HeadOfEncoding(g[0].typ, Payload(g[0]), Encode(g[1..]));
      DecodeUnfolds(Encode(g), schema);
      if f[0].Nest? {
        OnlyFittingAreReadBack(f[0].kids, schema.nested[f[0].typ]);
      }
      OnlyFittingAreReadBack(f[1..], schema);
      FitsFirst(f);
    }
  }

  /** The bytes that emitting writes are read back as the forest, its order, nesting and payloads,
      if and only if every type and every length, containers' included, fits its field. */
  lemma {:induction false} EmittedRoundTrip(f: seq<Attr>, schema: Schema)
    requires Conforms(f, schema)
    ensures Decode(Encode(AsStored(f)), schema) == f <==> Fits(f)
  {
    hide Decode, Encode, Fits, AsStored, Conforms, Spared;
    if Fits(f) {
      FittingIsSpared(f);
      StoredIsEncoding(f);
      DecodeEncode(f, schema);
    } else if Decode(Encode(AsStored(f)), schema) == f {
      OnlyFittingAreReadBack(f, schema);
    }
  }

  // ---- when it is accepted

  /** The length of the message before the last reservation, if emitting begins at length `h`. */
  function LastFrom(h: nat, f: seq<Attr>): nat
    requires f != []
    decreases f
  {
    if |f| > 1 then LastFrom(Align4(h) + |EncodeAttr(f[0].typ, Payload(f[0]))|, f[1..])
    else if f[0].Nest? && f[0].kids != [] then LastFrom(Align4(h) + HDRLEN, f[0].kids)
    else h
  }

  /** The test in `nla_reserve` adds the length before and after; the last reservation is the
      hardest to pass. */
  predicate Accepted(size: nat, h: nat, f: seq<Attr>) {
    f == [] || Align4(h) + |Encode(f)| + LastFrom(h, f) <= size
  }

  lemma {:induction false} LastBounds(h: nat, f: seq<Attr>)
    requires f != []
    ensures h <= LastFrom(h, f) <= Align4(h) + |Encode(f)|
    decreases f
  {
    hide EncodeAttr, Align4;
    AlignedSum(h, |EncodeAttr(f[0].typ, Payload(f[0]))|);
    if |f| > 1 {
      LastBounds(Align4(h) + |EncodeAttr(f[0].typ, Payload(f[0]))|, f[1..]);
    } else if f[0].Nest? && f[0].kids != [] {
      LastBounds(Align4(h) + HDRLEN, f[0].kids);
      NestSize(f[0].typ, Encode(f[0].kids));
      AlignedSum(h, HDRLEN);
    }
  }

  lemma AlignedSum(h: nat, n: nat)
    ensures n % 4 == 0 ==> Align4(Align4(h) + n) == Align4(h) + n
    ensures Align4(h) % 4 == 0 && h <= Align4(h)
  {
  }

  lemma EncodeOne(a: Attr)
    ensures Encode([a]) == EncodeAttr(a.typ, Payload(a))
  {
    assert [a][1..] == [] && Encode([]) == [];
  }

  lemma AcceptedLeaf(size: nat, h: nat, typ: nat, data: seq<byte>)
    ensures Accepted(size, h, [Leaf(typ, data)]) <==> Align4(h) + Align4(HDRLEN + |data|) + h <= size
  {
    EncodeOne(Leaf(typ, data));
  }

  /** A container is accepted if its header is and then its contents are. */
  lemma {:induction false} AcceptedNest(size: nat, h: nat, typ: nat, kids: seq<Attr>)
    ensures Accepted(size, h, [Nest(typ, kids)]) <==>
      Align4(h) + HDRLEN + h <= size && Accepted(size, Align4(h) + HDRLEN, kids)
  {
    hide Align4, EncodeAttr;
    EncodeOne(Nest(typ, kids));
    NestSize(typ, Encode(kids));
    AlignedSum(h, HDRLEN);
    if kids != [] {
      LastBounds(Align4(h) + HDRLEN, kids);
    }
  }

  /** A forest is accepted if its first attribute is and then the others are. */
  lemma {:induction false} AcceptedStep(size: nat, h: nat, f: seq<Attr>)
    requires f != []
    ensures Accepted(size, h, f) <==>
      Accepted(size, h, [f[0]]) && Accepted(size, Align4(h) + |EncodeAttr(f[0].typ, Payload(f[0]))|, f[1..])
  {
    hide Align4, EncodeAttr;
    var h1 := Align4(h) + |EncodeAttr(f[0].typ, Payload(f[0]))|;
    EncodeOne(f[0]);
    EncodeSplits(f);
    AlignedEncoding(f[0]);
    AlignedSum(h, |EncodeAttr(f[0].typ, Payload(f[0]))|);
    LastBounds(h, [f[0]]);
    if f[1..] == [] {
      assert f == [f[0]];
    } else {
      LastBounds(h1, f[1..]);
    }
  }

  lemma AlignedEncoding(a: Attr)
    ensures |EncodeAttr(a.typ, Payload(a))| % 4 == 0
  {
  }

  /** Twice the final length is always enough. */
  lemma RoomSuffices(size: nat, h: nat, f: seq<Attr>)
    requires 2 * (Align4(h) + |Encode(f)|) <= size
    ensures Accepted(size, h, f)
  {
    if f != [] {
      LastBounds(h, f);
    }
  }

  /** Behind a bare header, 8 bytes of payload make a message of 28 bytes; a block of 40 bytes is
      refused all the same. */
  lemma RefusesWhatFits()
    ensures var f := [Leaf(1, Zeros(8))]; NLMSG_HDRLEN + |Encode(f)| == 28 && !Accepted(40, NLMSG_HDRLEN, f)
  {
    EncodeOne(Leaf(1, Zeros(8)));
    AcceptedLeaf(40, NLMSG_HDRLEN, 1, Zeros(8));
  }

  /** The message after a forest has been emitted behind content `c`. */
  ghost function Emitted(c: seq<byte>, f: seq<Attr>): seq<byte> {
    if f == [] then c else Padded(c) + Encode(f)
  }

  /** Behind an attribute the message is aligned, so the next one starts right there. */
  lemma AlignedAfter(c: seq<byte>, typ: nat, payload: seq<byte>)
    ensures var c1 := Padded(c) + EncodeAttr(typ, payload); |c1| % 4 == 0 && Padded(c1) == c1
  {
    AlignedStays(Padded(c) + EncodeAttr(typ, payload));
  }

  lemma Concat(p: seq<byte>, e: seq<byte>, rest: seq<byte>)
    ensures p + (e + rest) == (p + e) + rest && |p + (e + rest)| == |p| + |e| + |rest|
  {
  }

  lemma EncodeSplits(f: seq<Attr>)
    requires f != []
    ensures Encode(f) == EncodeAttr(f[0].typ, Payload(f[0])) + Encode(f[1..])
  {
  }

  lemma EmittedAligned(c: seq<byte>, f: seq<Attr>)
    requires Padded(c) == c
    ensures Emitted(c, f) == c + Encode(f)
  {
    assert f == [] ==> Encode(f) == [];
  }

  lemma EmittedStep(c: seq<byte>, f: seq<Attr>)
    requires f != []
    ensures var c1 := Padded(c) + EncodeAttr(f[0].typ, Payload(f[0]));
      && Padded(c1) == c1 && Emitted(c1, f[1..]) == Emitted(c, f)
      && |c1| + |Encode(f[1..])| == |Padded(c)| + |Encode(f)|
  {
    hide EncodeAttr, Payload, Padded, Align4, Encode;
    var e := EncodeAttr(f[0].typ, Payload(f[0]));
    AlignedAfter(c, f[0].typ, Payload(f[0]));
    EmittedAligned(Padded(c) + e, f[1..]);
    EncodeSplits(f);
    Concat(Padded(c), e, Encode(f[1..]));
  }

  lemma EmittedInside(c: seq<byte>, typ: nat, kids: seq<Attr>)
    ensures var c1 := Padded(c) + EncodeAttr(typ, []);
      && Padded(c1) == c1 && |c1| == |Padded(c)| + HDRLEN && |c1| % 4 == 0
      && Emitted(c1, kids) == c1 + Encode(kids) && Padded(c1 + Encode(kids)) == c1 + Encode(kids)
  {
    hide EncodeAttr, Padded, Encode, Emitted;
    var c1 := Padded(c) + EncodeAttr(typ, []);
    AlignedAfter(c, typ, []);
    EmittedAligned(c1, kids);
    AlignedStays(c1 + Encode(kids));
  }

  lemma StoredSizeOne(a: Attr)
    ensures |EncodeAttr(StoredOne(a).typ, Payload(StoredOne(a)))| == |EncodeAttr(a.typ, Payload(a))|
  {
    if a.Nest? {
      StoredSize(a.kids);
    }
  }

  lemma NestSize(typ: nat, inner: seq<byte>)
    requires |inner| % 4 == 0
    ensures |EncodeAttr(typ, inner)| == HDRLEN + |inner|
  {
  }

  lemma EmitNothing(c: seq<byte>, size: nat, h: nat)
    ensures Emitted(c, AsStored([])) == c && Accepted(size, h, [])
  {
  }

  lemma {:induction false} StoredFirst(f: seq<Attr>)
    requires f != []
    ensures AsStored(f) != [] && AsStored(f)[0] == StoredOne(f[0]) && AsStored(f)[1..] == AsStored(f[1..])
  {
  }

  /** One attribute, container or not. Whatever happens, bytes already in the message stay. */
  method EmitOne(m: NlMsg, a: Attr) returns (ok: bool)
    requires m.Valid()
    modifies m`hdr, m`image, m.body
    ensures m.Valid() && old(m.Content()) <= m.Content()
    ensures OnlyLen(old(m.hdr), m.hdr)
    ensures ok ==> m.Content() == Padded(old(m.Content())) + EncodeAttr(StoredOne(a).typ, Payload(StoredOne(a)))
    ensures ok ==> m.hdr.len == Align4(old(m.hdr.len)) + |EncodeAttr(a.typ, Payload(a))|
    ensures ok <==> Accepted(m.Size(), old(m.hdr.len), [a])
    decreases a, 1
  {
    hide EncodeAttr, Padded, Splice, Encode, Align4, Accepted, StoredType, AsStored, NlMsg.Valid;
    if a.Leaf? {
      ok := EmitLeaf(m, a.typ, a.data);
    } else {
      ok := EmitNest(m, a.typ, a.kids);
    }
  }

  method EmitLeaf(m: NlMsg, typ: nat, data: seq<byte>) returns (ok: bool)
    requires m.Valid()
    modifies m`hdr, m`image, m.body
    ensures m.Valid() && old(m.Content()) <= m.Content()
    ensures OnlyLen(old(m.hdr), m.hdr)
    ensures ok ==> m.Content() == Padded(old(m.Content())) + EncodeAttr(StoredType(typ, |data|), data)
    ensures ok ==> m.hdr.len == Align4(old(m.hdr.len)) + |EncodeAttr(typ, data)|
    ensures ok <==> Accepted(m.Size(), old(m.hdr.len), [Leaf(typ, data)])
  {
    hide EncodeAttr, Padded, Zeros, Align4, Accepted, StoredType;
    AcceptedLeaf(m.Size(), m.hdr.len, typ, data);
    var err := m.NlaPut(typ, data);
    ok := err == 0;
  }

  method EmitNest(m: NlMsg, typ: nat, kids: seq<Attr>) returns (ok: bool)
    requires m.Valid()
    modifies m`hdr, m`image, m.body
    ensures m.Valid() && old(m.Content()) <= m.Content()
    ensures OnlyLen(old(m.hdr), m.hdr)
    ensures ok ==> m.Content() == Padded(old(m.Content())) + EncodeAttr(typ, Encode(AsStored(kids)))
    ensures ok ==> m.hdr.len == Align4(old(m.hdr.len)) + |EncodeAttr(typ, Encode(kids))|
    ensures ok <==> Accepted(m.Size(), old(m.hdr.len), [Nest(typ, kids)])
    decreases kids, 1
  {
    hide EncodeAttr, Padded, Splice, Encode, Emitted, Align4, Zeros, Accepted, AsStored, NlMsg.Valid;
    m.Bounds();
    StoredSize(kids);
    ghost var c := m.Content();
    AlignShift(m.hdr.len);
    EmittedInside(c, typ, AsStored(kids));
    NestSize(typ, Encode(AsStored(kids)));
    NestSize(typ, Encode(kids));
    AcceptedNest(m.Size(), m.hdr.len, typ, kids);
    var start := m.NestStart(typ);
    if start.None? {
      return false;
    }
    m.Bounds();
    ok := EmitAll(m, kids);
    if ok {
      CloseNest(m, Padded(c), typ, Encode(AsStored(kids)), start.value);
      m.Bounds();
    }
  }

  /** Ending a container whose contents are in place. */
  method CloseNest(m: NlMsg, ghost pre: seq<byte>, ghost typ: nat, ghost inner: seq<byte>, start: nat)
    requires m.Valid() && |inner| % 4 == 0 && start == |pre|
    requires var c := pre + EncodeAttr(typ, []) + inner; m.Content() == c && Padded(c) == c
    modifies m`hdr, m`image, m.body
    ensures m.Valid() && OnlyLen(old(m.hdr), m.hdr)
    ensures m.Content() == pre + EncodeAttr(typ, inner)
  {
    hide EncodeAttr, Padded, Splice, Align4, Zeros, Le16, Trunc16;
    NestPatch(pre, typ, inner);
    AlignShift(m.hdr.len);
    var bug := m.NestEnd(start);
  }

  /** A forest in order: if the last reservation passes, the message grows by exactly the recursive
      encoding of the forest as stored; otherwise emitting stops on the way. */
  method EmitAll(m: NlMsg, f: seq<Attr>) returns (ok: bool)
    requires m.Valid()
    modifies m`hdr, m`image, m.body
    ensures m.Valid() && old(m.Content()) <= m.Content()
    ensures OnlyLen(old(m.hdr), m.hdr)
    ensures ok ==> m.Content() == Emitted(old(m.Content()), AsStored(f))
    ensures ok <==> Accepted(m.Size(), old(m.hdr.len), f)
    decreases f, 0
  {
    hide EncodeAttr, Padded, Splice, Encode, Emitted, Align4, Zeros, Payload, Accepted, StoredOne, AsStored;
    EmitNothing(m.Content(), m.Size(), m.hdr.len);
    if f == [] {
      return true;
    }
    StoredFirst(f);
    EmittedStep(m.Content(), AsStored(f));
    AcceptedStep(m.Size(), m.hdr.len, f);
    ok := EmitOne(m, f[0]);
    if ok {
      ok := EmitAll(m, f[1..]);
    }
  }
}

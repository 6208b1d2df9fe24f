/** The netlink attribute encoding: a type-length-value record per attribute, padded to four
    bytes, containers holding further records as their payload (section 2.2 of RFC 3549 and
    the attribute layout of libnl). */
module Attributes {
  import opened Bytes

  const HDRLEN := 4
  const TYPE_SPAN := 0x4000

  datatype Attr =
    | Leaf(typ: nat, data: seq<byte>)
    | Nest(typ: nat, kids: seq<Attr>)

  // ---- printing

  function EncodeAttr(typ: nat, payload: seq<byte>): (b: seq<byte>)
    ensures |b| == Align4(HDRLEN + |payload|)
  {
    Le16(Trunc16(HDRLEN + |payload|)) + Le16(Trunc16(typ)) + payload + Pad(HDRLEN + |payload|)
  }

  function Payload(a: Attr): seq<byte>
    decreases a, 1
  {
    match a
    case Leaf(_, data) => data
    case Nest(_, kids) => Encode(kids)
  }

  function Encode(f: seq<Attr>): (b: seq<byte>)
    ensures |b| % 4 == 0
    decreases f, 0
  {
    if f == [] then []
    else EncodeAttr(f[0].typ, Payload(f[0])) + Encode(f[1..])
  }

  // ---- walking

  /** An attribute found in a stream: where it starts, its type without the two flag bits, and
      its payload. */
  datatype Item = Item(off: nat, typ: nat, payload: seq<byte>)

  /** `nla_ok` on the bytes that remain. */
  predicate Ok(s: seq<byte>) {
    |s| >= HDRLEN && HDRLEN <= Un16(s, 0) <= |s|
  }

  function ItemAt(s: seq<byte>, off: nat): Item
    requires Ok(s)
  {
    Item(off, Un16(s, 2) % TYPE_SPAN, s[HDRLEN..Un16(s, 0)])
  }

  /** What `nla_next` subtracts from the remaining byte count. */
  function Stride(s: seq<byte>): (n: nat)
    requires Ok(s)
    ensures 4 <= n && n % 4 == 0
  {
    Align4(Un16(s, 0))
  }

  /** `nla_for_each_attr`: the attributes of a stream, `base` being the offset of its head. */
  function Walk(s: seq<byte>, base: nat): seq<Item>
    decreases |s|
  {
    if !Ok(s) then []
    else [ItemAt(s, base)] + if Stride(s) <= |s| then Walk(s[Stride(s)..], base + Stride(s)) else []
  }

  // ---- the walk stays inside the stream

  /** The walk ends with a negative remainder. `nla_ok` compares it as an unsigned number, so
      it then reads an attribute header beyond the end of the stream. */
  predicate Overruns(s: seq<byte>)
    decreases |s|
  {
    Ok(s) && (Stride(s) > |s| || Overruns(s[Stride(s)..]))
  }

  lemma {:induction false} WholeWordsAreSafe(s: seq<byte>)
    requires |s| % 4 == 0
    ensures !Overruns(s)
    decreases |s|
  {
    if Ok(s) {
      WholeWordsAreSafe(s[Stride(s)..]);
    }
  }

  /** A stream of `n` bytes that overruns: empty attributes, then one that ends mid-word. */
  function Overrunning(n: nat): (s: seq<byte>)
    requires n % 4 != 0 && n > 4
    ensures |s| == n && Overruns(s)
    decreases n
  {
    if n < 8 then [n, 0, 1, 0] + Zeros(n - 4)
    else
      var rest := Overrunning(n - 4);
      var s: seq<byte> := [4, 0, 1, 0] + rest;
      assert s[4..] == rest;
      s
  }

  /** The walk stays in bounds on every stream of a length exactly when that length is a whole
      number of words, or too short to hold a header. */
  lemma SafeLengths(n: nat)
    ensures (forall s: seq<byte> :: |s| == n ==> !Overruns(s)) <==> n % 4 == 0 || n < 4
  {
    if n % 4 == 0 {
      forall s: seq<byte> | |s| == n
        ensures !Overruns(s)
      {
        WholeWordsAreSafe(s);
      }
    } else if n > 4 {
      var s := Overrunning(n);
      assert |s| == n && Overruns(s);
    }
  }

  // ---- one attribute

  lemma HeadOfEncoding(typ: nat, payload: seq<byte>, rest: seq<byte>)
    requires typ < TYPE_SPAN && HDRLEN + |payload| < 0x1_0000
    ensures var s := EncodeAttr(typ, payload) + rest;
      && Ok(s) && ItemAt(s, 0).typ == typ && ItemAt(s, 0).payload == payload
      && Stride(s) == |EncodeAttr(typ, payload)| <= |s| && s[Stride(s)..] == rest
  {
    var s := EncodeAttr(typ, payload) + rest;
    assert s[0] == (HDRLEN + |payload|) % 0x100 && s[1] == (HDRLEN + |payload|) / 0x100;
    assert s[2] == typ % 0x100 && s[3] == typ / 0x100;
    assert Un16(s, 0) == HDRLEN + |payload| && Un16(s, 2) == typ;
  }

  /** One attribute is read back exactly when its type leaves the flag bits free and its total
      length fits the 16-bit field. */
  lemma OneAttribute(typ: nat, payload: seq<byte>)
    ensures Walk(EncodeAttr(typ, payload), 0) == [Item(0, typ, payload)]
      <==> typ < 0x4000 && 4 + |payload| < 0x1_0000
  {
    var s := EncodeAttr(typ, payload);
    if typ < TYPE_SPAN && HDRLEN + |payload| < 0x1_0000 {
      HeadOfEncoding(typ, payload, []);
      assert s + [] == s;
    } else if Walk(s, 0) != [] {
      assert Walk(s, 0)[0] == ItemAt(s, 0);
      assert |ItemAt(s, 0).payload| < 0x1_0000 - HDRLEN;
      assert ItemAt(s, 0).typ < TYPE_SPAN;
    }
  }

  // ---- whole forests

  /** Types without flag bits, and lengths, containers' included, within 16 bits. */
  ghost predicate Fits(f: seq<Attr>)
    decreases f
  {
    forall i :: 0 <= i < |f| ==>
      && f[i].typ < TYPE_SPAN && HDRLEN + |Payload(f[i])| < 0x1_0000
      && (f[i].Nest? ==> Fits(f[i].kids))
  }

  /** The items found are the attributes printed: same number, order, types and payloads. */
  ghost predicate Shows(items: seq<Item>, f: seq<Attr>) {
    && |items| == |f|
    && forall i :: 0 <= i < |f| ==> items[i].typ == f[i].typ && items[i].payload == Payload(f[i])
  }

  lemma WalkUnfolds(s: seq<byte>, base: nat)
    ensures |s| < HDRLEN ==> Walk(s, base) == []
    ensures Ok(s) && Stride(s) <= |s| ==>
      Walk(s, base) == [ItemAt(s, base)] + Walk(s[Stride(s)..], base + Stride(s))
  {
  }

  lemma WalkCons(typ: nat, payload: seq<byte>, rest: seq<byte>, base: nat)
    requires typ < TYPE_SPAN && HDRLEN + |payload| < 0x1_0000
    ensures Walk(EncodeAttr(typ, payload) + rest, base)
      == [Item(base, typ, payload)] + Walk(rest, base + Align4(HDRLEN + |payload|))
  {
    hide Walk, EncodeAttr, Align4;
    HeadOfEncoding(typ, payload, rest);
    WalkUnfolds(EncodeAttr(typ, payload) + rest, base);
  }

  lemma {:induction false} WalkEncode(f: seq<Attr>, base: nat)
    requires Fits(f)
    ensures Shows(Walk(Encode(f), base), f)
  {
    hide Walk, Payload, EncodeAttr, Align4;
    if f == [] {
      WalkUnfolds(Encode(f), base);
    } else {
      WalkCons(f[0].typ, Payload(f[0]), Encode(f[1..]), base);
      WalkEncode(f[1..], base + Align4(HDRLEN + |Payload(f[0])|));
    }
  }

  /** Which types are containers, level by level: what the reader has to know, since the
      builder sets no flag bit. */
  datatype Schema = Schema(nested: map<nat, Schema>)

  ghost predicate Conforms(f: seq<Attr>, schema: Schema)
    decreases f
  {
    forall i :: 0 <= i < |f| ==>
      if f[i].typ in schema.nested
      then f[i].Nest? && Conforms(f[i].kids, schema.nested[f[i].typ])
      else f[i].Leaf?
  }

  /** Reading a stream with `nla_for_each_attr`, descending with `nla_for_each_nested`. */
  function Decode(s: seq<byte>, schema: Schema): seq<Attr>
    decreases |s|
  {
    if !Ok(s) then []
    else
      var it := ItemAt(s, 0);
      var a := if it.typ in schema.nested then Nest(it.typ, Decode(it.payload, schema.nested[it.typ]))
               else Leaf(it.typ, it.payload);
      [a] + if Stride(s) <= |s| then Decode(s[Stride(s)..], schema) else []
  }

  /** Nested round trip: every forest that fits is read back with its order, nesting and
      payloads. */
  lemma {:induction false} DecodeEncode(f: seq<Attr>, schema: Schema)
    requires Fits(f) && Conforms(f, schema)
    ensures Decode(Encode(f), schema) == f
    decreases f
  {
    if f != [] {
      HeadOfEncoding(f[0].typ, Payload(f[0]), Encode(f[1..]));
      if f[0].Nest? {
        DecodeEncode(f[0].kids, schema.nested[f[0].typ]);
      }
      DecodeEncode(f[1..], schema);
    }
  }

  lemma DecodeUnfolds(s: seq<byte>, schema: Schema)
    ensures !Ok(s) ==> Decode(s, schema) == []
    ensures Ok(s) ==>
      var f, it := Decode(s, schema), ItemAt(s, 0);
      && f != [] && f[1..] == (if Stride(s) <= |s| then Decode(s[Stride(s)..], schema) else [])
      && f[0] == if it.typ in schema.nested then Nest(it.typ, Decode(it.payload, schema.nested[it.typ]))
                 else Leaf(it.typ, it.payload)
  {
  }

  /** Printing what was read never takes more words than were read. */
  lemma {:induction false} DecodeShrinks(s: seq<byte>, schema: Schema)
    ensures |Encode(Decode(s, schema))| <= Align4(|s|)
    decreases |s|
  {
    hide Decode, Align4, Un16;
    DecodeUnfolds(s, schema);
    var f := Decode(s, schema);
    if Ok(s) {
      var it := ItemAt(s, 0);
      if it.typ in schema.nested {
        DecodeShrinks(it.payload, schema.nested[it.typ]);
      }
      if Stride(s) <= |s| {
        DecodeShrinks(s[Stride(s)..], schema);
      }
      AlignFacts(|Payload(f[0])|, Un16(s, 0), |s|);
    }
  }

  /** A head that is read back has the right size for the 16-bit field. */
  lemma HeadFits(f: seq<Attr>, schema: Schema)
    requires f != [] && Conforms(f, schema) && Decode(Encode(f), schema) == f
    ensures f[0].typ < TYPE_SPAN && HDRLEN + |Payload(f[0])| < 0x1_0000
  {
    var s := Encode(f);
    assert Ok(s);
    var it := ItemAt(s, 0);
    assert |it.payload| <= 0xFFFF - HDRLEN;
    assert f[0] == Decode(s, schema)[0];
    if f[0].Nest? {
      DecodeShrinks(it.payload, schema.nested[it.typ]);
      assert s[0] == Trunc16(HDRLEN + |Encode(f[0].kids)|) % 0x100;
      assert s[1] == Trunc16(HDRLEN + |Encode(f[0].kids)|) / 0x100;
    }
  }

  lemma {:induction false} OnlyFittingForestsReturn(f: seq<Attr>, schema: Schema)
    requires Conforms(f, schema) && Decode(Encode(f), schema) == f
    ensures Fits(f)
    decreases f
  {
    if f != [] {
      HeadFits(f, schema);
      HeadOfEncoding(f[0].typ, Payload(f[0]), Encode(f[1..]));
      assert Decode(Encode(f), schema)[0] == f[0];
      assert Decode(Encode(f), schema)[1..] == Decode(Encode(f[1..]), schema);
      if f[0].Nest? {
        OnlyFittingForestsReturn(f[0].kids, schema.nested[f[0].typ]);
      }
      OnlyFittingForestsReturn(f[1..], schema);
    }
  }

  /** Nested round trip, exactly: a forest is read back with its order, nesting and payloads if
      and only if every type and every length, containers' included, fits its field. */
  lemma NestedRoundTrip(f: seq<Attr>, schema: Schema)
    requires Conforms(f, schema)
    ensures Decode(Encode(f), schema) == f <==> Fits(f)
  {
    if Fits(f) {
      DecodeEncode(f, schema);
    } else if Decode(Encode(f), schema) == f {
      OnlyFittingForestsReturn(f, schema);
    }
  }
}

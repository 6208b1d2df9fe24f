/** Generic netlink messages: header placement when building, and the same placement again
    when the converted message is parsed. */
module Genl {
  import opened Errors
  import opened Bytes
  import opened Attributes
  import opened AttrParser
  import opened Message
  import opened Builder
  import opened Wrappers

  const GENL_HDRLEN := 4

  /** The payload of a message with command, version, a zeroed user header and attributes. */
  function GenlContent(cmd: byte, version: byte, hdrlen: nat, attrs: seq<byte>): seq<byte> {
    [cmd, version, 0, 0] + Zeros(Align4(hdrlen)) + attrs
  }

  lemma GenlHead(cmd: byte, version: byte, hdrlen: nat)
    ensures Splice(Zeros(Align4(GENL_HDRLEN + hdrlen)), 0, [cmd, version, 0, 0])
      == GenlContent(cmd, version, hdrlen, [])
    ensures Align4(GENL_HDRLEN + hdrlen) == GENL_HDRLEN + Align4(hdrlen)
  {
    assert Align4(GENL_HDRLEN + hdrlen) == GENL_HDRLEN + Align4(hdrlen);
  }

  /** `genlmsg_put`: header fields, then the generic header and room for the user header. The
      generic header always goes to the front of the payload. When there is no room the header
      fields have been written all the same. */
  method GenlPut(m: NlMsg, pid: nat, seqno: nat, family: nat, hdrlen: nat, flags: nat, cmd: byte, version: byte)
    returns (ok: bool)
    requires m.Valid()
    modifies m`hdr, m`image, m.body
    ensures m.Valid()
    ensures m.hdr == Header(m.hdr.len, Trunc16(family), Trunc16(flags), seqno, pid)
    ensures ok <==> old(m.hdr.len) + Align4(GENL_HDRLEN + hdrlen) <= m.Size()
    ensures m.Content() == if ok
      then Splice(old(m.Content()) + Zeros(Align4(GENL_HDRLEN + hdrlen)), 0, [cmd, version, 0, 0])
      else old(m.Content())
  {
    hide Align4, Splice, Zeros, RoundTo;
    RoundToFits(GENL_HDRLEN + hdrlen, 4);
    m.hdr := m.hdr.(typ := Trunc16(family), flags := Trunc16(flags), pid := pid, seqno := seqno);
    var r := m.Reserve(GENL_HDRLEN + hdrlen, 4);
    ok := r.Some?;
    if ok {
      m.Overwrite(0, [cmd, version, 0, 0]);
    }
  }

  /** `nlmsg_convert`: a private copy of a received message, if there is memory for it. */
  method Convert(m: NlMsg, memory: bool) returns (copy: NlMsg?)
    requires m.Valid()
    ensures copy == null <==> !memory
    ensures copy != null ==>
      && fresh(copy) && fresh(copy.body) && copy.Valid()
      && copy.hdr == m.hdr && copy.Content() == m.Content() && copy.Size() == Align4(m.hdr.len)
  {
    hide Align4, Splice, Zeros;
    copy := AllocMsg(Align4(m.hdr.len), memory);
    if copy == null {
      return;
    }
    var data := m.body[..m.hdr.len - NLMSG_HDRLEN];
    assert data == m.Content();
    CopyIn(copy, data);
    copy.hdr := m.hdr;
    copy.Holds(data);
  }

  method CopyIn(m: NlMsg, data: seq<byte>)
    requires m.Valid() && m.Content() == [] && m.hdr.len == NLMSG_HDRLEN && |data| <= m.body.Length
    modifies m`image, m.body
    ensures m.image == m.body[..] && m.image == data + Zeros(m.body.Length - |data|)
  {
    var z := Zeros(m.body.Length);
    assert [] + z == z;
    SpliceTail([], m.body.Length, data);
    assert [] + data == data;
    m.Store(0, data);
  }

  /** `genlmsg_parse`: too short a message is refused; otherwise the attributes are those of the
      stream behind both headers. */
  method GenlParse(m: NlMsg, hdrlen: nat, maxtype: nat, policy: Option<seq<Policy>>)
    returns (err: int, tb: seq<Option<Item>>)
    requires m.Valid() && Usable(maxtype, policy)
    ensures |m.Content()| < GENL_HDRLEN + Align4(hdrlen) ==> err == -NLE_MSG_TOOSHORT
    ensures |m.Content()| >= GENL_HDRLEN + Align4(hdrlen) ==>
      var items := Walk(m.Content()[GENL_HDRLEN + Align4(hdrlen)..], 0);
      && |tb| == maxtype + 1
      && (policy.None? ==> err == 0)
      && (policy.Some? ==> FirstRefusal(err, items, maxtype, policy.value))
      && (err == 0 ==> Indexes(tb, items, maxtype))
  {
    var len, off := m.hdr.len - NLMSG_HDRLEN, GENL_HDRLEN + Align4(hdrlen);
    if len < GENL_HDRLEN || len - GENL_HDRLEN < Align4(hdrlen) {
      return -NLE_MSG_TOOSHORT, [];
    }
    assert m.body[off..len] == m.Content()[off..];
    err, tb := Parse(m.body[off..len], maxtype, policy);
  }

  lemma GenlParts(cmd: byte, version: byte, hdrlen: nat, attrs: seq<byte>)
    ensures var c := GenlContent(cmd, version, hdrlen, attrs);
      && |c| == GENL_HDRLEN + Align4(hdrlen) + |attrs| && c[0] == cmd && c[1] == version
      && c[GENL_HDRLEN + Align4(hdrlen)..] == attrs
  {
  }

  lemma GenlEmitted(cmd: byte, version: byte, hdrlen: nat, f: seq<Attr>)
    ensures Emitted(GenlContent(cmd, version, hdrlen, []), f) == GenlContent(cmd, version, hdrlen, Encode(f))
  {
    var c := GenlContent(cmd, version, hdrlen, []);
    AlignedStays(c);
    EmittedAligned(c, f);
    assert c + Encode(f) == GenlContent(cmd, version, hdrlen, Encode(f));
  }

  lemma GenlFresh(cmd: byte, version: byte, hdrlen: nat)
    ensures Splice([] + Zeros(Align4(GENL_HDRLEN + hdrlen)), 0, [cmd, version, 0, 0])
      == GenlContent(cmd, version, hdrlen, [])
    ensures Padded(GenlContent(cmd, version, hdrlen, [])) == GenlContent(cmd, version, hdrlen, [])
    ensures |GenlContent(cmd, version, hdrlen, [])| == Align4(GENL_HDRLEN + hdrlen) == GENL_HDRLEN + Align4(hdrlen)
  {
    GenlHead(cmd, version, hdrlen);
    GenlParts(cmd, version, hdrlen, []);
    assert [] + Zeros(Align4(GENL_HDRLEN + hdrlen)) == Zeros(Align4(GENL_HDRLEN + hdrlen));
    AlignedStays(GenlContent(cmd, version, hdrlen, []));
  }

  /** Whether a block of `size` bytes takes the headers and the attributes. */
  predicate Sendable(size: nat, hdrlen: nat, f: seq<Attr>) {
    var start := NLMSG_HDRLEN + GENL_HDRLEN + Align4(hdrlen);
    start <= size && Accepted(size, start, f)
  }

  /** A request as an application builds it. */
  method Build(size: nat, family: nat, hdrlen: nat, cmd: byte, version: byte, f: seq<Attr>, memory: bool)
    returns (m: NlMsg?, ok: bool)
    ensures m == null <==> !memory
    ensures m != null ==> fresh(m) && fresh(m.body) && m.Valid()
    ensures ok ==> m != null && m.Content() == GenlContent(cmd, version, hdrlen, Encode(AsStored(f)))
    ensures ok <==> memory && Sendable(size, hdrlen, f)
  {
    hide GenlContent, Encode, Emitted, Zeros, Splice, Align4, Padded, AsStored, Accepted, NlMsg.Valid;
    m := AllocMsg(size, memory);
    if m == null {
      return m, false;
    }
    m.Bounds();
    GenlFresh(cmd, version, hdrlen);
    GenlEmitted(cmd, version, hdrlen, AsStored(f));
    ok := GenlPut(m, 0, 0, family, hdrlen, 0, cmd, version);
    if ok {
      m.Bounds();
      ok := EmitAll(m, f);
    }
  }

  /** Twice the final length is always enough. */
  lemma EnoughRoom(size: nat, hdrlen: nat, f: seq<Attr>)
    ensures 2 * (NLMSG_HDRLEN + GENL_HDRLEN + Align4(hdrlen) + |Encode(f)|) <= size ==> Sendable(size, hdrlen, f)
  {
    hide Align4, Encode, Accepted;
    var start := NLMSG_HDRLEN + GENL_HDRLEN + Align4(hdrlen);
    AlignedSum(hdrlen, NLMSG_HDRLEN + GENL_HDRLEN);
    if 2 * (start + |Encode(f)|) <= size {
      RoomSuffices(size, start, f);
    }
  }

  /** Build, send, convert, parse: with the same user header length on both sides, whatever it
      is, the receiver sees the command, the version and, type by type, the last attribute the
      sender put. */
  method EndToEnd(size: nat, family: nat, hdrlen: nat, cmd: byte, version: byte, f: seq<Attr>, maxtype: nat,
                  policy: Option<seq<Policy>>, memory: bool, copyMemory: bool)
    returns (received: bool, cmd': byte, version': byte, err: int, tb: seq<Option<Item>>)
    requires Usable(maxtype, policy)
    ensures received <==> memory && copyMemory && Sendable(size, hdrlen, f)
    ensures memory && copyMemory && 2 * (NLMSG_HDRLEN + GENL_HDRLEN + Align4(hdrlen) + |Encode(f)|) <= size ==> received
    ensures received ==> cmd' == cmd && version' == version
    ensures received && Fits(f) ==>
      var items := Walk(Encode(f), 0);
      && Shows(items, f)
      && (policy.None? ==> err == 0)
      && (policy.Some? ==> FirstRefusal(err, items, maxtype, policy.value))
      && (err == 0 ==> Indexes(tb, items, maxtype))
  {
    hide GenlContent, Encode, Walk, Fits, Shows, Indexes, FirstRefusal, Align4, AsStored, Spared, Sendable, NlMsg.Valid;
    EnoughRoom(size, hdrlen, f);
    var m, sent := Build(size, family, hdrlen, cmd, version, f, memory);
    if !sent {
      return false, 0, 0, 0, [];
    }
    GenlParts(cmd, version, hdrlen, Encode(AsStored(f)));
    var copy := Convert(m, copyMemory);
    if copy == null {
      return false, 0, 0, 0, [];
    }
    received := true;
    copy.Bounds();
    copy.Front();
    cmd', version' := copy.body[0], copy.body[1];
    err, tb := GenlParse(copy, hdrlen, maxtype, policy);
    if Fits(f) {
      FittingIsSpared(f);
      StoredIsEncoding(f);
      WalkEncode(f, 0);
    }
  }
}

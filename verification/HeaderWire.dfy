/** The message header on the wire, and what the receive path reads from it. */
module HeaderWire {
  import opened Bytes
  import opened Message
  import opened Datagram

  /** A 32-bit field, least significant byte first. */
  function Le32(x: nat): seq<byte>
    requires x < 0x1_0000_0000
  {
    var low3 := x % 0x100_0000;
    var low2 := low3 % 0x1_0000;
    [low2 % 0x100, low2 / 0x100, low3 / 0x1_0000, x / 0x100_0000]
  }

  /** `struct nlmsghdr`: length, type, flags, sequence number and port. */
  function HeaderBytes(h: Header): (b: seq<byte>)
    requires h.len < 0x1_0000_0000 && h.typ < 0x1_0000 && h.flags < 0x1_0000
    requires h.seqno < 0x1_0000_0000 && h.pid < 0x1_0000_0000
    ensures |b| == 16
  {
    Le32(h.len) + [h.typ % 0x100, h.typ / 0x100] + [h.flags % 0x100, h.flags / 0x100] + Le32(h.seqno) + Le32(h.pid)
  }

  /** A field of four bytes reads as the number written. */
  lemma ReadsBack(b: seq<byte>, i: nat, x: nat)
    requires i + 4 <= |b| && x < 0x1_0000_0000 && b[i..i + 4] == Le32(x)
    ensures Un32(b, i) == x
  {
    var f := b[i..i + 4];
    assert b[i] == f[0] && b[i + 1] == f[1] && b[i + 2] == f[2] && b[i + 3] == f[3];
  }

  lemma HeaderSlices(h: Header, rest: seq<byte>)
    requires h.len < 0x1_0000_0000 && h.typ < 0x1_0000 && h.flags < 0x1_0000
    requires h.seqno < 0x1_0000_0000 && h.pid < 0x1_0000_0000
    ensures var m := HeaderBytes(h) + rest;
      && m[0..4] == Le32(h.len) && m[8..12] == Le32(h.seqno) && m[12..16] == Le32(h.pid)
      && m[4] == h.typ % 0x100 && m[5] == h.typ / 0x100 && m[6] == h.flags % 0x100 && m[7] == h.flags / 0x100
      && m[16..] == rest
  {
  }

  /** The readers give back what was written: the length, type and sequence number, and of the flags
      bit 1 (more parts follow) and bit 2 (an acknowledgement is wanted). */
  lemma {:induction false} HeaderRead(h: Header, rest: seq<byte>)
    requires h.len == 16 + |rest| < 0x1_0000_0000 && h.typ < 0x1_0000 && h.flags < 0x1_0000
    requires h.seqno < 0x1_0000_0000 && h.pid < 0x1_0000_0000
    ensures var m := HeaderBytes(h) + rest;
      && IsMsg(m) && TypeOf(m) == h.typ && SeqOf(m) == h.seqno
      && (IsMulti(m) <==> h.flags / 2 % 2 == 1) && (WantsAck(m) <==> h.flags / 4 % 2 == 1)
  {
    var m := HeaderBytes(h) + rest;
    HeaderSlices(h, rest);
    hide HeaderBytes, Un32, Le32;
    ReadsBack(m, 0, h.len);
    ReadsBack(m, 8, h.seqno);
    assert Un16(m, 4) == h.typ && Un16(m, 6) == h.flags;
  }

  /** An error message carries its code behind the header, as a signed number; it is whole exactly if
      the request's header follows. */
  lemma {:induction false} ErrorRead(h: Header, code: int, rest: seq<byte>)
    requires -0x8000_0000 <= code < 0x8000_0000 && h.len == 20 + |rest| < 0x1_0000_0000
    requires h.typ < 0x1_0000 && h.flags < 0x1_0000 && h.seqno < 0x1_0000_0000 && h.pid < 0x1_0000_0000
    ensures var m := HeaderBytes(h) + (Le32(if code < 0 then code + 0x1_0000_0000 else code) + rest);
      && IsMsg(m) && (IsTruncated(m) <==> |rest| < 16) && (!IsTruncated(m) ==> ErrorOf(m) == code)
  {
    var word := if code < 0 then code + 0x1_0000_0000 else code;
    var body := Le32(word) + rest;
    var m := HeaderBytes(h) + body;
    HeaderRead(h, body);
    HeaderSlices(h, body);
    assert m[16..20] == m[16..][..4] == Le32(word);
    hide HeaderBytes, Un32, Le32;
    ReadsBack(m, 16, word);
  }
}

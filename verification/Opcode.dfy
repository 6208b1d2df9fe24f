/** The port bits of a packet's opcode word. The CPU bits name the receiving interface and
    the MAC bits the sending one; both readers take the lowest bit set. */
module Opcode {

  const CPU_ALL: bv32 := 0xAA
  const MAC_ALL: bv32 := 0x55

  const NO_IFACE := -1

  predicate IsIface(i: int) {
    0 <= i < 4
  }

  function CpuBit(i: int): bv32
    requires IsIface(i)
  {
    match i
    case 0 => 0x02
    case 1 => 0x08
    case 2 => 0x20
    case _ => 0x80
  }

  function MacBit(i: int): bv32
    requires IsIface(i)
  {
    match i
    case 0 => 0x01
    case 1 => 0x04
    case 2 => 0x10
    case _ => 0x40
  }

  function GetDst(op: bv32): (i: int)
    ensures IsIface(i) || i == NO_IFACE
  {
    if op & 0x02 != 0 then 0
    else if op & 0x08 != 0 then 1
    else if op & 0x20 != 0 then 2
    else if op & 0x80 != 0 then 3
    else NO_IFACE
  }

  function GetSrc(op: bv32): (i: int)
    ensures IsIface(i) || i == NO_IFACE
  {
    if op & 0x01 != 0 then 0
    else if op & 0x04 != 0 then 1
    else if op & 0x10 != 0 then 2
    else if op & 0x40 != 0 then 3
    else NO_IFACE
  }

  function SetDst(op: bv32, i: int): bv32 {
    var cleared := op & !CPU_ALL;
    if IsIface(i) then cleared | CpuBit(i) else cleared
  }

  function SetSrc(op: bv32, i: int): bv32 {
    var cleared := op & !MAC_ALL;
    if IsIface(i) then cleared | MacBit(i) else cleared
  }

  /** The destination written is the destination read, whatever the word held, and the source
      is left alone. */
  lemma SetDstRoundTrip(op: bv32, i: int)
    ensures GetDst(SetDst(op, i)) == if IsIface(i) then i else NO_IFACE
    ensures GetSrc(SetDst(op, i)) == GetSrc(op)
  {
    if i == 0 {
    } else if i == 1 {
    } else if i == 2 {
    } else if i == 3 {
    }
  }

  /** The same for the source port. */
  lemma SetSrcRoundTrip(op: bv32, i: int)
    ensures GetSrc(SetSrc(op, i)) == if IsIface(i) then i else NO_IFACE
    ensures GetDst(SetSrc(op, i)) == GetDst(op)
  {
    if i == 0 {
    } else if i == 1 {
    } else if i == 2 {
    } else if i == 3 {
    }
  }

  /** With several bits set, the lowest interface counts; other bits do not. */
  lemma LowestBitCounts(op: bv32)
    ensures GetDst(op) == 0 <==> op & 0x02 != 0
    ensures GetDst(op) == 1 <==> op & 0x02 == 0 && op & 0x08 != 0
    ensures GetDst(op) == 2 <==> op & 0x0A == 0 && op & 0x20 != 0
    ensures GetDst(op) == 3 <==> op & 0x2A == 0 && op & 0x80 != 0
    ensures GetDst(op) == NO_IFACE <==> op & 0xAA == 0
    ensures GetSrc(op) == 0 <==> op & 0x01 != 0
    ensures GetSrc(op) == 1 <==> op & 0x01 == 0 && op & 0x04 != 0
    ensures GetSrc(op) == 2 <==> op & 0x05 == 0 && op & 0x10 != 0
    ensures GetSrc(op) == 3 <==> op & 0x15 == 0 && op & 0x40 != 0
    ensures GetSrc(op) == NO_IFACE <==> op & 0x55 == 0
  {
  }

  /** The words themselves: interface 0, 1, 2, 3 is bit 1, 3, 5, 7 as a destination and bit 0, 2, 4, 6
      as a source. */
  lemma OpcodeWords()
    ensures SetDst(0, 0) == 0x02 && SetDst(0, 1) == 0x08 && SetDst(0, 2) == 0x20 && SetDst(0, 3) == 0x80
    ensures SetSrc(0, 0) == 0x01 && SetSrc(0, 1) == 0x04 && SetSrc(0, 2) == 0x10 && SetSrc(0, 3) == 0x40
    ensures GetDst(0x02) == 0 && GetDst(0x08) == 1 && GetDst(0x20) == 2 && GetDst(0x80) == 3
    ensures GetSrc(0x01) == 0 && GetSrc(0x04) == 1 && GetSrc(0x10) == 2 && GetSrc(0x40) == 3
  {
  }

  /** The loopback pairing 0-1, 2-3: `src ^ 1`. */
  function Peer(i: int): (p: int)
    requires i >= 0
    ensures p >= 0
  {
    if i % 2 == 0 then i + 1 else i - 1
  }
}

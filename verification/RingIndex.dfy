/** Slot arithmetic of the DMA rings. A ring position is a count of packets that never
    wraps; the slot it lives in is that count modulo the number of buffers. */
module RingIndex {

  function Idx(j: nat, n: nat): (i: nat)
    requires n > 0
    ensures i < n
  {
    if j < n then j else Idx(j - n, n)
  }

  /** The drivers' `if (++index == dma_cpu_bufs) index = 0`. */
  function Bump(i: nat, n: nat): nat {
    if i + 1 == n then 0 else i + 1
  }

  lemma {:induction false} BumpIsNext(j: nat, n: nat)
    requires n > 0
    ensures Idx(j + 1, n) == Bump(Idx(j, n), n)
  {
    if j >= n {
      BumpIsNext(j - n, n);
    }
  }

  /** Positions less than one lap apart never share a slot. */
  lemma {:induction false} SlotsDiffer(j: nat, k: nat, n: nat)
    requires n > 0 && j < k < j + n
    ensures Idx(j, n) != Idx(k, n)
  {
    if j >= n {
      SlotsDiffer(j - n, k - n, n);
    }
  }

  /** Every slot is the slot of some position of any lap. */
  lemma {:induction false} PositionOf(i: nat, base: nat, n: nat) returns (j: nat)
    requires i < n
    ensures base <= j < base + n && Idx(j, n) == i
  {
    if base == 0 {
      j := i;
    } else {
      j := PositionOf(i, base - 1, n);
      if j < base {
        j := j + n;
      }
    }
  }
}

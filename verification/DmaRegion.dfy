/** The DMA regions: how many buffers they hold, and where in a region each cell lies. */
module DmaRegion {
  import opened Bytes
  import opened GhostRing
  import opened Wrappers

  const DMA_CPU_BUFS := 32768
  const MIN_DMA_CPU_BUFS := 1
  const METADATA_SIZE := 16
  const FLAG_SIZE := 4

  function RegionSize(n: nat): nat {
    (BUF_SIZE + METADATA_SIZE + FLAG_SIZE) * n
  }

  // ---- choosing the number of buffers

  /** Whether the allocator would grant a transmit and a receive region for `n` buffers. */
  datatype Allocator = Allocator(tx: nat -> bool, rx: nat -> bool)

  /** The counts tried, from the largest: `Pow2(15)` down to `Pow2(0)`. The largest one for which
      both allocations succeed, if any. */
  ghost predicate IsChosen(a: Allocator, n: nat) {
    exists e: nat | e <= 15 ::
      n == Pow2(e) && a.tx(n) && a.rx(n) && forall f: nat :: e < f <= 15 ==> !(a.tx(Pow2(f)) && a.rx(Pow2(f)))
  }

  ghost predicate NoneWorks(a: Allocator) {
    forall e: nat :: e <= 15 ==> !(a.tx(Pow2(e)) && a.rx(Pow2(e)))
  }

  /** The allocation loop of `probe`. `tx` and `rx` are the region pointers (a region is known by
      its size); a transmit region freed again leaves its pointer dangling. `live` are the regions
      allocated and not freed. */
  method AllocateRegions(a: Allocator) returns (n: nat, size: nat, ok: bool, ghost live: multiset<nat>)
    ensures ok ==> IsChosen(a, n) && size == RegionSize(n) == 2068 * n < 0x1_0000_0000
    ensures !ok ==> NoneWorks(a)
    ensures live == if ok then multiset{size, size} else multiset{}
  {
    var tx: Option<nat>, rx: Option<nat> := None, None;
    live, size, n := multiset{}, 0, DMA_CPU_BUFS;
    ghost var e: int := 15;
    assert n == Pow2(15) by {
      assert Pow2(5) == 32 && Pow2(10) == 1024;
    }
    while n >= MIN_DMA_CPU_BUFS
      invariant -1 <= e <= 15 && n == (if e >= 0 then Pow2(e) else 0) && n <= DMA_CPU_BUFS
      invariant live == multiset{} && (e < 15 ==> tx.None? || rx.None?)
      invariant forall f: nat :: e < f <= 15 ==> !(a.tx(Pow2(f)) && a.rx(Pow2(f)))
      decreases n
    {
      size := RegionSize(n);
      tx := if a.tx(n) then Some(size) else None;
      if tx.Some? {
        live := live + multiset{size};
        rx := if a.rx(n) then Some(size) else None;
        if rx.Some? {
          live := live + multiset{size};
          break;
        }
        live := live - multiset{size};
      }
      n := n / 2;
      e := e - 1;
    }
    ok := tx.Some? && rx.Some?;
  }

  lemma ChosenWorks(a: Allocator, n: nat)
    requires IsChosen(a, n)
    ensures !NoneWorks(a)
  {
  }

  /** The code `probe` returns. */
  ghost function ProbeResult(a: Allocator, setMask: int, setCoherent: int, later: int): int {
    if setMask != 0 then setMask else if setCoherent != 0 then setCoherent else if NoneWorks(a) then 0 else later
  }

  /** What `probe` reports. `setMask` and `setCoherent` are the results of the two mask calls before
      the allocation, `later` is what bringing up the device afterwards comes to. A failed
      allocation returns what the mask call left behind: zero. So zero means that the device is up
      or that no region could be had, and a caller cannot tell which. `live` are the regions
      still allocated. */
  method Probe(a: Allocator, setMask: int, setCoherent: int, later: int)
    returns (err: int, up: bool, n: nat, ghost live: multiset<nat>)
    ensures err == ProbeResult(a, setMask, setCoherent, later)
    ensures up <==> setMask == 0 && setCoherent == 0 && !NoneWorks(a) && later == 0
    ensures err == 0 <==> up || (setMask == 0 && setCoherent == 0 && NoneWorks(a))
    ensures up ==> IsChosen(a, n) && live == multiset{RegionSize(n), RegionSize(n)}
    ensures !up ==> live == multiset{}
  {
    hide IsChosen, NoneWorks;
    up, n, live := false, 0, multiset{};
    err := setMask;
    if err != 0 {
      return;
    }
    err := setCoherent;
    if err != 0 {
      return;
    }
    var size, ok;
    n, size, ok, live := AllocateRegions(a);
    if !ok {
      return;
    }
    ChosenWorks(a, n);
    err := later;
    if err != 0 {
      live := live - multiset{size, size};
      return;
    }
    up := true;
  }

  /** An allocator that always refuses. */
  function Refusing(): Allocator {
    Allocator(_ => false, _ => false)
  }

  /** With it every call of `probe` whose masks are accepted reports success, and no device is
      up. */
  lemma RefusedYetZero(later: int)
    ensures NoneWorks(Refusing()) && ProbeResult(Refusing(), 0, 0, later) == 0
  {
  }

  // ---- the layout of a region

  datatype Kind = Buffer | Metadata | Flag

  datatype Cell = Cell(kind: Kind, slot: nat)

  function Width(kind: Kind): nat {
    match kind case Buffer => BUF_SIZE case Metadata => METADATA_SIZE case Flag => FLAG_SIZE
  }

  /** Where the driver's pointers put a cell: buffers from the start of the region, metadata after
      the `n` buffers, flags after the `n` metadata records. */
  function CpuOffset(n: nat, c: Cell): nat {
    var metadata := n * BUF_SIZE;
    var flags := metadata + n * METADATA_SIZE;
    match c.kind
    case Buffer => c.slot * BUF_SIZE
    case Metadata => metadata + c.slot * METADATA_SIZE
    case Flag => flags + c.slot * FLAG_SIZE
  }

  /** The base and the pitch programmed into the data-plane registers, in 32-bit arithmetic on the
      region's physical address. */
  function Programmed(pa: nat, n: nat, kind: Kind): (nat, nat) {
    var base := match kind
      case Buffer => pa
      case Metadata => pa + n * BUF_SIZE
      case Flag => pa + (BUF_SIZE + METADATA_SIZE) * n;
    (base % 0x1_0000_0000, Width(kind))
  }

  function BaseOffset(n: nat, kind: Kind): nat {
    CpuOffset(n, Cell(kind, 0))
  }

  /** The device finds a cell where the driver puts it if and only if the cells of that kind begin
      below 4 GB; the code does not check that. */
  lemma DeviceAgrees(pa: nat, n: nat, c: Cell)
    ensures var (base, pitch) := Programmed(pa, n, c.kind);
      base + c.slot * pitch == pa + CpuOffset(n, c) <==> pa + BaseOffset(n, c.kind) < 0x1_0000_0000
  {
    var b := pa + BaseOffset(n, c.kind);
    assert (BUF_SIZE + METADATA_SIZE) * n == n * BUF_SIZE + n * METADATA_SIZE;
    assert b % 0x1_0000_0000 == b <==> b < 0x1_0000_0000;
  }

  /** The layout in numbers: buffers of 2048 bytes, then records of 16, then flags of 4. */
  lemma LayoutIs(n: nat, i: nat)
    ensures CpuOffset(n, Cell(Buffer, i)) == 2048 * i && Width(Buffer) == 2048
    ensures CpuOffset(n, Cell(Metadata, i)) == 2048 * n + 16 * i && Width(Metadata) == 16
    ensures CpuOffset(n, Cell(Flag, i)) == 2064 * n + 4 * i && Width(Flag) == 4
  {
  }

  ghost predicate Within(n: nat, c: Cell, o: nat) {
    CpuOffset(n, c) <= o < CpuOffset(n, c) + Width(c.kind)
  }

  /** The cell that covers a byte of the region. */
  function CellAt(n: nat, o: nat): Cell
    requires o < RegionSize(n)
  {
    if o < n * BUF_SIZE then Cell(Buffer, o / BUF_SIZE)
    else if o < n * BUF_SIZE + n * METADATA_SIZE then Cell(Metadata, (o - n * BUF_SIZE) / METADATA_SIZE)
    else Cell(Flag, (o - n * BUF_SIZE - n * METADATA_SIZE) / FLAG_SIZE)
  }

  lemma RowOf(o: nat, w: nat, n: nat, i: nat)
    requires w == BUF_SIZE || w == METADATA_SIZE || w == FLAG_SIZE
    ensures i * w <= o < i * w + w <==> i == o / w
    ensures o < n * w ==> o / w < n
    ensures i < n ==> i * w + w <= n * w
  {
  }

  /** The cells fill the region and do not overlap: each of its bytes belongs to exactly one, and
      no cell reaches beyond it. */
  lemma CellsPartition(n: nat, o: nat, c: Cell)
    requires c.slot < n
    ensures Within(n, c, o) ==> o < RegionSize(n)
    ensures o < RegionSize(n) ==> CellAt(n, o).slot < n && (Within(n, c, o) <==> c == CellAt(n, o))
  {
    var b, m := n * BUF_SIZE, n * METADATA_SIZE;
    assert RegionSize(n) == b + m + n * FLAG_SIZE;
    RowOf(o, BUF_SIZE, n, c.slot);
    if o >= b {
      RowOf(o - b, METADATA_SIZE, n, c.slot);
    }
    if o >= b + m {
      RowOf(o - b - m, FLAG_SIZE, n, c.slot);
    }
    RowOf(0, METADATA_SIZE, n, c.slot);
    RowOf(0, FLAG_SIZE, n, c.slot);
  }
}

/** The paged register window: a 12-bit page register and a 1 MB window onto the page it names
    give access to the whole 32-bit register space. */
module RegWindow {
  import opened Wrappers

  const WINDOW_SIZE := 0x10_0000
  const ADDR_SPAN := 0x1_0000_0000

  datatype Place = Place(page: nat, word: nat)

  /** `reg_addr / OCCP_WORKER_CONFIG_SIZE` and the index of the word in the window. */
  function PlaceOf(addr: nat): Place {
    Place(addr / WINDOW_SIZE, addr % WINDOW_SIZE / 4)
  }

  /** The address computation is a bijection between aligned addresses and places. */
  lemma NoAliases(a: nat, b: nat)
    requires a < ADDR_SPAN && b < ADDR_SPAN && a % 4 == 0 && b % 4 == 0
    ensures PlaceOf(a) == PlaceOf(b) <==> a == b
    ensures PlaceOf(a).page == a / 0x10_0000 < 4096 && PlaceOf(a).word < 0x4_0000
    ensures a == 0x10_0000 * PlaceOf(a).page + 4 * PlaceOf(a).word
  {
    AlignedOffset(a);
    AlignedOffset(b);
  }

  lemma AlignedOffset(a: nat)
    requires a % 4 == 0
    ensures a == WINDOW_SIZE * PlaceOf(a).page + 4 * PlaceOf(a).word
  {
    var q, r := a / WINDOW_SIZE, a % WINDOW_SIZE;
    assert a == 4 * (WINDOW_SIZE / 4 * q) + r;
    assert r % 4 == 0;
  }

  datatype Request = Read(addr: nat) | Write(addr: nat, val: nat)

  // ---- the reference: one flat memory

  /** A flat register space: an unaligned request is an error and changes nothing. */
  function FlatStep(flat: map<nat, nat>, r: Request): (map<nat, nat>, Option<nat>) {
    if r.addr % 4 != 0 then (flat, None)
    else match r
      case Read(a) => (flat, Some(if a in flat then flat[a] else 0))
      case Write(a, v) => (flat[a := v], Some(v))
  }

  function FlatRun(flat: map<nat, nat>, rs: seq<Request>): (map<nat, nat>, seq<Option<nat>>)
    decreases |rs|
  {
    if rs == [] then (flat, [])
    else
      var (flat1, answer) := FlatStep(flat, rs[0]);
      var (flat2, answers) := FlatRun(flat1, rs[1..]);
      (flat2, [answer] + answers)
  }

  // ---- the driver and the device

  /** The page register, and the registers behind it, zero unless written. */
  datatype Paged = Paged(page: nat, regs: map<Place, nat>)

  function Get(regs: map<Place, nat>, p: Place): nat {
    if p in regs then regs[p] else 0
  }

  /** One request through the window: set the page, then use the word in the window. */
  function PagedStep(h: Paged, r: Request): (Paged, Option<nat>) {
    var page, offset := r.addr / WINDOW_SIZE, r.addr % WINDOW_SIZE;
    if offset % 4 != 0 then (h, None)
    else match r
      case Read(_) => (Paged(page, h.regs), Some(Get(h.regs, Place(page, offset / 4))))
      case Write(_, v) => (Paged(page, h.regs[Place(page, offset / 4) := v]), Some(v))
  }

  function PagedRun(h: Paged, rs: seq<Request>): (Paged, seq<Option<nat>>)
    decreases |rs|
  {
    if rs == [] then (h, [])
    else
      var (h1, answer) := PagedStep(h, rs[0]);
      var (h2, answers) := PagedRun(h1, rs[1..]);
      (h2, [answer] + answers)
  }

  class Board {
    var page: nat
    var regs: map<Place, nat>
    ghost var flat: map<nat, nat>

    constructor ()
      ensures Valid() && page == 0 && flat == map[]
    {
      page, regs, flat := 0, map[], map[];
    }

    /** The registers stand for the flat memory `flat`. */
    ghost predicate Valid()
      reads this
    {
      Mirrors(regs, flat)
    }

    function Now(): Paged
      reads this
    {
      Paged(page, regs)
    }

    /** `genl_cmd_reg_rd`: the word at the address in flat memory, or an error. */
    method RegRd(addr: nat) returns (val: Option<nat>)
      requires Valid() && addr < ADDR_SPAN
      modifies this`page
      ensures Valid() && (Now(), val) == PagedStep(old(Now()), Read(addr))
      ensures val == if addr % 4 != 0 then None else Some(if addr in flat then flat[addr] else 0)
      ensures page == if addr % 4 != 0 then old(page) else addr / WINDOW_SIZE
    {
      StepRefinesFlat(Now(), flat, Read(addr));
      var addrPage, offset := addr / WINDOW_SIZE, addr % WINDOW_SIZE;
      if offset % 4 != 0 {
        return None;
      }
      page := addrPage;
      val := Some(Get(regs, Place(page, offset / 4)));
    }

    /** `genl_cmd_reg_wr`: flat memory changes at the address and nowhere else, or not at all. */
    method RegWr(addr: nat, v: nat) returns (val: Option<nat>)
      requires Valid() && addr < ADDR_SPAN
      modifies this`page, this`regs, this`flat
      ensures Valid() && (Now(), val) == PagedStep(old(Now()), Write(addr, v))
      ensures val.None? <==> addr % 4 != 0
      ensures flat == if addr % 4 != 0 then old(flat) else old(flat)[addr := v]
      ensures page == if addr % 4 != 0 then old(page) else addr / WINDOW_SIZE
      ensures val.None? ==> regs == old(regs)
    {
      StepRefinesFlat(Now(), flat, Write(addr, v));
      flat := FlatStep(flat, Write(addr, v)).0;
      var addrPage, offset := addr / WINDOW_SIZE, addr % WINDOW_SIZE;
      if offset % 4 != 0 {
        return None;
      }
      page := addrPage;
      regs := regs[Place(page, offset / 4) := v];
      val := Some(v);
    }
  }

  // ---- refinement

  /** The paged registers stand for the flat memory. */
  ghost predicate Mirrors(regs: map<Place, nat>, flat: map<nat, nat>) {
    forall a: nat :: a < ADDR_SPAN && a % 4 == 0 ==> Get(regs, PlaceOf(a)) == if a in flat then flat[a] else 0
  }

  lemma AlignedTogether(addr: nat)
    ensures addr % WINDOW_SIZE % 4 == addr % 4
  {
  }

  lemma WriteMirrors(regs: map<Place, nat>, flat: map<nat, nat>, addr: nat, v: nat)
    requires addr < ADDR_SPAN && addr % 4 == 0 && Mirrors(regs, flat)
    ensures Mirrors(regs[PlaceOf(addr) := v], flat[addr := v])
  {
    hide PlaceOf;
    forall a: nat | a < ADDR_SPAN && a % 4 == 0
      ensures PlaceOf(a) == PlaceOf(addr) <==> a == addr
    {
      NoAliases(a, addr);
    }
  }

  /** One request: the same answer, and the registers still stand for the flat memory. A refused
      request touches neither the page register nor any register. */
  lemma {:induction false} StepRefinesFlat(h: Paged, flat: map<nat, nat>, r: Request)
    requires Mirrors(h.regs, flat) && r.addr < ADDR_SPAN
    ensures var (h', answer) := PagedStep(h, r);
      && answer == FlatStep(flat, r).1 && Mirrors(h'.regs, FlatStep(flat, r).0)
      && (answer.None? <==> r.addr % 4 != 0) && (answer.None? ==> h' == h)
  {
    AlignedTogether(r.addr);
    if r.addr % 4 == 0 && r.Write? {
      WriteMirrors(h.regs, flat, r.addr, r.val);
    }
  }

  /** Over every sequence of reads and writes the window answers as the flat memory does. */
  lemma {:induction false} RunRefinesFlat(h: Paged, flat: map<nat, nat>, rs: seq<Request>)
    requires Mirrors(h.regs, flat) && forall r :: r in rs ==> r.addr < ADDR_SPAN
    ensures PagedRun(h, rs).1 == FlatRun(flat, rs).1 && Mirrors(PagedRun(h, rs).0.regs, FlatRun(flat, rs).0)
    decreases |rs|
  {
    if rs != [] {
      hide Mirrors, PagedStep, FlatStep;
      assert rs[0] in rs;
      StepRefinesFlat(h, flat, rs[0]);
      RunRefinesFlat(PagedStep(h, rs[0]).0, FlatStep(flat, rs[0]).0, rs[1..]);
    }
  }
}

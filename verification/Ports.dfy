/** Local port numbers: a bitmap of 1024 ports per process, and the sockets that hold them. */
module Ports {

  const PORTS := 1024
  const UINT_MAX := 0xFFFF_FFFF
  const PID_SPAN := 0x40_0000

  // ---- bits of a word

  predicate Bit(w: bv32, n: bv5) {
    (w >> n) & 1 == 1
  }

  function WithBit(w: bv32, n: bv5): bv32 {
    w | (1 << n)
  }

  function WithoutBit(w: bv32, n: bv5): bv32 {
    w & !(1 << n)
  }

  lemma SettingBit(w: bv32, n: bv5, m: bv5)
    ensures Bit(WithBit(w, n), m) == (m == n || Bit(w, m))
  {
  }

  lemma ClearingBit(w: bv32, n: bv5, m: bv5)
    ensures Bit(WithoutBit(w, n), m) == (m != n && Bit(w, m))
  {
  }

  lemma AllBits(n: bv5)
    ensures Bit(0xFFFF_FFFF, n)
  {
  }

  /** Port `k` is bit `k % 32` of word `k / 32`. */
  function BitNo(k: nat): bv5 {
    (k % 32) as bv5
  }

  lemma SameBit(a: nat, b: nat)
    ensures BitNo(a) == BitNo(b) <==> a % 32 == b % 32
  {
    hide BitNo;
    BitNoIs(a);
    BitNoIs(b);
  }

  lemma BitNoIs(a: nat)
    ensures BitNo(a) as int == a % 32
  {
  }

  predicate Taken(words: seq<bv32>, k: nat)
    requires |words| == 32 && k < PORTS
  {
    Bit(words[k / 32], BitNo(k))
  }

  lemma ChangingWord(words: seq<bv32>, k: nat, j: nat)
    requires |words| == 32 && k < PORTS && j < PORTS
    ensures var i, n := k / 32, BitNo(k);
      && (Taken(words[i := WithBit(words[i], n)], j) <==> j == k || Taken(words, j))
      && (Taken(words[i := WithoutBit(words[i], n)], j) <==> j != k && Taken(words, j))
  {
    hide Bit, WithBit, WithoutBit, BitNo;
    SettingBit(words[k / 32], BitNo(k), BitNo(j));
    ClearingBit(words[k / 32], BitNo(k), BitNo(j));
    SameBit(k, j);
  }

  /** The ports in use. */
  ghost function Used(words: seq<bv32>): set<nat>
    requires |words| == 32
  {
    set k | 0 <= k < PORTS && Taken(words, k)
  }

  lemma UsedChanges(words: seq<bv32>, k: nat)
    requires |words| == 32 && k < PORTS
    ensures Used(words[k / 32 := WithBit(words[k / 32], BitNo(k))]) == Used(words) + {k}
    ensures Used(words[k / 32 := WithoutBit(words[k / 32], BitNo(k))]) == Used(words) - {k}
  {
    hide WithBit, WithoutBit, BitNo, Taken;
    forall j: nat | j < PORTS
      ensures Taken(words[k / 32 := WithBit(words[k / 32], BitNo(k))], j) <==> j == k || Taken(words, j)
      ensures Taken(words[k / 32 := WithoutBit(words[k / 32], BitNo(k))], j) <==> j != k && Taken(words, j)
    {
      ChangingWord(words, k, j);
    }
  }

  ghost predicate LeastFree(used: set<nat>, k: nat) {
    k < PORTS && k !in used && forall j :: 0 <= j < k ==> j in used
  }

  ghost predicate AllUsed(used: set<nat>) {
    forall j :: 0 <= j < PORTS ==> j in used
  }

  /** The number made of a process id and a port index. */
  function Number(pid: nat, k: nat): (port: nat)
    requires k < PORTS
    ensures port <= UINT_MAX && Index(port) == k
    ensures port % 0x40_0000 == pid % 0x40_0000 && port / 0x40_0000 == k
    ensures port == UINT_MAX <==> k == PORTS - 1 && pid % PID_SPAN == PID_SPAN - 1
  {
    pid % PID_SPAN + k * PID_SPAN
  }

  function Index(port: nat): (k: nat)
    requires port <= UINT_MAX
    ensures k < PORTS
  {
    port / PID_SPAN
  }

  /** `used_ports_map`. */
  class PortMap {
    const words: array<bv32>

    constructor ()
      ensures Valid() && fresh(words) && InUse() == {}
    {
      words := new bv32[32](_ => 0);
    }

    ghost predicate Valid() {
      words.Length == 32
    }

    ghost function InUse(): set<nat>
      requires Valid()
      reads words
    {
      Used(words[..])
    }

    method Mark(k: nat)
      requires Valid() && k < PORTS
      modifies words
      ensures InUse() == old(InUse()) + {k}
    {
      hide Used, WithBit, BitNo;
      UsedChanges(words[..], k);
      ghost var was := words[..];
      words[k / 32] := WithBit(words[k / 32], BitNo(k));
      assert words[..] == was[k / 32 := WithBit(was[k / 32], BitNo(k))];
    }

    /** `generate_local_port`: the least free index, or nothing left. */
    method Generate(pid: nat) returns (port: nat, ghost k: nat)
      requires Valid()
      modifies words
      ensures k < PORTS && port <= UINT_MAX
      ensures AllUsed(old(InUse())) ==> port == UINT_MAX && InUse() == old(InUse())
      ensures !AllUsed(old(InUse())) ==>
        LeastFree(old(InUse()), k) && port == Number(pid, k) && InUse() == old(InUse()) + {k}
    {
      hide Bit, BitNo;
      k := 0;
      var i := 0;
      while i < 32
        invariant 0 <= i <= 32 && InUse() == old(InUse())
        invariant forall j :: 0 <= j < 32 * i ==> j in InUse()
      {
        if words[i] != 0xFFFF_FFFF {
          var n := 0;
          while n < 32
            invariant 0 <= n <= 32 && InUse() == old(InUse())
            invariant forall j :: 0 <= j < 32 * i + n ==> j in InUse()
          {
            Locate(i, n);
            if !Bit(words[i], BitNo(n)) {
              var nr := 32 * i + n;
              assert !Taken(words[..], nr);
              Mark(nr);
              return Number(pid, nr), nr;
            }
            assert Taken(words[..], 32 * i + n);
            n := n + 1;
          }
        } else {
          FullWord(words[..], i);
        }
        i := i + 1;
      }
      port := UINT_MAX;
    }

    /** `release_local_port`: exactly the port's own bit is cleared. */
    method Release(port: nat)
      requires Valid() && port <= UINT_MAX
      modifies words
      ensures InUse() == if port == UINT_MAX then old(InUse()) else old(InUse()) - {Index(port)}
    {
      hide Used, WithoutBit, BitNo, Index;
      if port == UINT_MAX {
        return;
      }
      var nr := Index(port);
      UsedChanges(words[..], nr);
      ghost var was := words[..];
      words[nr / 32] := WithoutBit(words[nr / 32], BitNo(nr));
      assert words[..] == was[nr / 32 := WithoutBit(was[nr / 32], BitNo(nr))];
    }
  }

  lemma Locate(i: nat, n: nat)
    requires i < 32 && n < 32
    ensures (32 * i + n) / 32 == i && BitNo(32 * i + n) == BitNo(n) && 32 * i + n < PORTS
  {
  }

  lemma FullWord(words: seq<bv32>, i: nat)
    requires |words| == 32 && i < 32 && words[i] == 0xFFFF_FFFF
    ensures forall j :: 32 * i <= j < 32 * i + 32 ==> j in Used(words)
  {
    forall j | 32 * i <= j < 32 * i + 32
      ensures j in Used(words)
    {
      AllBits(BitNo(j));
      Locate(i, j - 32 * i);
    }
  }
}

/** Sockets and the local ports the library assigns to them, over every sequence of allocating,
    freeing and renumbering. */
module Sockets {
  import opened Ports

  /** The numbering part of an `nl_sock`. `own` is `NL_OWN_PORT`. */
  class PortSocket {
    var port: nat
    var own: bool

    constructor (port: nat)
      ensures this.port == port && !own
    {
      this.port, own := port, false;
    }

    /** The socket has a port that the library assigned. */
    predicate Holds()
      reads this
    {
      !own && port != UINT_MAX && port <= UINT_MAX
    }

    ghost function Holding(): set<nat>
      reads this
    {
      if Holds() then {Index(port)} else {}
    }
  }

  /** What becomes of the index taken by `generate_local_port`: if the number comes out as the one
      that means failure, the bit stays set and nobody has it. */
  ghost function Unusable(used: set<nat>, pid: nat, k: nat): set<nat>
    requires k < PORTS
  {
    if !AllUsed(used) && Number(pid, k) == UINT_MAX then {k} else {}
  }

  class Registry {
    const ports: PortMap
    ghost var sockets: set<PortSocket>
    ghost var leaked: set<nat>

    constructor ()
      ensures Valid() && sockets == {} && leaked == {} && fresh(ports.words)
    {
      ports := new PortMap();
      sockets, leaked := {}, {};
    }

    ghost function Held(): set<nat>
      reads this, sockets
    {
      set s | s in sockets && s.Holds() :: Index(s.port)
    }

    ghost predicate Distinct()
      reads this, sockets
    {
      && (forall s, t :: s in sockets && t in sockets && s != t && s.Holds() && t.Holds() ==>
            Index(s.port) != Index(t.port))
      && (forall s :: s in sockets ==> s.port <= UINT_MAX)
    }

    /** Assigned ports are pairwise different, and the bits set are exactly theirs and those that
        were lost. */
    ghost predicate Valid()
      reads this, sockets, ports.words
    {
      && ports.Valid() && Distinct()
      && ports.InUse() == Held() + leaked && Held() !! leaked
    }

    /** A new socket with a number just generated. */
    method Adopt(port: nat, ghost k: nat) returns (s: PortSocket)
      requires ports.Valid() && port < UINT_MAX && Index(port) == k && Distinct()
      requires ports.InUse() == Held() + leaked + {k} && Held() !! leaked && k !in Held() + leaked
      modifies this`sockets
      ensures Valid() && fresh(s) && sockets == old(sockets) + {s} && s.Holds() && s.port == port
    {
      hide Ports.Used, Index;
      s := new PortSocket(port);
      sockets := sockets + {s};
      assert Held() == old(Held()) + {k} by {
        assert s.Holds() && Index(s.port) == k;
        assert forall t :: t in old(sockets) ==> t.Holds() == old(t.Holds()) && t.port == old(t.port);
      }
    }

    /** `__alloc_socket`. It fails exactly when there is no memory, nothing is free, or the number
        made from the process id and the least free index is the one that stands for failure. */
    method Alloc(pid: nat, memory: bool) returns (s: PortSocket?, ghost k: nat)
      requires Valid()
      modifies this, ports.words
      ensures Valid() && k < PORTS
      ensures s == null <==> !memory || AllUsed(old(ports.InUse())) || Unusable(old(ports.InUse()), pid, k) != {}
      ensures !memory ==> ports.InUse() == old(ports.InUse()) && leaked == old(leaked)
      ensures memory ==> AllUsed(old(ports.InUse())) || LeastFree(old(ports.InUse()), k)
      ensures memory ==> leaked == old(leaked) + Unusable(old(ports.InUse()), pid, k)
      ensures s == null ==> sockets == old(sockets)
      ensures s != null ==> fresh(s) && sockets == old(sockets) + {s} && s.Holds() && s.port == Number(pid, k)
    {
      hide Ports.Used, Number, Index;
      if !memory {
        return null, 0;
      }
      var port;
      port, k := ports.Generate(pid);
      if port == UINT_MAX {
        ports.Release(port);
        leaked := leaked + Unusable(old(ports.InUse()), pid, k);
        return null, k;
      }
      s := Adopt(port, k);
    }

    /** `nl_socket_free`: a port the library assigned becomes free again, and no other. */
    method Free(s: PortSocket)
      requires Valid() && s in sockets
      modifies this, ports.words
      ensures Valid() && sockets == old(sockets) - {s} && leaked == old(leaked)
      ensures ports.InUse() == old(ports.InUse()) - s.Holding()
    {
      hide Ports.Used;
      if !s.own {
        ports.Release(s.port);
      }
      sockets := sockets - {s};
    }

    /** A number of the caller's own: an assigned port is released. */
    method SetOwn(s: PortSocket, port: nat)
      requires Valid() && s in sockets && port <= UINT_MAX
      modifies s, ports.words
      ensures Valid() && s.port == port && s.own && ports.InUse() == old(ports.InUse() - s.Holding())
    {
      hide Ports.Used, Index;
      if !s.own {
        ports.Release(s.port);
      }
      s.own, s.port := true, port;
      assert Held() == old(Held() - s.Holding());
    }

    /** An automatic number: the bit of a port assigned before stays set for good. */
    method SetAutomatic(s: PortSocket, pid: nat) returns (ghost k: nat)
      requires Valid() && s in sockets
      modifies this`leaked, s, ports.words
      ensures Valid() && k < PORTS && !s.own
      ensures s.port == if AllUsed(old(ports.InUse())) then UINT_MAX else Number(pid, k)
      ensures AllUsed(old(ports.InUse())) || LeastFree(old(ports.InUse()), k)
      ensures leaked == old(leaked + s.Holding()) + Unusable(old(ports.InUse()), pid, k)
    {
      hide Ports.Used, Index, Number;
      var port;
      port, k := ports.Generate(pid);
      leaked := leaked + s.Holding() + Unusable(old(ports.InUse()), pid, k);
      s.own, s.port := false, port;
      assert Held() == old(Held() - s.Holding()) + s.Holding();
    }

    /** `nl_socket_set_local_port`. */
    method SetLocalPort(s: PortSocket, port: nat, pid: nat) returns (ghost k: nat)
      requires Valid() && s in sockets && port <= UINT_MAX
      modifies this`leaked, s, ports.words
      ensures Valid() && k < PORTS && s.own == (port != 0)
      ensures port != 0 ==> (
        s.port == port && leaked == old(leaked) && ports.InUse() == old(ports.InUse() - s.Holding()))
      ensures port == 0 ==> (
        && s.port == (if AllUsed(old(ports.InUse())) then UINT_MAX else Number(pid, k))
        && (AllUsed(old(ports.InUse())) || LeastFree(old(ports.InUse()), k))
        && leaked == old(leaked + s.Holding()) + Unusable(old(ports.InUse()), pid, k))
    {
      hide Registry.Valid, Ports.Used;
      k := 0;
      if port == 0 {
        k := SetAutomatic(s, pid);
      } else {
        SetOwn(s, port);
      }
    }
  }
}

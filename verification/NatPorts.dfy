// The cyclic order in which NAT ports are tried, and why a free one is always found.
module NatPorts {
  import opened Collections
  import opened Packet

  const FIRST_NAT_PORT: uint16 := 1024
  const INITIAL_NAT_PORT: uint16 := 49152
  const NAT_PORTS: nat := 65536 - 1024
  const MAX_ATTEMPTS: nat := 65535

  /** Identifies a flow on the loopback side: the redirect's listener and the NAT port. */
  datatype ResponseKey = ResponseKey(localPort: uint16, natPort: uint16)

  /** The 16-bit increment, with the wrap to 0 replaced by the first NAT port. */
  function NextPort(p: uint16): uint16 {
    var q := (p + 1) % 0x1_0000;
    if q == 0 then FIRST_NAT_PORT else q
  }

  /** The port reached from start after n increments. */
  function PortAfter(start: uint16, n: nat): uint16
    requires start >= FIRST_NAT_PORT
  {
    FIRST_NAT_PORT + (start - FIRST_NAT_PORT + n) % NAT_PORTS
  }

  predicate Free(taken: set<ResponseKey>, localPort: uint16, p: uint16) {
    p != 0 && p != localPort && ResponseKey(localPort, p) !in taken
  }

  lemma PortAfterStep(start: uint16, n: nat)
    requires start >= FIRST_NAT_PORT
    ensures PortAfter(start, 0) == start
    ensures NextPort(PortAfter(start, n)) == PortAfter(start, n + 1)
  {
    var d := start - FIRST_NAT_PORT + n;
    if d % NAT_PORTS == NAT_PORTS - 1 {
      assert (d + 1) % NAT_PORTS == 0;
    } else {
      assert (d + 1) % NAT_PORTS == d % NAT_PORTS + 1;
    }
  }

  /** NAT_PORTS consecutive attempts visit every port of the range. */
  lemma EveryPortVisited(start: uint16, p: uint16) returns (n: nat)
    requires start >= FIRST_NAT_PORT && p >= FIRST_NAT_PORT
    ensures n < NAT_PORTS && PortAfter(start, n) == p
  {
    n := if p >= start then p - start else p - start + NAT_PORTS;
  }

  /** The taken keys of one listener whose port lies in lo..hi. */
  ghost function TakenIn(taken: set<ResponseKey>, localPort: uint16, lo: uint16, hi: nat): set<ResponseKey> {
    set k | k in taken && k.localPort == localPort && lo <= k.natPort < hi
  }

  lemma {:induction false} NoFreePortMeansManyTaken(taken: set<ResponseKey>, localPort: uint16, hi: nat)
    requires FIRST_NAT_PORT <= hi <= 0x1_0000
    requires forall p: uint16 | FIRST_NAT_PORT <= p < hi :: !Free(taken, localPort, p)
    ensures |TakenIn(taken, localPort, FIRST_NAT_PORT, hi)|
         >= hi - FIRST_NAT_PORT - (if FIRST_NAT_PORT <= localPort < hi then 1 else 0)
  {
    if hi > FIRST_NAT_PORT {
      NoFreePortMeansManyTaken(taken, localPort, hi - 1);
      var below := TakenIn(taken, localPort, FIRST_NAT_PORT, hi - 1);
      var last: uint16 := hi - 1;
      assert !Free(taken, localPort, last);
      if last == localPort {
        assert TakenIn(taken, localPort, FIRST_NAT_PORT, hi) >= below;
        SubsetSize(below, TakenIn(taken, localPort, FIRST_NAT_PORT, hi));
      } else {
        assert TakenIn(taken, localPort, FIRST_NAT_PORT, hi) == below + {ResponseKey(localPort, last)};
      }
    }
  }

  /** Pigeonhole: with fewer keys taken than ports in the range, some port is free. */
  lemma SomePortFree(taken: set<ResponseKey>, localPort: uint16)
    requires |taken| < NAT_PORTS - 1
    ensures exists p: uint16 :: FIRST_NAT_PORT <= p && Free(taken, localPort, p)
  {
    if forall p: uint16 | FIRST_NAT_PORT <= p :: !Free(taken, localPort, p) {
      NoFreePortMeansManyTaken(taken, localPort, 0x1_0000);
      SubsetSize(TakenIn(taken, localPort, FIRST_NAT_PORT, 0x1_0000), taken);
      assert false;
    }
  }
}

/** The loop by which an admin claims a port of its own. */
module PortSearch {

  const BROADCAST_PORT: nat := 23456
  const PORTS: nat := 0x1_0000

  /** The try that wraps to port 0. */
  const MOST_TRIES: nat := PORTS - BROADCAST_PORT

  /** `htons` keeps 16 bits, so after port 65535 comes port 0. */
  function Candidate(k: nat): (p: nat)
    ensures p < PORTS
  {
    (BROADCAST_PORT + k) % PORTS
  }

  predicate FreeAbove(taken: set<nat>, p: nat) {
    BROADCAST_PORT < p < PORTS && p !in taken
  }

  predicate LeastFree(taken: set<nat>, p: nat) {
    FreeAbove(taken, p) && forall q: nat :: BROADCAST_PORT < q < p ==> q in taken
  }

  /** Tries one port after the other until a bind succeeds. Binding port 0 means "any port";
      the kernel then picks `anyPort`, while the address the admin goes on to publish keeps
      the 0. If some port above 23456 is free the loop claims the least one, within 42079
      tries; if none is, it publishes port 0 on try 42080. */
  method ClaimPort(taken: set<nat>, anyPort: nat) returns (published: nat, held: nat, tries: nat)
    requires 0 < anyPort < PORTS && anyPort !in taken
    ensures (exists p: nat :: FreeAbove(taken, p)) ==>
              LeastFree(taken, published) && held == published && tries == published - BROADCAST_PORT <= 42079
    ensures !(exists p: nat :: FreeAbove(taken, p)) ==> published == 0 && held == anyPort && tries == 42080
    ensures held !in taken && 0 < held < PORTS
  {
    var bound := false;
    tries, published, held := 0, BROADCAST_PORT, 0;
    while !bound
      invariant bound ==> held == (if published == 0 then anyPort else published) && published == Candidate(tries)
      invariant bound ==> held !in taken && 0 < tries <= 42080
      invariant !bound ==> tries <= 42079
      invariant forall k: nat :: 0 < k < tries || (k == tries > 0 && !bound) ==> Candidate(k) in taken
      decreases if bound then 0 else 42081 - tries
    {
      tries := tries + 1;
      published := Candidate(tries);
      if published == 0 {
        bound, held := true, anyPort;
      } else if published !in taken {
        bound, held := true, published;
      }
    }
    assert published != 0 ==> FreeAbove(taken, published);
    forall q: nat | BROADCAST_PORT < q < BROADCAST_PORT + tries && q < PORTS
      ensures q in taken
    {
      assert Candidate(q - BROADCAST_PORT) == q;
    }
  }
}

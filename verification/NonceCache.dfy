/**
 The Node server's nonce cache: a map from nonce to the time of first use, and a timer that forgets old entries. Times
 are milliseconds.
 */
module NonceCache {

  type Nonces = map<string, int>

  datatype Event = Use(nonce: string, now: int) | Clean(now: int)

  function Cleaned(m: Nonces, now: int, maxAge: int): Nonces {
    map n | n in m && !(m[n] < now - maxAge) :: m[n]
  }

  function Step(m: Nonces, e: Event, maxAge: int): Nonces {
    match e
    case Use(n, now) => if n in m then m else m[n := now]
    case Clean(now) => Cleaned(m, now, maxAge)
  }

  ghost function State(h: seq<Event>, maxAge: int): Nonces {
    if h == [] then map[] else Step(State(h[..|h| - 1], maxAge), h[|h| - 1], maxAge)
  }

  /** Event i is the first use of its nonce as far as the cache knows. */
  ghost predicate Fresh(h: seq<Event>, i: nat, maxAge: int)
    requires i < |h|
  {
    h[i].Use? && h[i].nonce !in State(h[..i], maxAge)
  }

  /** The timer between i and j never runs late enough to forget a use at event i. */
  ghost predicate NotForgotten(h: seq<Event>, i: nat, j: nat, maxAge: int)
    requires i < |h| && j <= |h|
  {
    forall m | i < m < j && h[m].Clean? :: h[m].now - maxAge <= h[i].now
  }

  lemma {:induction false} StaysKnown(h: seq<Event>, i: nat, j: nat, maxAge: int)
    requires i < j <= |h| && Fresh(h, i, maxAge) && NotForgotten(h, i, j, maxAge)
    ensures h[i].nonce in State(h[..j], maxAge) && State(h[..j], maxAge)[h[i].nonce] == h[i].now
  {
    assert h[..j][..j - 1] == h[..j - 1];
    if j - 1 != i {
      StaysKnown(h, i, j - 1, maxAge);
    }
  }

  /** A nonce is fresh once, until the timer runs more than maxAge after that use. */
  lemma FreshOnce(h: seq<Event>, i: nat, j: nat, maxAge: int)
    requires i < j < |h| && Fresh(h, i, maxAge) && NotForgotten(h, i, j, maxAge)
    requires h[j].Use? && h[j].nonce == h[i].nonce
    ensures !Fresh(h, j, maxAge)
  {
    StaysKnown(h, i, j, maxAge);
  }

  class Cache {
    var nonces: Nonces
    const maxAge: int

    constructor (maxAge: int)
      ensures nonces == map[] && this.maxAge == maxAge
    {
      nonces := map[];
      this.maxAge := maxAge;
    }

    method HasBeenUsed(nonce: string, now: int) returns (used: bool)
      modifies this
      ensures nonces == Step(old(nonces), Use(nonce, now), maxAge)
      ensures used <==> nonce in old(nonces)
    {
      if nonce in nonces {
        return true;
      }
      nonces := nonces[nonce := now];
      return false;
    }

    method Cleanup(now: int)
      modifies this
      ensures nonces == Step(old(nonces), Clean(now), maxAge)
    {
      var cutoff := now - maxAge;
      nonces := map n | n in nonces && !(nonces[n] < cutoff) :: nonces[n];
    }
  }
}

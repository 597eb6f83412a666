/**
 * Object URLs as the browser hands them out: `URL.createObjectURL` mints a
 * fresh token that stays live until `URL.revokeObjectURL`; a public (remote)
 * URL is plain text that revoking leaves alone.
 */
module ObjectUrls {

  datatype Url = PublicUrl(text: string) | ObjectUrl(token: nat)

  /** The tokens from `lo` up to, not including, `hi`. */
  function Range(lo: nat, hi: nat): (r: set<nat>)
    ensures forall t :: t in r <==> lo <= t < hi
    decreases hi - lo
  {
    if lo >= hi then {} else {lo} + Range(lo + 1, hi)
  }

  /** Two adjacent ranges make one. */
  lemma RangeSplit(lo: nat, mid: nat, hi: nat)
    requires lo <= mid <= hi
    ensures Range(lo, mid) + Range(mid, hi) == Range(lo, hi)
  {
  }

  /** The browser's table of live object URLs. */
  class Registry {
    /** The tokens not yet revoked. */
    var live: set<nat>
    /** How many object URLs have been minted; every token is below it. */
    var minted: nat

    ghost predicate Valid()
      reads this
    {
      forall t :: t in live ==> t < minted
    }

    constructor()
      ensures live == {} && minted == 0 && Valid()
    {
      live := {};
      minted := 0;
    }

    /** `URL.createObjectURL(blob)`: a token never handed out before, now live. */
    method Create() returns (u: Url)
      requires Valid()
      modifies this
      ensures u == ObjectUrl(old(minted)) && old(minted) !in old(live)
      ensures live == old(live) + {old(minted)} && minted == old(minted) + 1
      ensures Valid()
    {
      u := ObjectUrl(minted);
      live := live + {minted};
      minted := minted + 1;
    }

    /** `URL.revokeObjectURL(url)`: the token is no longer live; a public URL changes nothing. */
    method Revoke(u: Url)
      requires Valid()
      modifies this
      ensures live == (if u.ObjectUrl? then old(live) - {u.token} else old(live))
      ensures minted == old(minted) && Valid()
    {
      if u.ObjectUrl? {
        live := live - {u.token};
      }
    }
  }
}

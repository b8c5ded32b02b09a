/**
 * The update index of the SWIM rewrite (lib/swim-next/disseminator.js).
 *
 * Pending updates are filed in buckets by the number of dissemination
 * attempts made so far, with a reverse map from address to attempts. An
 * address has at most one pending update; re-announcing it restarts its
 * attempts at zero; updates whose attempts reach the dissemination limit are
 * purged. The limit formula is a parameter: the index only sees its result.
 */
module SwimDisseminator {
  import opened SwimMember

  /** The limit before the first rescaling. */
  const DefaultLimit: int := 3
  /** The factor handed to the limit formula. */
  const DefaultFactor: int := 15

  /** A pending update: the member record to spread and the attempts spent on it. */
  datatype Pending = Pending(attempts: nat, member: Member)

  datatype Disseminator = Disseminator(
    limit: int,
    buckets: map<nat, map<Address, Pending>>,  // attemptsToUpdates
    attempts: map<Address, nat>)               // addressToAttempts

  /**
   * The two maps agree: an address is filed under k in the reverse map
   * exactly when it sits in bucket k, and every filed update records its own
   * address and attempts.
   */
  ghost predicate Consistent(d: Disseminator)
  {
    && (forall a :: a in d.attempts ==> d.attempts[a] in d.buckets && a in d.buckets[d.attempts[a]])
    && (forall k, a :: k in d.buckets && a in d.buckets[k] ==> a in d.attempts && d.attempts[a] == k)
    && (forall k, a :: k in d.buckets && a in d.buckets[k] ==>
          d.buckets[k][a].attempts == k && d.buckets[k][a].member.address == a)
  }

  /** A new index: nothing pending, limit 3. */
  function Init(): (d: Disseminator)
    ensures d.limit == 3 && d.attempts == map[] && Consistent(d)
  {
    Disseminator(DefaultLimit, map[], map[])
  }

  /** Whether an address has a pending update filed in some bucket. */
  ghost predicate Filed(d: Disseminator, a: Address)
  {
    exists k :: k in d.buckets && a in d.buckets[k]
  }

  /**
   * addUpdate: file an update in the bucket of its attempts, creating the
   * bucket if needed; an update already at the limit is not filed.
   */
  function AddUpdate(d: Disseminator, u: Pending): (r: Disseminator)
    ensures u.attempts >= d.limit ==> r == d
    ensures u.attempts < d.limit ==>
      && u.attempts in r.buckets && u.member.address in r.buckets[u.attempts]
      && r.buckets[u.attempts][u.member.address] == u
      && r.buckets[u.attempts] == (if u.attempts in d.buckets then d.buckets[u.attempts] else map[])[u.member.address := u]
      && r.attempts == d.attempts[u.member.address := u.attempts]
      && (forall k :: k in d.buckets && k != u.attempts ==> k in r.buckets && r.buckets[k] == d.buckets[k])
      && r.limit == d.limit
    ensures Consistent(d) && u.member.address !in d.attempts ==> Consistent(r)
  {
    if u.attempts >= d.limit then d
    else
      var bucket := if u.attempts in d.buckets then d.buckets[u.attempts] else map[];
      d.(buckets := d.buckets[u.attempts := bucket[u.member.address := u]],
         attempts := d.attempts[u.member.address := u.attempts])
  }

  /**
   * removeUpdate: take the address out of its bucket and out of the reverse
   * map. (Were the bucket missing, the source would throw; the invariant
   * rules that out.)
   */
  function RemoveUpdate(d: Disseminator, a: Address): (r: Disseminator)
    ensures a !in r.attempts
    ensures r.attempts == d.attempts - {a}
    ensures r.limit == d.limit && r.buckets.Keys == d.buckets.Keys
    ensures forall k :: k in r.buckets ==> r.buckets[k] == d.buckets[k] - {a} || r.buckets[k] == d.buckets[k]
    ensures Consistent(d) ==> Consistent(r) && !Filed(r, a)
  {
    if a in d.attempts && d.attempts[a] in d.buckets then
      var k := d.attempts[a];
      d.(buckets := d.buckets[k := d.buckets[k] - {a}], attempts := d.attempts - {a})
    else
      d.(attempts := d.attempts - {a})
  }

  /**
   * onUpdate: re-announce a member, dropping whatever was pending for its
   * address and filing it afresh with zero attempts.
   */
  function OnUpdate(d: Disseminator, m: Member): (r: Disseminator)
    ensures Consistent(d) ==> Consistent(r)
    ensures d.limit > 0 ==>
      && r.attempts == d.attempts[m.address := 0]
      && 0 in r.buckets && m.address in r.buckets[0] && r.buckets[0][m.address] == Pending(0, m)
    ensures d.limit <= 0 ==> r.attempts == d.attempts - {m.address}
    ensures forall k, a :: k in d.buckets && a in d.buckets[k] && a != m.address ==>
              k in r.buckets && a in r.buckets[k] && r.buckets[k][a] == d.buckets[k][a]
  {
    AddUpdate(RemoveUpdate(d, m.address), Pending(0, m))
  }

  /**
   * updateDisseminationLimit: adopt the new limit and purge every bucket at
   * or above it, forgetting the addresses filed there.
   */
  function UpdateLimit(d: Disseminator, limit: int): (r: Disseminator)
    ensures r.limit == limit
    ensures forall k :: k in r.buckets ==> k < limit
    ensures forall k :: k in d.buckets && k < limit ==> k in r.buckets && r.buckets[k] == d.buckets[k]
    ensures forall a :: a in r.attempts ==> a in d.attempts && r.attempts[a] == d.attempts[a]
  {
    var purged := set k, a | k in d.buckets && k >= limit && a in d.buckets[k] :: a;
    d.(limit := limit,
       buckets := map k | k in d.buckets && k < limit :: d.buckets[k],
       attempts := map a | a in d.attempts && a !in purged :: d.attempts[a])
  }

  /**
   * Purging keeps the two maps in agreement, and an address survives exactly
   * when its attempts are below the new limit.
   */
  lemma UpdateLimitKeepsConsistent(d: Disseminator, limit: int)
    requires Consistent(d)
    ensures Consistent(UpdateLimit(d, limit))
    ensures forall a :: a in d.attempts ==> (a in UpdateLimit(d, limit).attempts <==> d.attempts[a] < limit)
  {
    var r := UpdateLimit(d, limit);
    forall k, a | k in r.buckets && a in r.buckets[k]
      ensures a in r.attempts && r.attempts[a] == k
    {
      assert a in d.attempts && d.attempts[a] == k;
    }
    forall a | a in d.attempts
      ensures a in r.attempts <==> d.attempts[a] < limit
    {
      if d.attempts[a] >= limit {
        assert d.attempts[a] in d.buckets && a in d.buckets[d.attempts[a]];
      }
    }
  }
}

/** One ring of players (class Registry of orchestrator/orchestrator.py): a dictionary whose
    insertion order is the ring order. */
module RingRegistry {
  import opened Bytes

  type Id = nat

  ghost predicate Distinct(ids: seq<Id>) {
    forall i, j :: 0 <= i < j < |ids| ==> ids[i] != ids[j]
  }

  function IndexOf(ids: seq<Id>, p: Id): (i: nat)
    requires p in ids
    ensures i < |ids| && ids[i] == p && p !in ids[..i]
  {
    if ids[0] == p then 0 else 1 + IndexOf(ids[1..], p)
  }

  /** A dictionary assignment: a new key goes to the end, a known one keeps its place. */
  function Joined(ids: seq<Id>, p: Id): seq<Id> {
    if p in ids then ids else ids + [p]
  }

  function Without(ids: seq<Id>, p: Id): seq<Id> {
    if p in ids then ids[..IndexOf(ids, p)] + ids[IndexOf(ids, p) + 1..] else ids
  }

  /** The player after p in the ring, or None when p is gone. A ring of one echoes to itself. */
  function Succ(ids: seq<Id>, p: Id): Option<Id> {
    if p !in ids then None
    else if IndexOf(ids, p) + 1 < |ids| then Some(ids[IndexOf(ids, p) + 1])
    else Some(ids[0])
  }

  class Registry {
    const rid: nat  // the object's identity
    var ids: seq<Id>

    ghost predicate Valid()
      reads this
    {
      Distinct(ids)
    }

    constructor (rid: nat)
      ensures Valid() && ids == [] && this.rid == rid
    {
      this.rid, ids := rid, [];
    }

    method Add(p: Id)
      requires Valid()
      modifies this
      ensures Valid() && ids == Joined(old(ids), p)
    {
      if p !in ids {
        ids := ids + [p];
      }
    }

    method Remove(p: Id)
      requires Valid()
      modifies this
      ensures Valid() && ids == Without(old(ids), p)
    {
      if p in ids {
        var i := IndexOf(ids, p);
        ids := ids[..i] + ids[i + 1..];
      }
    }

    method NextPlayer(p: Id) returns (q: Option<Id>)
      requires Valid()
      ensures q == Succ(ids, p)
    {
      if p !in ids {
        return None;
      }
      if |ids| == 1 {
        return Some(p);
      }
      AroundTheEnd(IndexOf(ids, p), |ids|);
      return Some(ids[(IndexOf(ids, p) + 1) % |ids|]);
    }
  }

  lemma AroundTheEnd(i: nat, n: nat)
    requires i < n
    ensures (i + 1) % n == if i + 1 < n then i + 1 else 0
  {
  }

  // ---------------------------------------------------------------- topology

  lemma IndexUnique(ids: seq<Id>, i: nat)
    requires Distinct(ids) && i < |ids|
    ensures IndexOf(ids, ids[i]) == i
  {
    var k := IndexOf(ids, ids[i]);
    assert ids[k] == ids[i];
  }

  /** k relays from p. */
  function Walk(ids: seq<Id>, p: Id, k: nat): Id
    requires p in ids
    ensures Walk(ids, p, k) in ids
  {
    if k == 0 then p else Succ(ids, Walk(ids, p, k - 1)).value
  }

  function Wrap(i: nat, n: nat): nat
    requires n > 0 && i < 2 * n
  {
    if i < n then i else i - n
  }

  lemma {:induction false} WalkAt(ids: seq<Id>, i: nat, k: nat)
    requires Distinct(ids) && i < |ids| && k <= |ids|
    ensures Walk(ids, ids[i], k) == ids[Wrap(i + k, |ids|)]
  {
    if k > 0 {
      WalkAt(ids, i, k - 1);
      IndexUnique(ids, Wrap(i + k - 1, |ids|));
    }
  }

  /** The number of relays from p to q. */
  function Distance(ids: seq<Id>, p: Id, q: Id): (k: nat)
    requires p in ids && q in ids
    ensures k < |ids|
  {
    var i, j := IndexOf(ids, p), IndexOf(ids, q);
    if j >= i then j - i else j + |ids| - i
  }

  lemma DistanceWalks(ids: seq<Id>, p: Id, q: Id)
    requires Distinct(ids) && p in ids && q in ids
    ensures Walk(ids, p, Distance(ids, p, q)) == q
  {
    var i, j, k := IndexOf(ids, p), IndexOf(ids, q), Distance(ids, p, q);
    WalkAt(ids, i, k);
    assert Wrap(i + k, |ids|) == j;
  }

  lemma WalkDistance(ids: seq<Id>, p: Id, k: nat)
    requires Distinct(ids) && p in ids && k < |ids|
    ensures Distance(ids, p, Walk(ids, p, k)) == k
  {
    var i := IndexOf(ids, p);
    WalkAt(ids, i, k);
    IndexUnique(ids, Wrap(i + k, |ids|));
  }

  /** q is met after k relays from p and after no other number below the length. */
  ghost predicate MetOnce(ids: seq<Id>, p: Id, q: Id)
    requires p in ids && q in ids
  {
    forall k :: 0 <= k < |ids| ==> (Walk(ids, p, k) == q <==> k == Distance(ids, p, q))
  }

  /** From any player, |ids| relays visit every player exactly once and come back. */
  ghost predicate OneCycle(ids: seq<Id>) {
    && (forall p :: p in ids ==> Walk(ids, p, |ids|) == p)
    && (forall p, q :: p in ids && q in ids ==> MetOnce(ids, p, q))
  }

  lemma RingIsOneCycle(ids: seq<Id>)
    requires Distinct(ids)
    ensures OneCycle(ids)
  {
    forall p | p in ids
      ensures Walk(ids, p, |ids|) == p
    {
      WalkAt(ids, IndexOf(ids, p), |ids|);
    }
    forall p, q | p in ids && q in ids
      ensures MetOnce(ids, p, q)
    {
      DistanceWalks(ids, p, q);
      forall k | 0 <= k < |ids|
        ensures Walk(ids, p, k) == q <==> k == Distance(ids, p, q)
      {
        WalkDistance(ids, p, k);
      }
    }
  }

  /** next_player is a bijection on the ring. */
  lemma SuccBijective(ids: seq<Id>)
    requires Distinct(ids)
    ensures forall p, q :: p in ids && q in ids && Succ(ids, p) == Succ(ids, q) ==> p == q
    ensures forall q :: q in ids ==> exists p :: p in ids && Succ(ids, p) == Some(q)
  {
    forall p, q | p in ids && q in ids && Succ(ids, p) == Succ(ids, q)
      ensures p == q
    {
      SuccInjective(ids, p, q);
    }
    forall q | q in ids
      ensures exists p :: p in ids && Succ(ids, p) == Some(q)
    {
      var i := IndexOf(ids, q);
      var j := if i == 0 then |ids| - 1 else i - 1;
      IndexUnique(ids, j);
      assert Succ(ids, ids[j]) == Some(q);
    }
  }

  lemma SuccInjective(ids: seq<Id>, p: Id, q: Id)
    requires Distinct(ids) && p in ids && q in ids && Succ(ids, p) == Succ(ids, q)
    ensures p == q
  {
    var i, j := IndexOf(ids, p), IndexOf(ids, q);
    var i', j' := Wrap(i + 1, |ids|), Wrap(j + 1, |ids|);
    IndexUnique(ids, i');
    IndexUnique(ids, j');
  }

  lemma WithoutIds(ids: seq<Id>, r: Id)
    requires Distinct(ids)
    ensures Distinct(Without(ids, r)) && r !in Without(ids, r)
    ensures forall p :: p != r ==> (p in Without(ids, r) <==> p in ids)
  {
    if r in ids {
      var i, left := IndexOf(ids, r), Without(ids, r);
      forall p | p != r && p in ids
        ensures p in left
      {
        var j := IndexOf(ids, p);
        assert left[if j < i then j else j - 1] == p;
      }
    }
  }

  /** Positions after a removal. */
  lemma WithoutIndex(ids: seq<Id>, r: Id, p: Id)
    requires Distinct(ids) && r in ids && p in ids && p != r
    ensures var i, j, left := IndexOf(ids, r), IndexOf(ids, p), Without(ids, r);
            && p in left && |left| == |ids| - 1 && IndexOf(left, p) == (if j < i then j else j - 1)
            && forall k :: 0 <= k < |left| ==> left[k] == ids[if k < i then k else k + 1]
  {
    WithoutIds(ids, r);
    var i, j, left := IndexOf(ids, r), IndexOf(ids, p), Without(ids, r);
    IndexUnique(left, if j < i then j else j - 1);
  }

  /** Removing r links its predecessor to its successor and changes no other link. */
  lemma RemoveRelinks(ids: seq<Id>, r: Id, p: Id)
    requires Distinct(ids) && r in ids && p in ids && p != r
    ensures Succ(Without(ids, r), p) == if Succ(ids, p) == Some(r) then Succ(ids, r) else Succ(ids, p)
  {
    WithoutIndex(ids, r, p);
    var j := IndexOf(ids, p);
    if j + 1 < |ids| {
      IndexUnique(ids, j + 1);
    } else {
      IndexUnique(ids, 0);
    }
  }

  /** A new player lands between the last and the first, and every other link stays. */
  lemma JoinLinks(ids: seq<Id>, x: Id, p: Id)
    requires Distinct(ids) && x !in ids && p in ids
    ensures Distinct(Joined(ids, x))
    ensures Succ(Joined(ids, x), x) == Some(ids[0])
    ensures Succ(Joined(ids, x), p) == if p == ids[|ids| - 1] then Some(x) else Succ(ids, p)
  {
    var all := Joined(ids, x);
    IndexUnique(all, |ids|);
    IndexUnique(all, IndexOf(ids, p));
    IndexUnique(ids, |ids| - 1);
  }

  datatype Churn = Join(p: Id) | Leave(p: Id)

  function After(ids: seq<Id>, churn: seq<Churn>): seq<Id>
    decreases |churn|
  {
    if churn == [] then ids
    else After(if churn[0].Join? then Joined(ids, churn[0].p) else Without(ids, churn[0].p), churn[1..])
  }

  /** After any sequence of joins and departures the ring is one cycle through everybody. */
  lemma {:induction false} CycleUnderChurn(ids: seq<Id>, churn: seq<Churn>)
    requires Distinct(ids)
    ensures Distinct(After(ids, churn)) && OneCycle(After(ids, churn))
    decreases |churn|
  {
    if churn == [] {
      RingIsOneCycle(ids);
    } else {
      if churn[0].Leave? {
        WithoutIds(ids, churn[0].p);
      }
      CycleUnderChurn(if churn[0].Join? then Joined(ids, churn[0].p) else Without(ids, churn[0].p), churn[1..]);
    }
  }
}

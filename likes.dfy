/** The persistent like store (the Core Data entity `Like`), as the ordered
    list of its records, with the three things the repository does to it:
    look a record up, toggle it, and reconcile it against an event list. */
module Likes {
  import opened Events

  datatype Like = Like(id: Int64, liked: bool)

  /** At most one record per event identifier. */
  predicate NoDuplicates(likes: seq<Like>)
  {
    forall i, j :: 0 <= i < j < |likes| ==> likes[i].id != likes[j].id
  }

  predicate HasLike(likes: seq<Like>, id: Int64)
  {
    exists j :: 0 <= j < |likes| && likes[j].id == id
  }

  /** A fetch request with predicate "id == <id>", taking `.first`: the
      position of the first record with that identifier, if any. */
  function Find(likes: seq<Like>, id: Int64): (r: Option<nat>)
    ensures r.Some? ==> r.value < |likes| && likes[r.value].id == id
    ensures r.Some? ==> forall j :: 0 <= j < r.value ==> likes[j].id != id
    ensures r.None? <==> !HasLike(likes, id)
  {
    if likes == [] then None
    else if likes[0].id == id then Some(0)
    else
      match Find(likes[1..], id)
      case None =>
        assert forall j :: 1 <= j < |likes| ==> likes[j] == likes[1..][j - 1];
        None
      case Some(k) => Some(k + 1)
  }

  /** Two stores with the same identifiers at the same positions answer every
      lookup alike. */
  lemma {:induction false} FindSameIds(a: seq<Like>, b: seq<Like>, id: Int64)
    requires |a| == |b|
    requires forall j :: 0 <= j < |a| ==> a[j].id == b[j].id
    ensures Find(a, id) == Find(b, id)
  {
    if a != [] && a[0].id != id {
      FindSameIds(a[1..], b[1..], id);
    }
  }

  /** Records appended after a store do not change where an identifier it
      already holds is found. */
  lemma FindPrefix(a: seq<Like>, b: seq<Like>, id: Int64)
    requires a <= b
    requires HasLike(a, id)
    ensures Find(b, id) == Find(a, id)
  {
    var k := Find(a, id).value;
    var kb := Find(b, id);
    assert b[k] == a[k];
  }

  /** `isLiked`: the flag of the first record with the identifier, false when there is none. */
  function LikedIn(likes: seq<Like>, id: Int64): (liked: bool)
    ensures liked ==> HasLike(likes, id)
    ensures NoDuplicates(likes) ==> (liked <==> Like(id, true) in likes)
  {
    match Find(likes, id)
    case None => false
    case Some(k) => likes[k].liked
  }

  /** `toggleLike`: flips the flag of the first record with the identifier;
      without such a record the store is unchanged. */
  function Toggled(likes: seq<Like>, id: Int64): (r: seq<Like>)
    ensures |r| == |likes|
    ensures forall j :: 0 <= j < |r| ==> r[j].id == likes[j].id
    ensures forall j :: 0 <= j < |r| && likes[j].id != id ==> r[j] == likes[j]
    ensures !HasLike(likes, id) ==> r == likes
  {
    match Find(likes, id)
    case None => likes
    case Some(k) => likes[k := Like(id, !likes[k].liked)]
  }

  /** Toggling flips the answer of `isLiked` for that event when it has a
      record, leaves it false when it has none, and never changes the answer
      for another event. */
  lemma ToggleFlips(likes: seq<Like>, id: Int64, other: Int64)
    ensures LikedIn(Toggled(likes, id), id) == (HasLike(likes, id) && !LikedIn(likes, id))
    ensures other != id ==> LikedIn(Toggled(likes, id), other) == LikedIn(likes, other)
  {
    FindSameIds(likes, Toggled(likes, id), id);
    FindSameIds(likes, Toggled(likes, id), other);
  }

  /** Toggling twice restores the store. */
  lemma ToggleTwice(likes: seq<Like>, id: Int64)
    ensures Toggled(Toggled(likes, id), id) == likes
  {
    FindSameIds(likes, Toggled(likes, id), id);
  }

  /** Toggling keeps the records unique and every identifier present. */
  lemma ToggleKeepsRecords(likes: seq<Like>, id: Int64, other: Int64)
    ensures NoDuplicates(likes) ==> NoDuplicates(Toggled(likes, id))
    ensures HasLike(Toggled(likes, id), other) <==> HasLike(likes, other)
  {
    var r := Toggled(likes, id);
    if HasLike(likes, other) {
      var j :| 0 <= j < |likes| && likes[j].id == other;
      assert r[j].id == other;
    }
  }

  /** `setupLikes`: visits the events in order and appends an unliked record
      for each identifier the store does not hold yet. */
  function Reconciled(likes: seq<Like>, es: seq<Event>): (r: seq<Like>)
    ensures likes <= r
    ensures forall k :: |likes| <= k < |r| ==> !r[k].liked && r[k].id in Ids(es)
    ensures forall e :: e in es ==> HasLike(r, e.id)
    decreases |es|
  {
    if es == [] then likes
    else
      var init, e := es[..|es| - 1], es[|es| - 1];
      var prev := Reconciled(likes, init);
      assert es == init + [e];
      IdsSnoc(init, e);
      if Find(prev, e.id).Some? then prev
      else
        var next := prev + [Like(e.id, false)];
        assert next[|prev|].id == e.id;
        assert forall j :: 0 <= j < |prev| ==> next[j] == prev[j];
        next
  }

  /** One more event: a record is appended when its identifier has none. */
  lemma ReconciledSnoc(likes: seq<Like>, es: seq<Event>, e: Event)
    ensures Reconciled(likes, es + [e]) ==
            if Find(Reconciled(likes, es), e.id).Some? then Reconciled(likes, es)
            else Reconciled(likes, es) + [Like(e.id, false)]
  {
    assert (es + [e])[..|es|] == es;
  }

  /** Reconciling never creates a second record for an identifier. */
  lemma {:induction false} ReconcileKeepsUnique(likes: seq<Like>, es: seq<Event>)
    requires NoDuplicates(likes)
    ensures NoDuplicates(Reconciled(likes, es))
    decreases |es|
  {
    if es != [] {
      ReconcileKeepsUnique(likes, es[..|es| - 1]);
    }
  }

  /** Reconciling never changes whether an event is liked: old records keep
      their flags, new ones start unliked. */
  lemma ReconcileKeepsLiked(likes: seq<Like>, es: seq<Event>, id: Int64)
    ensures LikedIn(Reconciled(likes, es), id) == LikedIn(likes, id)
  {
    var r := Reconciled(likes, es);
    if HasLike(likes, id) {
      FindPrefix(likes, r, id);
    }
  }

  /** A store that already holds a record for every event is left as it is. */
  lemma {:induction false} ReconcileCovered(likes: seq<Like>, es: seq<Event>)
    requires forall e :: e in es ==> HasLike(likes, e.id)
    ensures Reconciled(likes, es) == likes
    decreases |es|
  {
    if es != [] {
      ReconcileCovered(likes, es[..|es| - 1]);
    }
  }

  /** Reconciling twice against the same events gives the store of reconciling once. */
  lemma ReconcileIdempotent(likes: seq<Like>, es: seq<Event>)
    ensures Reconciled(Reconciled(likes, es), es) == Reconciled(likes, es)
  {
    ReconcileCovered(Reconciled(likes, es), es);
  }
}

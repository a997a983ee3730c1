/** The image fan-out of `loadImages` and the count comparison of
    `checkComplete` (SeatGeek/Controller/Repository.swift). */
module Images {
  import opened Events

  /** One image fetch: issued for `event`, from the image URL of its first performer. */
  datatype ImageRequest = ImageRequest(event: Event, url: Url)

  /** The request `loadImages` issues for an event whose first performer has an image. */
  predicate WellFormed(r: ImageRequest)
  {
    |r.event.performers| > 0 && r.url == r.event.performers[0].image
  }

  /** The requests issued for a list of events, in list order: one for each
      event that has a first performer, none for the others. */
  function ImageRequests(es: seq<Event>): (reqs: seq<ImageRequest>)
    ensures |reqs| <= |es|
    ensures forall r :: r in reqs ==> WellFormed(r) && r.event in es
    decreases |es|
  {
    if es == [] then []
    else
      var e := es[|es| - 1];
      var rest := ImageRequests(es[..|es| - 1]);
      if |e.performers| > 0 then rest + [ImageRequest(e, e.performers[0].image)] else rest
  }

  /** One more event: its request is appended when it has a first performer. */
  lemma ImageRequestsSnoc(es: seq<Event>, e: Event)
    ensures ImageRequests(es + [e]) ==
            if |e.performers| > 0 then ImageRequests(es) + [ImageRequest(e, e.performers[0].image)]
            else ImageRequests(es)
  {
    assert (es + [e])[..|es|] == es;
  }

  /** Every event with a first performer gets its request, and only those do. */
  lemma {:induction false} ImageRequestFor(es: seq<Event>, e: Event)
    ensures ImageRequest(e, if |e.performers| > 0 then e.performers[0].image else []) in ImageRequests(es)
            <==> e in es && |e.performers| > 0
    decreases |es|
  {
    if es != [] {
      var init := es[..|es| - 1];
      assert es == init + [es[|es| - 1]];
      ImageRequestFor(init, e);
    }
  }

  /** The count test of `checkComplete` when the cache holds only identifiers
      of the current events: the cache size equals the event count exactly
      when every event has an image and no two events share an identifier.
      So one failed fetch, one event without a performer, or one repeated
      identifier keeps the completion notice from ever being sent. */
  lemma CountTest(cached: set<Int64>, es: seq<Event>)
    requires cached <= Ids(es)
    ensures |cached| == |es| <==> cached == Ids(es) && DistinctIds(es)
  {
    IdsCardinality(es);
    var missing := Ids(es) - cached;
    assert Ids(es) == cached + missing && cached !! missing;
    assert |Ids(es)| == |cached| + |missing|;
    if |cached| == |es| {
      assert missing == {};
    }
  }
}

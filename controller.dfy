/** The `Repository` class of SeatGeek/Controller/Repository.swift: the
    session's event list, image cache and search table, plus the like store
    it reconciles and toggles.

    The asynchronous callbacks become method calls made by the environment:
    `LoadEventData` is the completion of the events fetch, given its result;
    it returns the image requests it issues, and `ImageLoaded` is the
    completion of one of them, in whatever order they finish. */
module Controller {
  import opened Events
  import opened Text
  import opened Search
  import opened Likes
  import opened Images

  /** The repository's invariant, over the values of its fields: the search
      table covers the events, the like store holds exactly one record per
      identifier and one for every event, every request was issued for an
      event's first performer, and every cached image answers such a request. */
  ghost predicate Consistent(events: seq<Event>, cached: set<Int64>, searchStrings: map<Int64, string>,
                             likes: seq<Like>, issued: seq<ImageRequest>)
  {
    && Covers(searchStrings, events)
    && NoDuplicates(likes)
    && (forall e :: e in events ==> HasLike(likes, e.id))
    && (forall r :: r in issued ==> WellFormed(r))
    && (forall id :: id in cached ==> exists r :: r in issued && r.event.id == id)
  }

  /** A successful load keeps the invariant. */
  lemma LoadKeepsConsistent(events: seq<Event>, cached: set<Int64>, searchStrings: map<Int64, string>,
                            likes: seq<Like>, issued: seq<ImageRequest>, format: DateFormat,
                            fetched: seq<Event>, searchStrings': map<Int64, string>,
                            likes': seq<Like>, issued': seq<ImageRequest>)
    requires Consistent(events, cached, searchStrings, likes, issued)
    requires searchStrings' == Indexed(searchStrings, fetched, format)
    requires likes' == Reconciled(likes, fetched)
    requires issued' == issued + ImageRequests(fetched)
    ensures Consistent(fetched, cached, searchStrings', likes', issued')
  {
    ReconcileKeepsUnique(likes, fetched);
    forall id | id in cached ensures exists r :: r in issued' && r.event.id == id {
      var r :| r in issued && r.event.id == id;
      assert r in issued';
    }
  }

  class Repository {
    var events: seq<Event>
    var imageCache: map<Int64, Image>
    var searchStrings: map<Int64, string>
    /** The records of the persistent like store. */
    var likes: seq<Like>
    /** How many times `loadAllEvents` has been scheduled on the delegate. */
    var signals: nat
    const format: DateFormat
    /** Every image request issued so far, by any load. */
    ghost var issued: seq<ImageRequest>

    ghost predicate Valid()
      reads this
    {
      Consistent(events, imageCache.Keys, searchStrings, likes, issued)
    }

    /** A repository whose events fetch is still outstanding, over the like
        records left by earlier sessions. */
    constructor (format: DateFormat, stored: seq<Like>)
      requires NoDuplicates(stored)
      ensures Valid()
      ensures events == [] && imageCache == map[] && searchStrings == map[]
      ensures likes == stored && signals == 0 && issued == []
      ensures this.format == format
    {
      this.format := format;
      events, imageCache, searchStrings := [], map[], map[];
      likes, signals := stored, 0;
      issued := [];
    }

    /** The completion of the events fetch. A failure is only logged; a success
        replaces the event list, issues the image requests, reconciles the
        like store and refreshes the search table. */
    method LoadEventData(result: Result<seq<Event>>) returns (requests: seq<ImageRequest>)
      requires Valid()
      modifies this`events, this`likes, this`searchStrings, this`issued
      ensures Valid()
      ensures result.Failure? ==>
        && events == old(events) && likes == old(likes) && searchStrings == old(searchStrings)
        && requests == [] && issued == old(issued)
      ensures result.Success? ==>
        && events == result.value
        && requests == ImageRequests(result.value)
        && likes == Reconciled(old(likes), result.value)
        && searchStrings == Indexed(old(searchStrings), result.value, format)
        && issued == old(issued) + requests
    {
      match result
      case Failure(_) =>
        requests := [];
      case Success(fetched) =>
        LoadKeepsConsistent(events, imageCache.Keys, searchStrings, likes, issued, format,
                            fetched, Indexed(searchStrings, fetched, format),
                            Reconciled(likes, fetched), issued + ImageRequests(fetched));
        events := fetched;
        requests := LoadImages(fetched);
        issued := issued + requests;
        SetupLikes();
        SetupSearchStrings();
    }

    /** Issues one image request per event that has a first performer. */
    method LoadImages(es: seq<Event>) returns (requests: seq<ImageRequest>)
      ensures requests == ImageRequests(es)
    {
      requests := [];
      for i := 0 to |es|
        invariant requests == ImageRequests(es[..i])
      {
        var e := es[i];
        assert es[..i + 1] == es[..i] + [e];
        ImageRequestsSnoc(es[..i], e);
        if |e.performers| > 0 {
          requests := requests + [ImageRequest(e, e.performers[0].image)];
        }
      }
      assert es[..|es|] == es;
    }

    /** The completion of one image request: on success the image is cached
        under the event's identifier and the completion test runs; a failure
        is only logged. */
    method ImageLoaded(request: ImageRequest, result: Result<Image>)
      requires Valid()
      requires request in issued
      modifies this`imageCache, this`signals
      ensures Valid()
      ensures result.Failure? ==> imageCache == old(imageCache) && signals == old(signals)
      ensures result.Success? ==>
        && imageCache == old(imageCache)[request.event.id := result.value]
        && signals == old(signals) + (if |imageCache| == |events| then 1 else 0)
      ensures old(imageCache).Keys <= imageCache.Keys
    {
      match result
      case Failure(_) =>
      case Success(image) =>
        imageCache := imageCache[request.event.id := image];
        CheckComplete();
    }

    /** Schedules `loadAllEvents` when the cache holds as many images as there are events. */
    method CheckComplete()
      modifies this`signals
      ensures signals == old(signals) + (if |imageCache| == |events| then 1 else 0)
    {
      if |imageCache| == |events| {
        signals := signals + 1;
      }
    }

    /** Creates an unliked record for every event whose identifier has none. */
    method SetupLikes()
      modifies this`likes
      ensures likes == Reconciled(old(likes), events)
    {
      for i := 0 to |events|
        invariant likes == Reconciled(old(likes), events[..i])
      {
        var e := events[i];
        assert events[..i + 1] == events[..i] + [e];
        ReconciledSnoc(old(likes), events[..i], e);
        if Find(likes, e.id).Some? {
          continue;
        }
        likes := likes + [Like(e.id, false)];
      }
      assert events[..|events|] == events;
    }

    /** Stores each event's search string under its identifier. */
    method SetupSearchStrings()
      modifies this`searchStrings
      ensures searchStrings == Indexed(old(searchStrings), events, format)
    {
      for i := 0 to |events|
        invariant searchStrings == Indexed(old(searchStrings), events[..i], format)
      {
        var e := events[i];
        assert events[..i + 1] == events[..i] + [e];
        IndexedSnoc(old(searchStrings), events[..i], e, format);
        searchStrings := searchStrings[e.id := SearchString(format, e)];
      }
      assert events[..|events|] == events;
    }

    /** The events, in list order, whose search string contains the lower-cased query. */
    method GetFilteredEvents(query: string) returns (output: seq<Event>)
      requires Covers(searchStrings, events)
      ensures output == Filtered(searchStrings, events, Lower(query))
      ensures forall e :: e in output <==> e in events && Contains(searchStrings[e.id], Lower(query))
      ensures IsSubsequence(output, events)
    {
      var q := Lower(query);
      output := [];
      for i := 0 to |events|
        invariant output == Filtered(searchStrings, events[..i], q)
      {
        var e := events[i];
        assert events[..i + 1] == events[..i] + [e];
        FilteredSnoc(searchStrings, events[..i], e, q);
        if Contains(searchStrings[e.id], q) {
          output := output + [e];
        }
      }
      assert events[..|events|] == events;
      FilteredInOrder(searchStrings, events, q);
      forall e ensures e in output <==> e in events && Contains(searchStrings[e.id], q) {
        FilteredMembers(searchStrings, events, q, e);
      }
    }

    /** Flips the flag of the event's like record, if it has one. */
    method ToggleLike(event: Event)
      requires Valid()
      modifies this`likes
      ensures Valid()
      ensures likes == Toggled(old(likes), event.id)
    {
      match Find(likes, event.id)
      case None =>
      case Some(k) =>
        likes := likes[k := Like(event.id, !likes[k].liked)];
      forall id ensures HasLike(likes, id) <==> HasLike(old(likes), id) {
        ToggleKeepsRecords(old(likes), event.id, id);
      }
      ToggleKeepsRecords(old(likes), event.id, event.id);
    }

    /** The flag of the first like record with the event's identifier, false
        when there is none. */
    function IsLiked(event: Event): (liked: bool)
      reads this
      ensures liked <==> exists k :: 0 <= k < |likes| && likes[k] == Like(event.id, true) &&
                                    forall j :: 0 <= j < k ==> likes[j].id != event.id
    {
      var found := Find(likes, event.id);
      assert found.Some? ==> forall k :: (0 <= k < |likes| && likes[k].id == event.id &&
        forall j :: 0 <= j < k ==> likes[j].id != event.id) ==> k == found.value;
      LikedIn(likes, event.id)
    }

    /** The event list of the latest successful fetch, in fetch order. */
    function GetEvents(): (es: seq<Event>)
      reads this
      ensures es == events
    {
      events
    }

    /** The cached image of an event; the event must have one. Every cached
        image came from a request issued for an event with that identifier. */
    function GetImage(event: Event): (image: Image)
      reads this
      requires event.id in imageCache
      ensures image == imageCache[event.id]
      ensures Valid() ==> exists r :: r in issued && WellFormed(r) && r.event.id == event.id
    {
      imageCache[event.id]
    }
  }

  /** The requests issued for a list of two events that both have a performer. */
  lemma RequestsOfPair(es: seq<Event>)
    requires |es| == 2 && |es[0].performers| > 0 && |es[1].performers| > 0
    ensures ImageRequests(es) ==
            [ImageRequest(es[0], es[0].performers[0].image), ImageRequest(es[1], es[1].performers[0].image)]
  {
    assert es[..1][..0] == [];
  }

  /** A new repository after a successful fetch of two events that both have
      a performer image, with the two requests it issued. */
  method LoadPair(format: DateFormat, es: seq<Event>) returns (repo: Repository, requests: seq<ImageRequest>)
    requires |es| == 2 && |es[0].performers| > 0 && |es[1].performers| > 0
    ensures fresh(repo) && repo.Valid()
    ensures repo.events == es && repo.imageCache == map[] && repo.signals == 0
    ensures |requests| == 2 && requests[0].event == es[0] && requests[1].event == es[1]
    ensures requests[0] in repo.issued && requests[1] in repo.issued
  {
    repo := new Repository(format, []);
    requests := repo.LoadEventData(Success(es));
    RequestsOfPair(es);
  }

  /** Two events with different identifiers, each with a performer image:
      once both fetches succeed, in either order (`firstDoneFirst` says which
      completes first), `loadAllEvents` has been scheduled exactly once and
      each event's image is the one fetched for it. */
  method BothImagesArrive(format: DateFormat, es: seq<Event>, i1: Image, i2: Image, firstDoneFirst: bool)
    returns (signals: nat, shown1: Image, shown2: Image)
    requires |es| == 2 && es[0].id != es[1].id
    requires |es[0].performers| > 0 && |es[1].performers| > 0
    ensures signals == 1 && shown1 == i1 && shown2 == i2
  {
    var repo, requests := LoadPair(format, es);
    if firstDoneFirst {
      repo.ImageLoaded(requests[0], Success(i1));
      assert repo.imageCache.Keys == {es[0].id};
      assert repo.signals == 0;
      repo.ImageLoaded(requests[1], Success(i2));
    } else {
      repo.ImageLoaded(requests[1], Success(i2));
      assert repo.imageCache.Keys == {es[1].id};
      assert repo.signals == 0;
      repo.ImageLoaded(requests[0], Success(i1));
    }
    assert repo.imageCache.Keys == {es[0].id, es[1].id};
    signals := repo.signals;
    shown1 := repo.GetImage(es[0]);
    shown2 := repo.GetImage(es[1]);
  }

  /** The same two events, but one image fetch fails: the cache never reaches
      the event count and `loadAllEvents` is never scheduled. */
  method OneImageFails(format: DateFormat, es: seq<Event>, i1: Image, error: RequestError)
    returns (signals: nat)
    requires |es| == 2 && es[0].id != es[1].id
    requires |es[0].performers| > 0 && |es[1].performers| > 0
    ensures signals == 0
  {
    var repo, requests := LoadPair(format, es);
    repo.ImageLoaded(requests[0], Success(i1));
    assert repo.imageCache.Keys == {es[0].id};
    repo.ImageLoaded(requests[1], Failure(error));
    signals := repo.signals;
  }
}

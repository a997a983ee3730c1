/** The records decoded from the events endpoint (SeatGeek/Model/Events.swift)
    and the two ways a request can fail (SeatGeek/Controller/RequestError.swift). */
module Events {

  /** Swift's Int64, the type of an event identifier. */
  newtype Int64 = x: int | -0x8000_0000_0000_0000 <= x < 0x8000_0000_0000_0000

  type Url = string

  /** A decoded image. The repository only stores and hands back images,
      so their contents are left uninterpreted. */
  datatype Image = Image(bytes: seq<bv8>)

  datatype Performer = Performer(image: Url)

  datatype Venue = Venue(name: string, city: string, state: string)

  /** One event of the list; `eventType` is the field called `type` in the API. */
  datatype Event = Event(
    id: Int64,
    datetimeUtc: string,
    venue: Venue,
    title: string,
    performers: seq<Performer>,
    eventType: string)

  datatype RequestError = NoDataAvailable | CantProcessData

  /** Swift's Result<T, RequestError>, as delivered to a completion handler. */
  datatype Result<T> = Success(value: T) | Failure(error: RequestError)

  datatype Option<T> = None | Some(value: T)

  /** The set of identifiers of a list of events. */
  function Ids(es: seq<Event>): set<Int64>
  {
    set e | e in es :: e.id
  }

  /** No two events of the list share an identifier. */
  predicate DistinctIds(es: seq<Event>)
  {
    forall i, j :: 0 <= i < j < |es| ==> es[i].id != es[j].id
  }

  /** Appending an event adds its identifier. */
  lemma IdsSnoc(init: seq<Event>, last: Event)
    ensures Ids(init + [last]) == Ids(init) + {last.id}
  {
    var es := init + [last];
    forall k | k in Ids(es) ensures k in Ids(init) + {last.id} {
      var e :| e in es && e.id == k;
      var i :| 0 <= i < |es| && es[i] == e;
      if i < |init| {
        assert init[i] == e;
      }
    }
  }

  /** Appending an event keeps the identifiers distinct exactly when its own
      identifier is new. */
  lemma DistinctSnoc(init: seq<Event>, last: Event)
    ensures DistinctIds(init + [last]) <==> DistinctIds(init) && last.id !in Ids(init)
  {
    var es := init + [last];
    if DistinctIds(es) {
      forall i, j | 0 <= i < j < |init| ensures init[i].id != init[j].id {
        assert init[i] == es[i] && init[j] == es[j];
      }
      forall e | e in init ensures e.id != last.id {
        var i :| 0 <= i < |init| && init[i] == e;
        assert es[i] == e && es[|init|] == last;
      }
    }
    if DistinctIds(init) && last.id !in Ids(init) {
      forall i, j | 0 <= i < j < |es| ensures es[i].id != es[j].id {
        assert es[i] == init[i];
        if j < |es| - 1 {
          assert es[j] == init[j];
        } else {
          assert init[i] in init;
        }
      }
    }
  }

  /** A list has at most as many distinct identifiers as events, and exactly as
      many only when no identifier repeats. */
  lemma {:induction false} IdsCardinality(es: seq<Event>)
    ensures |Ids(es)| <= |es|
    ensures |Ids(es)| == |es| <==> DistinctIds(es)
  {
    if es != [] {
      var init, last := es[..|es| - 1], es[|es| - 1];
      assert es == init + [last];
      IdsSnoc(init, last);
      DistinctSnoc(init, last);
      IdsCardinality(init);
    }
  }
}

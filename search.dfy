/** The search table built by `setupSearchStrings` and the query answered by
    `getFilteredEvents` (SeatGeek/Controller/Repository.swift). */
module Search {
  import opened Events
  import opened Text

  /** The two formatters of `Date`: `dateString()` and `timeString()`, each
      applied to the date that `Date.fromIso` parses from the event's ISO text.
      Their locale-dependent output is not modelled; the repository is given them. */
  datatype DateFormat = DateFormat(dateString: string -> string, timeString: string -> string)

  /** The searchable text of one event, before lower-casing: type, title,
      city, state, venue name, formatted date and formatted time, in that order. */
  function Fields(format: DateFormat, e: Event): seq<string>
  {
    [e.eventType, e.title, e.venue.city, e.venue.state, e.venue.name,
     format.dateString(e.datetimeUtc), format.timeString(e.datetimeUtc)]
  }

  function Concat(parts: seq<string>): string
  {
    if parts == [] then [] else Concat(parts[..|parts| - 1]) + parts[|parts| - 1]
  }

  /** The lower-cased concatenation stored for an event. */
  function SearchString(format: DateFormat, e: Event): (s: string)
    ensures HasNoCapital(s)
  {
    Lower(Concat(Fields(format, e)))
  }

  /** Lower-casing commutes with concatenation. */
  lemma {:induction false} LowerConcat(parts: seq<string>, k: nat)
    requires k < |parts|
    ensures Lower(Concat(parts)) ==
            Lower(Concat(parts[..k])) + Lower(parts[k]) + Lower(Concat(parts[k + 1..]))
    decreases |parts|
  {
    var n := |parts| - 1;
    var init := parts[..n];
    LowerAppend(Concat(init), parts[n]);
    if k == n {
      assert parts[..k] == init;
      assert parts[k + 1..] == [];
    } else {
      LowerConcat(init, k);
      assert init[..k] == parts[..k];
      assert init[k + 1..] == parts[k + 1..n];
      assert parts[k + 1..][..|parts[k + 1..]| - 1] == parts[k + 1..n];
      LowerAppend(Concat(parts[k + 1..n]), parts[n]);
    }
  }

  /** Every field of an event, lower-cased, is found in its search string: a
      query equal to any one field, in any letter case, matches the event. */
  lemma SearchStringHasFields(format: DateFormat, e: Event, k: nat)
    requires k < |Fields(format, e)|
    ensures Contains(SearchString(format, e), Lower(Fields(format, e)[k]))
  {
    var parts := Fields(format, e);
    LowerConcat(parts, k);
    ContainsInfix(Lower(Concat(parts[..k])), Lower(parts[k]), Lower(Concat(parts[k + 1..])));
  }

  /** Every event of the list has an entry in the table (what the forced unwrap
      in `getFilteredEvents` needs). */
  predicate Covers(index: map<Int64, string>, es: seq<Event>)
  {
    forall e :: e in es ==> e.id in index
  }

  /** The table after `setupSearchStrings` has visited `es` in order, storing
      each event's search string under its identifier (a later event with the
      same identifier overwrites an earlier one). */
  function Indexed(index: map<Int64, string>, es: seq<Event>, format: DateFormat): (r: map<Int64, string>)
    ensures r.Keys == index.Keys + Ids(es)
    ensures Covers(r, es)
    decreases |es|
  {
    if es == [] then index
    else
      var e := es[|es| - 1];
      IdsSnoc(es[..|es| - 1], e);
      assert es == es[..|es| - 1] + [e];
      Indexed(index, es[..|es| - 1], format)[e.id := SearchString(format, e)]
  }

  /** One more event: its search string is stored under its identifier. */
  lemma IndexedSnoc(index: map<Int64, string>, es: seq<Event>, e: Event, format: DateFormat)
    ensures Indexed(index, es + [e], format) == Indexed(index, es, format)[e.id := SearchString(format, e)]
  {
    assert (es + [e])[..|es|] == es;
  }

  /** An event whose identifier does not occur later in the list ends up with
      its own search string in the table. */
  lemma {:induction false} IndexedAt(index: map<Int64, string>, es: seq<Event>, format: DateFormat, j: nat)
    requires j < |es|
    requires forall k :: j < k < |es| ==> es[k].id != es[j].id
    ensures Indexed(index, es, format)[es[j].id] == SearchString(format, es[j])
    decreases |es|
  {
    if j < |es| - 1 {
      IndexedAt(index, es[..|es| - 1], format, j);
    }
  }

  /** With distinct identifiers, every event of the list maps to its own search string. */
  lemma IndexedDistinct(index: map<Int64, string>, es: seq<Event>, format: DateFormat)
    requires DistinctIds(es)
    ensures forall e :: e in es ==> Indexed(index, es, format)[e.id] == SearchString(format, e)
  {
    forall e | e in es ensures Indexed(index, es, format)[e.id] == SearchString(format, e) {
      var j :| 0 <= j < |es| && es[j] == e;
      IndexedAt(index, es, format, j);
    }
  }

  /** Entries for identifiers outside the list are left as they were. */
  lemma {:induction false} IndexedKeepsOthers(index: map<Int64, string>, es: seq<Event>, format: DateFormat, id: Int64)
    requires id in index && id !in Ids(es)
    ensures Indexed(index, es, format)[id] == index[id]
    decreases |es|
  {
    if es != [] {
      var init := es[..|es| - 1];
      IdsSnoc(init, es[|es| - 1]);
      assert es == init + [es[|es| - 1]];
      IndexedKeepsOthers(index, init, format, id);
    }
  }

  /** The event's search string contains the (already lower-cased) query. */
  predicate Matches(index: map<Int64, string>, e: Event, q: string)
    requires e.id in index
  {
    Contains(index[e.id], q)
  }

  /** `xs` is `ys` with some elements left out, the rest in their order. */
  predicate IsSubsequence<T(==)>(xs: seq<T>, ys: seq<T>)
    decreases |ys|
  {
    |xs| <= |ys| &&
    (xs == [] ||
     (xs[|xs| - 1] == ys[|ys| - 1] && IsSubsequence(xs[..|xs| - 1], ys[..|ys| - 1])) ||
     IsSubsequence(xs, ys[..|ys| - 1]))
  }

  /** The events of `es` whose search string contains `q`, in list order. */
  function Filtered(index: map<Int64, string>, es: seq<Event>, q: string): (r: seq<Event>)
    requires Covers(index, es)
    ensures |r| <= |es|
    decreases |es|
  {
    if es == [] then []
    else
      var e := es[|es| - 1];
      var rest := Filtered(index, es[..|es| - 1], q);
      if Matches(index, e, q) then rest + [e] else rest
  }

  /** One more event: it is appended to the result when it matches. */
  lemma FilteredSnoc(index: map<Int64, string>, es: seq<Event>, e: Event, q: string)
    requires Covers(index, es) && e.id in index
    ensures Covers(index, es + [e])
    ensures Filtered(index, es + [e], q) ==
            if Matches(index, e, q) then Filtered(index, es, q) + [e] else Filtered(index, es, q)
  {
    assert (es + [e])[..|es|] == es;
  }

  /** An event is returned exactly when it is in the list and matches the query. */
  lemma {:induction false} FilteredMembers(index: map<Int64, string>, es: seq<Event>, q: string, e: Event)
    requires Covers(index, es)
    ensures e in Filtered(index, es, q) <==> e in es && Matches(index, e, q)
    decreases |es|
  {
    if es != [] {
      var init := es[..|es| - 1];
      assert es == init + [es[|es| - 1]];
      FilteredMembers(index, init, q, e);
    }
  }

  /** Each matching event is returned as many times as it occurs in the list,
      and a non-matching event not at all. */
  lemma {:induction false} FilteredCount(index: map<Int64, string>, es: seq<Event>, q: string, e: Event)
    requires Covers(index, es)
    requires e.id in index
    ensures multiset(Filtered(index, es, q))[e] == if Matches(index, e, q) then multiset(es)[e] else 0
    decreases |es|
  {
    if es != [] {
      var init := es[..|es| - 1];
      assert es == init + [es[|es| - 1]];
      FilteredCount(index, init, q, e);
    }
  }

  /** The result keeps the order of the list. */
  lemma {:induction false} FilteredInOrder(index: map<Int64, string>, es: seq<Event>, q: string)
    requires Covers(index, es)
    ensures IsSubsequence(Filtered(index, es, q), es)
    decreases |es|
  {
    if es != [] {
      var init := es[..|es| - 1];
      var r := Filtered(index, es, q);
      FilteredInOrder(index, init, q);
      if Matches(index, es[|es| - 1], q) {
        assert r[..|r| - 1] == Filtered(index, init, q);
      }
    }
  }

  /** When every event matches, the whole list comes back unchanged. */
  lemma {:induction false} FilteredAll(index: map<Int64, string>, es: seq<Event>, q: string)
    requires Covers(index, es)
    requires forall e :: e in es ==> Matches(index, e, q)
    ensures Filtered(index, es, q) == es
    decreases |es|
  {
    if es != [] {
      var init := es[..|es| - 1];
      assert es == init + [es[|es| - 1]];
      FilteredAll(index, init, q);
    }
  }

  /** The query is lower-cased before matching, so queries that differ only in
      letter case give the same result. */
  lemma FilterIgnoresQueryCase(index: map<Int64, string>, es: seq<Event>, q1: string, q2: string)
    requires Covers(index, es)
    requires Lower(q1) == Lower(q2)
    ensures Filtered(index, es, Lower(q1)) == Filtered(index, es, Lower(q2))
    ensures Filtered(index, es, Lower(q1)) == Filtered(index, es, Lower(Lower(q1)))
  {
    LowerIdempotent(q1);
  }
}

/** The scatter-plot filter of js/scatterFilter.js. Its record test reads a
    `rating` filter that nothing ever sets, so the test is decided by that
    undefined value: records without a rating fail it, and the first record
    with one makes it throw. */
module ScatterFilter {
  import opened JsValues
  import opened Games

  /** A filter slot as JavaScript sees it: never assigned, `null`, or a string. */
  datatype Slot = Undefined | Null | Text(text: string)

  /** The filter's `filters`, with the `rating` slot the test reads. */
  datatype State = State(date: Slot, rating: Slot, metacriticFrom: Num, metacriticTo: Num)

  /** The constructor's filters: no date, scores 0 to 100, no `rating` key. */
  function Initial(): (s: State)
    ensures s.date == Null && s.rating == Undefined
    ensures s.metacriticFrom == Some(0.0) && s.metacriticTo == Some(100.0)
  {
    State(Null, Undefined, Some(0.0), Some(100.0))
  }

  const DefaultDate := "Overwhelmingly Positive"

  /** `updateFilters` given the selected quarter ("" when none) and the score
      slider through `parseInt`; it leaves `rating` as it was. */
  function UpdateFilters(s: State, date: string, metacritic: Option<int>): (r: State)
    ensures r.date == Text(if date != "" then date else DefaultDate)
    ensures r.rating == s.rating
    ensures r.metacriticTo == Some(100.0)
    ensures r.metacriticFrom == if metacritic.Some? then Some(metacritic.value as real) else None
  {
    State(Text(if date != "" then date else DefaultDate), s.rating,
          if metacritic.Some? then Some(metacritic.value as real) else None, Some(100.0))
  }

  /** A change of either input. */
  datatype Change = Change(date: string, metacritic: Option<int>)

  /** The state after a series of changes from the initial one. */
  function AfterChanges(changes: seq<Change>): State {
    if changes == [] then Initial()
    else
      var last := changes[|changes| - 1];
      UpdateFilters(AfterChanges(changes[..|changes| - 1]), last.date, last.metacritic)
  }

  /** No series of changes ever gives `rating` a value. */
  lemma {:induction false} RatingStaysUndefined(changes: seq<Change>)
    ensures AfterChanges(changes).rating == Undefined
  {
    if changes != [] {
      RatingStaysUndefined(changes[..|changes| - 1]);
    }
  }

  /** The thrown error of `undefined.toLowerCase()`. */
  const UndefinedRead := TypeError("Cannot read properties of undefined (reading 'toLowerCase')")

  /** The record test: `matchesDate` (which compares ratings) and the score
      range, evaluated in that order; `Err` when the test throws. */
  function Test(s: State, d: Game): (r: Result<bool>)
    ensures r.Err? <==> s.rating.Undefined? && d.rating != ""
    ensures r == Ok(true) ==> Within(d.metacritic, s.metacriticFrom, s.metacriticTo)
    ensures s.rating.Undefined? && d.rating == "" ==> r == Ok(false)
  {
    match s.rating
    case Null => Ok(Within(d.metacritic, s.metacriticFrom, s.metacriticTo))
    case Text(t) =>
      Ok(d.rating != "" && ToLower(d.rating) == ToLower(t) && Within(d.metacritic, s.metacriticFrom, s.metacriticTo))
    case Undefined =>
      if d.rating != "" then Err(UndefinedRead) else Ok(false)
  }

  /** `data.filter(test)` with a test that may throw: the first throw ends it. */
  function TryFilter(s: State, data: seq<Game>): (r: Result<seq<Game>>)
    ensures r.Ok? ==> |r.value| <= |data|
  {
    if data == [] then Ok([])
    else
      match Test(s, data[0])
      case Err(e) => Err(e)
      case Ok(keep) =>
        match TryFilter(s, data[1..])
        case Err(e) => Err(e)
        case Ok(rest) => Ok(if keep then [data[0]] + rest else rest)
  }

  /** The filter throws iff some record's test throws, and otherwise keeps the
      records whose test passed. */
  lemma {:induction false} TryFilterSpec(s: State, data: seq<Game>)
    ensures TryFilter(s, data).Err? <==> exists i :: 0 <= i < |data| && Test(s, data[i]).Err?
    ensures TryFilter(s, data).Ok? ==>
              forall k :: 0 <= k < |TryFilter(s, data).value| ==>
                TryFilter(s, data).value[k] in data && Test(s, TryFilter(s, data).value[k]) == Ok(true)
  {
    if data != [] {
      TryFilterSpec(s, data[1..]);
      if Test(s, data[0]).Ok? && TryFilter(s, data[1..]).Err? {
        var i :| 0 <= i < |data[1..]| && Test(s, data[1..][i]).Err?;
        assert Test(s, data[i + 1]).Err?;
      }
      if exists i :: 0 <= i < |data| && Test(s, data[i]).Err? {
        var i :| 0 <= i < |data| && Test(s, data[i]).Err?;
        if i > 0 {
          assert Test(s, data[1..][i - 1]).Err?;
        }
      }
    }
  }

  /** The record filtering of `applyFilters` in any state the filter can reach:
      it throws iff some record has a rating, and when it does not throw it
      keeps no record. */
  lemma {:induction false} ApplyFiltersOutcome(changes: seq<Change>, data: seq<Game>)
    ensures TryFilter(AfterChanges(changes), data).Err? <==> exists i :: 0 <= i < |data| && data[i].rating != ""
    ensures TryFilter(AfterChanges(changes), data).Ok? ==> TryFilter(AfterChanges(changes), data).value == []
  {
    var s := AfterChanges(changes);
    RatingStaysUndefined(changes);
    TryFilterSpec(s, data);
    NothingKept(s, data);
  }

  /** While `rating` is undefined no record passes the test, so a filter that
      does not throw keeps nothing. */
  lemma {:induction false} NothingKept(s: State, data: seq<Game>)
    requires s.rating.Undefined?
    ensures TryFilter(s, data).Ok? ==> TryFilter(s, data).value == []
  {
    if data != [] {
      NothingKept(s, data[1..]);
    }
  }
}

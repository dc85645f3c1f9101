/** The filter panel of js/filterPanel.js: the filter state, its rewrite when
    an input changes, and the test `applyFilters` puts every record to. */
module FilterPanel {
  import opened JsValues
  import opened Seqs
  import opened Games

  /** The panel's `filters`. Dates are time values (`None` for an Invalid
      Date); `rating` is `None` while it is `null`. */
  datatype Filters = Filters(
    dateFrom: Option<int>,
    dateTo: Option<int>,
    rating: Option<string>,
    priceFrom: Num,
    priceTo: Num,
    metacriticFrom: Num,
    metacriticTo: Num
  )

  /** Milliseconds from the epoch to midnight UTC on 1 February 1970:
      `new Date(1970, 1, 1)` counts months from 0. */
  const FebruaryFirst1970: int := 31 * 24 * 60 * 60 * 1000

  const DefaultRating := "Overwhelmingly Positive"

  /** The constructor's filters. `tzOffsetMinutes` is what `getTimezoneOffset`
      reports for the host's time zone and `now` the current time value. */
  function Initial(tzOffsetMinutes: int, now: int): (f: Filters)
    ensures f.dateFrom == Some(2678400000 + tzOffsetMinutes * 60000)
    ensures f.dateTo == Some(now)
    ensures f.rating.None?
    ensures f.priceFrom == Some(0.0) && f.priceTo == Some(999.99)
    ensures f.metacriticFrom == Some(0.0) && f.metacriticTo == Some(100.0)
  {
    Filters(Some(FebruaryFirst1970 + tzOffsetMinutes * 60000), Some(now), None,
            Some(0.0), Some(999.99), Some(0.0), Some(100.0))
  }

  /** What the inputs hold when one of them changes, already converted: the
      two dates as time values, the selected rating text ("" when none), the
      price slider through `parseFloat`, the score slider through `parseInt`. */
  datatype Inputs = Inputs(
    startDate: Option<int>,
    endDate: Option<int>,
    rating: string,
    price: Num,
    metacritic: Option<int>
  )

  /** `x || fallback` on a string. */
  function OrDefault(x: string, fallback: string): (r: string)
    ensures x != "" ==> r == x
    ensures x == "" ==> r == fallback
  {
    if x != "" then x else fallback
  }

  /** The rewrite of the filters in `updateFilters`. */
  function UpdateFilters(inputs: Inputs): (f: Filters)
    ensures f.dateFrom == inputs.startDate && f.dateTo == inputs.endDate
    ensures f.rating.Some? && f.rating.value != ""
    ensures inputs.rating != "" ==> f.rating == Some(inputs.rating)
    ensures inputs.rating == "" ==> f.rating == Some(DefaultRating)
    ensures f.priceFrom == inputs.price && f.priceTo == Some(1000.0)
    ensures f.metacriticTo == Some(100.0)
    ensures f.metacriticFrom.Some? <==> inputs.metacritic.Some?
    ensures inputs.metacritic.Some? ==> f.metacriticFrom.value == inputs.metacritic.value as real
  {
    Filters(inputs.startDate, inputs.endDate, Some(OrDefault(inputs.rating, DefaultRating)),
            inputs.price, Some(1000.0),
            if inputs.metacritic.Some? then Some(inputs.metacritic.value as real) else None,
            Some(100.0))
  }

  /** After any input the rating filter is never `null` again: a record passes
      the rating test iff its rating equals, up to case, the selected rating or
      "Overwhelmingly Positive" when none is selected. */
  lemma {:induction false} UpdatedRatingTest(inputs: Inputs, d: Game)
    ensures MatchesRating(UpdateFilters(inputs), d) <==>
              d.rating != "" && SameIgnoringCase(d.rating, if inputs.rating == "" then DefaultRating else inputs.rating)
  {
  }

  /** `matchesRating`. */
  predicate MatchesRating(f: Filters, d: Game) {
    f.rating.None? || (d.rating != "" && ToLower(d.rating) == ToLower(f.rating.value))
  }

  /** `withinDateRange`. */
  predicate WithinDates(f: Filters, d: Game) {
    WithinTime(d.releaseDate, f.dateFrom, f.dateTo)
  }

  predicate WithinPrice(f: Filters, d: Game) {
    Within(d.price, f.priceFrom, f.priceTo)
  }

  predicate WithinMetacritic(f: Filters, d: Game) {
    Within(d.metacritic, f.metacriticFrom, f.metacriticTo)
  }

  /** The test a record must pass to be kept. */
  predicate Passes(f: Filters, d: Game) {
    WithinDates(f, d) && MatchesRating(f, d) && WithinPrice(f, d) && WithinMetacritic(f, d)
  }

  function PassesAll(f: Filters): Game -> bool {
    d => Passes(f, d)
  }

  /** `applyFilters`: the panel's data, never a previous result, filtered. */
  function ApplyFilters(data: seq<Game>, f: Filters): seq<Game> {
    Filter(PassesAll(f), data)
  }

  /** A record is kept iff its release date, rating, price and score all pass:
      dates, prices and scores inside their bounds with both ends included, a
      missing or NaN value failing; the rating equal up to case, or any rating
      while the filter is `null`. The kept records keep their order. */
  lemma {:induction false} ApplyFiltersSpec(data: seq<Game>, f: Filters, d: Game)
    ensures d in ApplyFilters(data, f) <==>
              && d in data
              && d.releaseDate.Some? && f.dateFrom.Some? && f.dateTo.Some?
              && f.dateFrom.value <= d.releaseDate.value <= f.dateTo.value
              && (f.rating.None? || (d.rating != "" && SameIgnoringCase(d.rating, f.rating.value)))
              && d.price.Some? && f.priceFrom.Some? && f.priceTo.Some?
              && f.priceFrom.value <= d.price.value <= f.priceTo.value
              && d.metacritic.Some? && f.metacriticFrom.Some? && f.metacriticTo.Some?
              && f.metacriticFrom.value <= d.metacritic.value <= f.metacriticTo.value
    ensures IsSubsequence(ApplyFilters(data, f), data)
    ensures multiset(ApplyFilters(data, f))[d] == if Passes(f, d) then multiset(data)[d] else 0
  {
    FilterMembers(PassesAll(f), data, d);
    FilterIsSubsequence(PassesAll(f), data);
    FilterMultiset(PassesAll(f), data, d);
  }

  /** Filtering the kept records again keeps them all. */
  lemma {:induction false} ApplyFiltersIdempotent(data: seq<Game>, f: Filters)
    ensures ApplyFilters(ApplyFilters(data, f), f) == ApplyFilters(data, f)
  {
    FilterAfterWeaker(PassesAll(f), PassesAll(f), data);
  }

  /** While the rating filter is `null` the rating test passes every record. */
  lemma {:induction false} NullRatingMatchesAll(f: Filters, data: seq<Game>)
    requires f.rating.None?
    ensures forall i :: 0 <= i < |data| ==> MatchesRating(f, data[i])
    ensures forall d :: Passes(f, d) <==> WithinDates(f, d) && WithinPrice(f, d) && WithinMetacritic(f, d)
  {
  }

  /** `g`'s ranges contain `f`'s and `g`'s rating test is `f`'s or none. */
  predicate Wider(g: Filters, f: Filters) {
    && (f.dateFrom.None? || f.dateTo.None? || f.dateFrom.value > f.dateTo.value
        || (g.dateFrom.Some? && g.dateTo.Some? && g.dateFrom.value <= f.dateFrom.value && f.dateTo.value <= g.dateTo.value))
    && (g.rating.None? || g.rating == f.rating)
    && Contains(g.priceFrom, g.priceTo, f.priceFrom, f.priceTo)
    && Contains(g.metacriticFrom, g.metacriticTo, f.metacriticFrom, f.metacriticTo)
  }

  lemma {:induction false} WiderPasses(g: Filters, f: Filters, d: Game)
    requires Wider(g, f)
    ensures Passes(f, d) ==> Passes(g, d)
  {
    WithinWider(d.price, g.priceFrom, g.priceTo, f.priceFrom, f.priceTo);
    WithinWider(d.metacritic, g.metacriticFrom, g.metacriticTo, f.metacriticFrom, f.metacriticTo);
  }

  /** Widening the filters never drops a kept record, and narrowing them keeps
      exactly what the narrower filters keep of the wider result. */
  lemma {:induction false} WideningKeeps(data: seq<Game>, g: Filters, f: Filters)
    requires Wider(g, f)
    ensures forall d :: d in ApplyFilters(data, f) ==> d in ApplyFilters(data, g)
    ensures ApplyFilters(ApplyFilters(data, g), f) == ApplyFilters(data, f)
  {
    forall d ensures Passes(f, d) ==> Passes(g, d) {
      WiderPasses(g, f, d);
    }
    forall d ensures d in ApplyFilters(data, f) ==> d in ApplyFilters(data, g) {
      FilterMembers(PassesAll(f), data, d);
      FilterMembers(PassesAll(g), data, d);
    }
    FilterAfterWeaker(PassesAll(f), PassesAll(g), data);
  }

  /** The panel: its data and its current filters. */
  datatype Panel = Panel(data: seq<Game>, filters: Filters)

  /** An input change: the new filters, and the records handed to the pack
      layout (whose `updateFilteredData` does nothing with them). */
  function OnInput(p: Panel, inputs: Inputs): (r: (Panel, seq<Game>))
    ensures r.0.data == p.data
    ensures r.0.filters.rating.Some?
  {
    var f := UpdateFilters(inputs);
    (Panel(p.data, f), ApplyFilters(p.data, f))
  }

  /** The result of a change depends on the latest inputs only: whatever came
      before, two panels over the same data give the same records. */
  lemma {:induction false} OnInputForgetsHistory(p: Panel, q: Panel, inputs: Inputs)
    requires p.data == q.data
    ensures OnInput(p, inputs) == OnInput(q, inputs)
    ensures IsSubsequence(OnInput(p, inputs).1, p.data)
  {
    FilterIsSubsequence(PassesAll(UpdateFilters(inputs)), p.data);
  }
}

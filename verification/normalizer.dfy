/** The load-time preparation of the catalogue (js/main.js): genre lists are
    parsed and trimmed, niche genres collapse into "Miscellaneous", genre
    popularity is tallied and ranked, every game gets its `GenreMain`, and the
    force graph's genre nodes and genre-game links are built. */
module Normalizer {
  import opened JsValues
  import opened Seqs
  import opened Games

  /** The raw `Genres` value of a row: an array, a string, or anything else. */
  datatype GenreField = GenreArray(items: seq<string>) | GenreText(text: string) | OtherValue

  /** A row as loaded: every column already typed except `Genres`. The
      `genres` field of `base` is ignored and replaced during loading. */
  datatype Row = Row(base: Game, genreField: GenreField)

  // ---------------------------------------------------------------- parsing

  /** Turns the raw `Genres` value into a list of trimmed genre names. */
  function ParseGenres(f: GenreField): (r: seq<string>)
    ensures f.GenreArray? ==> |r| == |f.items| && forall k :: 0 <= k < |r| ==> r[k] == Trim(f.items[k])
    ensures f.GenreText? ==> |r| == CountCommas(f.text) + 1
    ensures f.GenreText? ==> forall k :: 0 <= k < |r| ==> ',' !in r[k] && Trim(r[k]) == r[k]
    ensures f.GenreText? ==>
              (exists ps :: |ps| == |r| && JoinCommas(ps) == f.text
                 && (forall k :: 0 <= k < |ps| ==> ',' !in ps[k])
                 && (forall k :: 0 <= k < |r| ==> r[k] == Trim(ps[k])))
    ensures f.OtherValue? ==> r == []
  {
    match f
    case GenreArray(items) => TrimEach(items)
    case GenreText(text) =>
      JoinSplit(text);
      var pieces := SplitCommas(text);
      var r := TrimEach(pieces);
      assert forall k :: 0 <= k < |r| ==> ',' !in r[k] by {
        forall k | 0 <= k < |r| ensures ',' !in r[k] {
          TrimIsFactor(pieces[k]);
        }
      }
      forall k | 0 <= k < |r| ensures Trim(r[k]) == r[k] {
        TrimIdempotent(pieces[k]);
      }
      r
    case OtherValue => []
  }

  function TrimEach(xs: seq<string>): (r: seq<string>)
    ensures |r| == |xs|
    ensures forall k :: 0 <= k < |r| ==> r[k] == Trim(xs[k])
  {
    seq(|xs|, k requires 0 <= k < |xs| => Trim(xs[k]))
  }

  /** An empty genre string still yields one (empty) genre. */
  lemma {:induction false} EmptyTextGivesOneBlank()
    ensures ParseGenres(GenreText("")) == [""]
  {
    assert SplitCommas("") == [""];
    assert Trim("") == "";
  }

  // ------------------------------------------------------- misc collapse

  const Misc: string := "Miscellaneous"

  /** The niche genres folded into "Miscellaneous", in the order they are processed. */
  const NicheGenres: seq<string> := [
    "Animation & Modeling", "Audio Production", "Design & Illustration",
    "Education", "Game Development", "Photo Editing",
    "Software Training", "Utilities", "Video Production", "Web Publishing"
  ]

  /** One step of the collapse: the first occurrence of niche genre `g` is
      removed, and "Miscellaneous" is appended if it is not already there. */
  function CollapseOne(gs: seq<string>, g: string): seq<string> {
    if g !in gs then gs
    else if Misc in gs then RemoveFirst(gs, g)
    else RemoveFirst(gs, g) + [Misc]
  }

  function CollapseAll(gs: seq<string>, ns: seq<string>): seq<string>
    decreases |ns|
  {
    if ns == [] then gs else CollapseAll(CollapseOne(gs, ns[0]), ns[1..])
  }

  /** The collapse applied to every record's genre list. */
  function CollapseMisc(gs: seq<string>): seq<string> {
    CollapseAll(gs, NicheGenres)
  }

  /** The test "not one of `n`". */
  function Outside(n: set<string>): string -> bool {
    (x: string) => x !in n
  }

  /** `s` without the genres in `n`. */
  function Without(s: seq<string>, n: set<string>): seq<string> {
    Filter(Outside(n), s)
  }

  /** Some genre of `ns` occurs in `gs`. */
  predicate AnyIn(ns: seq<string>, gs: seq<string>) {
    exists k :: 0 <= k < |ns| && ns[k] in gs
  }

  lemma {:induction false} WithoutRemoveFirst(s: seq<string>, g: string, n: set<string>)
    requires g in s && g in n
    ensures Without(RemoveFirst(s, g), n) == Without(s, n)
  {
    var i := IndexOf(s, g);
    var a, b := s[..i], s[i + 1..];
    assert s == (a + [g]) + b;
    assert RemoveFirst(s, g) == a + b;
    WithoutSkips(a, g, b, n);
  }

  lemma {:induction false} WithoutSkips(a: seq<string>, g: string, b: seq<string>, n: set<string>)
    requires g in n
    ensures Without((a + [g]) + b, n) == Without(a + b, n)
  {
    var f := Outside(n);
    FilterConcat(f, a + [g], b);
    FilterConcat(f, a, [g]);
    FilterConcat(f, a, b);
    assert !f(g);
    assert Filter(f, [g]) == Filter(f, [g][1..]);
    assert [g][1..] == [];
  }

  lemma {:induction false} RemoveFirstMembers(s: seq<string>, g: string, x: string)
    requires g in s
    ensures x in RemoveFirst(s, g) ==> x in s
    ensures x != g ==> (x in RemoveFirst(s, g) <==> x in s)
  {
    var r := RemoveFirst(s, g);
    assert x in r <==> multiset(r)[x] > 0;
    assert x in s <==> multiset(s)[x] > 0;
  }

  lemma {:induction false} CollapseAllShape(gs: seq<string>, ns: seq<string>, n: set<string>)
    requires Misc !in n
    requires forall k :: 0 <= k < |ns| ==> ns[k] in n
    ensures |CollapseAll(gs, ns)| <= |gs|
    ensures Misc in CollapseAll(gs, ns) <==> Misc in gs || AnyIn(ns, gs)
    ensures Without(CollapseAll(gs, ns), n)
              == Without(gs, n) + (if Misc !in gs && AnyIn(ns, gs) then [Misc] else [])
    decreases |ns|
  {
    if ns != [] {
      var g := ns[0];
      var gs' := CollapseOne(gs, g);
      assert forall k :: 0 <= k < |ns[1..]| ==> ns[1..][k] == ns[k + 1];
      CollapseAllShape(gs', ns[1..], n);
      if g in gs {
        assert AnyIn(ns, gs) by { assert ns[0] in gs; }
        WithoutRemoveFirst(gs, g, n);
        var removed := RemoveFirst(gs, g);
        RemoveFirstMembers(gs, g, Misc);
        assert Misc in gs';
        if Misc !in gs {
          FilterConcat(Outside(n), removed, [Misc]);
          assert Without(gs', n) == Without(gs, n) + [Misc];
        }
      } else {
        assert gs' == gs;
        assert AnyIn(ns, gs) <==> AnyIn(ns[1..], gs) by {
          if AnyIn(ns, gs) {
            var k :| 0 <= k < |ns| && ns[k] in gs;
            assert k > 0 && ns[1..][k - 1] in gs;
          }
          if AnyIn(ns[1..], gs) {
            var k :| 0 <= k < |ns[1..]| && ns[1..][k] in gs;
            assert ns[k + 1] in gs;
          }
        }
      }
    }
  }

  /** The collapse removes exactly one occurrence of each distinct niche genre present. */
  lemma {:induction false} CollapseAllCounts(gs: seq<string>, ns: seq<string>, x: string)
    requires Misc !in ns && x != Misc
    requires Distinct(ns)
    ensures multiset(CollapseAll(gs, ns))[x]
              == if x in ns && x in gs then multiset(gs)[x] - 1 else multiset(gs)[x]
    decreases |ns|
  {
    if ns != [] {
      var gs' := CollapseOne(gs, ns[0]);
      CollapseOneCount(gs, ns[0], x);
      assert Distinct(ns[1..]);
      CollapseAllCounts(gs', ns[1..], x);
      if x in ns && x != ns[0] {
        assert x in ns[1..];
        assert x in gs' <==> x in gs by {
          assert multiset(gs')[x] == multiset(gs)[x];
        }
      }
      if x == ns[0] {
        assert x !in ns[1..];
      }
    }
  }

  /** One step of the collapse removes one occurrence of its niche genre and
      leaves the count of every other genre but "Miscellaneous" alone. */
  lemma {:induction false} CollapseOneCount(gs: seq<string>, g: string, x: string)
    requires x != Misc
    ensures multiset(CollapseOne(gs, g))[x]
              == if x == g && x in gs then multiset(gs)[x] - 1 else multiset(gs)[x]
  {
    if g in gs {
      var r := RemoveFirst(gs, g);
      assert multiset(r)[x] == if x == g then multiset(gs)[x] - 1 else multiset(gs)[x];
      if Misc !in gs {
        assert multiset(r + [Misc]) == multiset(r) + multiset{Misc};
      }
    }
  }

  lemma {:induction false} NicheGenresFacts()
    ensures Misc !in NicheGenres
    ensures Distinct(NicheGenres)
  {
  }

  /** The collapse as the loader applies it: the list never grows, "Miscellaneous"
      is present afterwards exactly when it was before or some niche genre was,
      every other genre keeps its place in the order (with "Miscellaneous" added
      at the end only when it was missing), and each niche genre loses exactly
      its first occurrence. */
  lemma {:induction false} CollapseMiscSpec(gs: seq<string>)
    ensures |CollapseMisc(gs)| <= |gs|
    ensures Misc in CollapseMisc(gs) <==> Misc in gs || AnyIn(NicheGenres, gs)
    ensures Without(CollapseMisc(gs), set g | g in NicheGenres)
              == Without(gs, set g | g in NicheGenres)
                 + (if Misc !in gs && AnyIn(NicheGenres, gs) then [Misc] else [])
    ensures forall k :: 0 <= k < |NicheGenres| ==>
              multiset(CollapseMisc(gs))[NicheGenres[k]]
                == if NicheGenres[k] in gs then multiset(gs)[NicheGenres[k]] - 1 else 0
    ensures CollapseMisc(gs)
              == DropFirsts(gs, set g | g in NicheGenres)
                 + (if Misc !in gs && AnyIn(NicheGenres, gs) then [Misc] else [])
  {
    NicheGenresFacts();
    CollapseAllShape(gs, NicheGenres, set g | g in NicheGenres);
    CollapseMiscCounts(gs);
    CollapseAllDropsFirsts(gs, NicheGenres);
  }

  lemma {:induction false} CollapseMiscCounts(gs: seq<string>)
    ensures forall k :: 0 <= k < |NicheGenres| ==>
              multiset(CollapseMisc(gs))[NicheGenres[k]]
                == if NicheGenres[k] in gs then multiset(gs)[NicheGenres[k]] - 1 else 0
  {
    NicheGenresFacts();
    forall k | 0 <= k < |NicheGenres|
      ensures multiset(CollapseMisc(gs))[NicheGenres[k]]
                == if NicheGenres[k] in gs then multiset(gs)[NicheGenres[k]] - 1 else 0
    {
      CollapseAllCounts(gs, NicheGenres, NicheGenres[k]);
    }
  }


  /** Reference for what the collapse removes: scanning left to right, the
      first occurrence of each genre of `n` is dropped and everything else kept. */
  function DropFirsts(gs: seq<string>, n: set<string>): seq<string>
    decreases |gs|
  {
    if gs == [] then []
    else if gs[0] in n then DropFirsts(gs[1..], n - {gs[0]})
    else [gs[0]] + DropFirsts(gs[1..], n)
  }

  lemma {:induction false} DropFirstsAbsent(gs: seq<string>, n: set<string>, g: string)
    requires g !in gs
    ensures DropFirsts(gs, n - {g}) == DropFirsts(gs, n)
    decreases |gs|
  {
    if gs != [] {
      assert gs[0] != g && g !in gs[1..];
      if gs[0] in n {
        assert n - {g} - {gs[0]} == n - {gs[0]} - {g};
        DropFirstsAbsent(gs[1..], n - {gs[0]}, g);
      } else {
        DropFirstsAbsent(gs[1..], n, g);
      }
    }
  }

  lemma {:induction false} DropFirstsSnoc(gs: seq<string>, n: set<string>, m: string)
    requires m !in n
    ensures DropFirsts(gs + [m], n) == DropFirsts(gs, n) + [m]
    decreases |gs|
  {
    if gs == [] {
      assert [] + [m] == [m] && [m][1..] == [];
    } else {
      assert (gs + [m])[0] == gs[0] && (gs + [m])[1..] == gs[1..] + [m];
      if gs[0] in n {
        DropFirstsSnoc(gs[1..], n - {gs[0]}, m);
      } else {
        DropFirstsSnoc(gs[1..], n, m);
      }
    }
  }

  /** Removing the first `g` and then scanning without `g` is scanning with it. */
  lemma {:induction false} DropFirstsRemoveFirst(gs: seq<string>, n: set<string>, g: string)
    requires g in gs && g in n
    ensures DropFirsts(RemoveFirst(gs, g), n - {g}) == DropFirsts(gs, n)
    decreases |gs|, 1
  {
    RemoveFirstCons(gs, g);
    if gs[0] != g {
      DropFirstsRemoveLater(gs, n, g);
    }
  }

  /** The same when the first `g` is not at the head. */
  lemma {:induction false} DropFirstsRemoveLater(gs: seq<string>, n: set<string>, g: string)
    requires g in gs && g in n && gs[0] != g
    ensures DropFirsts([gs[0]] + RemoveFirst(gs[1..], g), n - {g}) == DropFirsts(gs, n)
    decreases |gs|, 0
  {
    assert g in gs[1..];
    var t := RemoveFirst(gs[1..], g);
    assert ([gs[0]] + t)[0] == gs[0] && ([gs[0]] + t)[1..] == t;
    if gs[0] in n {
      assert n - {g} - {gs[0]} == n - {gs[0]} - {g};
      DropFirstsRemoveFirst(gs[1..], n - {gs[0]}, g);
    } else {
      DropFirstsRemoveFirst(gs[1..], n, g);
    }
  }

  lemma {:induction false} AnyInCons(ns: seq<string>, gs: seq<string>)
    requires ns != []
    ensures AnyIn(ns, gs) <==> ns[0] in gs || AnyIn(ns[1..], gs)
  {
    if AnyIn(ns, gs) {
      var k :| 0 <= k < |ns| && ns[k] in gs;
      if k > 0 {
        assert ns[1..][k - 1] in gs;
      }
    }
    if AnyIn(ns[1..], gs) {
      var k :| 0 <= k < |ns[1..]| && ns[1..][k] in gs;
      assert ns[k + 1] in gs;
    }
  }

  lemma {:induction false} ElemsTail(ns: seq<string>)
    requires ns != [] && Distinct(ns)
    ensures (set x | x in ns[1..]) == (set x | x in ns) - {ns[0]}
  {
    forall x | x in ns[1..] ensures x != ns[0] {
      var k :| 0 <= k < |ns[1..]| && ns[1..][k] == x;
      assert ns[k + 1] == x;
    }
    forall x | x in ns && x != ns[0] ensures x in ns[1..] {
      var k :| 0 <= k < |ns| && ns[k] == x;
      assert ns[1..][k - 1] == x;
    }
  }

  /** The collapse drops exactly the first occurrence of each niche genre
      present, keeps every other entry in place, and appends
      "Miscellaneous" when it was missing and some niche genre was there. */
  lemma {:induction false} CollapseAllDropsFirsts(gs: seq<string>, ns: seq<string>)
    requires Misc !in ns && Distinct(ns)
    ensures CollapseAll(gs, ns)
              == DropFirsts(gs, set x | x in ns)
                 + (if Misc !in gs && AnyIn(ns, gs) then [Misc] else [])
    decreases |ns|
  {
    if ns == [] {
      DropFirstsNone(gs);
      assert (set x | x in ns) == {};
    } else {
      var g := ns[0];
      var n := set x | x in ns;
      var gs' := CollapseOne(gs, g);
      assert Distinct(ns[1..]);
      ElemsTail(ns);
      CollapseAllDropsFirsts(gs', ns[1..]);
      AnyInCons(ns, gs);
      if g in gs {
        var removed := RemoveFirst(gs, g);
        RemoveFirstMembers(gs, g, Misc);
        DropFirstsRemoveFirst(gs, n, g);
        if Misc !in gs {
          DropFirstsSnoc(removed, n - {g}, Misc);
        }
      } else {
        DropFirstsAbsent(gs, n, g);
      }
    }
  }

  lemma {:induction false} DropFirstsNone(gs: seq<string>)
    ensures DropFirsts(gs, {}) == gs
    decreases |gs|
  {
    if gs != [] {
      DropFirstsNone(gs[1..]);
    }
  }

  // ---------------------------------------------------------- popularity

  /** One entry of the `genrePopularity` table. */
  datatype Entry = Entry(genre: string, count: nat)

  /** The keys of the table, in insertion order. */
  function Keys(p: seq<Entry>): (r: seq<string>)
    ensures |r| == |p|
    ensures forall k :: 0 <= k < |p| ==> r[k] == p[k].genre
  {
    seq(|p|, k requires 0 <= k < |p| => p[k].genre)
  }

  /** `genrePopularity[g] = (genrePopularity[g] || 0) + 1` on an
      insertion-ordered table. */
  function Bump(p: seq<Entry>, g: string): seq<Entry> {
    if p == [] then [Entry(g, 1)]
    else if p[0].genre == g then [Entry(g, p[0].count + 1)] + p[1..]
    else [p[0]] + Bump(p[1..], g)
  }

  function TallyFrom(p: seq<Entry>, s: seq<string>): seq<Entry>
    decreases |s|
  {
    if s == [] then p else TallyFrom(Bump(p, s[0]), s[1..])
  }

  /** The table tallied from the genres `s`, in the order they are met. */
  function Tally(s: seq<string>): seq<Entry> {
    TallyFrom([], s)
  }

  /** The table tallies `s`: its keys are the genres of `s` in first-occurrence
      order and each count is the number of occurrences. */
  predicate Tallies(p: seq<Entry>, s: seq<string>) {
    && Keys(p) == FirstOccurrences(s)
    && forall k :: 0 <= k < |p| ==> p[k].count == multiset(s)[p[k].genre]
  }

  lemma {:induction false} BumpShape(p: seq<Entry>, g: string)
    requires Distinct(Keys(p))
    ensures Keys(Bump(p, g)) == Keys(p) + (if g in Keys(p) then [] else [g])
    ensures forall k :: 0 <= k < |p| ==>
              Bump(p, g)[k].count == p[k].count + (if p[k].genre == g then 1 else 0)
    ensures g !in Keys(p) ==> Bump(p, g)[|p|].count == 1
  {
    BumpKeys(p, g);
    BumpCounts(p, g);
  }

  lemma {:induction false} BumpKeys(p: seq<Entry>, g: string)
    ensures Keys(Bump(p, g)) == Keys(p) + (if g in Keys(p) then [] else [g])
  {
    if p != [] {
      assert Keys(p) == [p[0].genre] + Keys(p[1..]);
      BumpKeys(p[1..], g);
      if p[0].genre == g {
        assert Keys(Bump(p, g)) == [g] + Keys(p[1..]);
      } else {
        assert Keys(Bump(p, g)) == [p[0].genre] + Keys(Bump(p[1..], g));
      }
    }
  }

  lemma {:induction false} BumpCounts(p: seq<Entry>, g: string)
    requires Distinct(Keys(p))
    ensures |Bump(p, g)| == |p| + (if g in Keys(p) then 0 else 1)
    ensures forall k :: 0 <= k < |p| ==>
              Bump(p, g)[k].count == p[k].count + (if p[k].genre == g then 1 else 0)
    ensures g !in Keys(p) ==> Bump(p, g)[|p|].count == 1
  {
    BumpKeys(p, g);
    if p != [] {
      assert Keys(p)[1..] == Keys(p[1..]);
      BumpCounts(p[1..], g);
      var b := Bump(p, g);
      if p[0].genre == g {
        assert b == [Entry(g, p[0].count + 1)] + p[1..];
        forall k | 1 <= k < |p| ensures b[k].count == p[k].count && p[k].genre != g {
          assert Keys(p)[k] != Keys(p)[0];
        }
      } else {
        var t := Bump(p[1..], g);
        assert b == [p[0]] + t;
        forall k | 1 <= k < |p| ensures b[k] == t[k - 1] && p[k] == p[1..][k - 1] {
        }
        assert g in Keys(p) <==> g in Keys(p[1..]);
      }
    }
  }

  lemma {:induction false} BumpTallies(p: seq<Entry>, s: seq<string>, g: string)
    requires Tallies(p, s)
    ensures Tallies(Bump(p, g), s + [g])
  {
    var b := Bump(p, g);
    assert Distinct(Keys(p)) by {
      FirstOccurrencesFacts(s);
    }
    assert g in Keys(p) <==> g in s by {
      FirstOccurrencesMembers(s, g);
    }
    assert Keys(b) == FirstOccurrences(s + [g]) by {
      BumpShape(p, g);
      FirstOccurrencesSnoc(s, g);
    }
    forall k | 0 <= k < |b| ensures b[k].count == multiset(s + [g])[b[k].genre] {
      BumpEntry(p, s, g, k);
    }
  }

  lemma {:induction false} BumpEntry(p: seq<Entry>, s: seq<string>, g: string, k: int)
    requires Distinct(Keys(p))
    requires forall k :: 0 <= k < |p| ==> p[k].count == multiset(s)[p[k].genre]
    requires g in Keys(p) <==> g in s
    requires 0 <= k < |Bump(p, g)|
    ensures Bump(p, g)[k].count == multiset(s + [g])[Bump(p, g)[k].genre]
  {
    BumpShape(p, g);
    var b := Bump(p, g);
    assert multiset(s + [g]) == multiset(s) + multiset{g};
    if k < |p| {
      assert b[k].genre == Keys(b)[k] == Keys(p)[k] == p[k].genre;
    } else {
      assert b[k].genre == Keys(b)[k] == g;
    }
  }

  lemma {:induction false} TallyFromTallies(p: seq<Entry>, done: seq<string>, s: seq<string>)
    requires Tallies(p, done)
    ensures Tallies(TallyFrom(p, s), done + s)
    decreases |s|
  {
    if s == [] {
      assert done + s == done;
    } else {
      BumpTallies(p, done, s[0]);
      assert done + s == (done + [s[0]]) + s[1..];
      TallyFromTallies(Bump(p, s[0]), done + [s[0]], s[1..]);
    }
  }

  /** The tally counts every occurrence, with repetition, and lists the genres
      in first-occurrence order. */
  lemma {:induction false} TallyCounts(s: seq<string>)
    ensures Keys(Tally(s)) == FirstOccurrences(s)
    ensures forall k :: 0 <= k < |Tally(s)| ==> Tally(s)[k].count == multiset(s)[Tally(s)[k].genre]
  {
    assert Tallies([], []);
    TallyFromTallies([], [], s);
    assert [] + s == s;
  }

  predicate NonBlank(g: string) {
    g != ""
  }

  predicate NamedEntry(e: Entry) {
    e.genre != ""
  }

  /** `delete genrePopularity[""]`. */
  function RemoveBlank(p: seq<Entry>): seq<Entry> {
    Filter(NamedEntry, p)
  }

  lemma {:induction false} KeysRemoveBlank(p: seq<Entry>)
    ensures Keys(RemoveBlank(p)) == Filter(NonBlank, Keys(p))
  {
    if p != [] {
      KeysRemoveBlank(p[1..]);
      assert Keys(p)[1..] == Keys(p[1..]);
      if NamedEntry(p[0]) {
        assert RemoveBlank(p) == [p[0]] + RemoveBlank(p[1..]);
        assert Keys(RemoveBlank(p)) == [p[0].genre] + Keys(RemoveBlank(p[1..]));
      }
    }
  }

  // ------------------------------------------------------------- ranking

  /** Counts never increase along the sequence. */
  predicate NonIncreasing(p: seq<Entry>) {
    forall i, j :: 0 <= i < j < |p| ==> p[i].count >= p[j].count
  }

  function HasCount(c: nat): Entry -> bool {
    (e: Entry) => e.count == c
  }

  /** The entries with count `c`, in order. */
  function WithCount(p: seq<Entry>, c: nat): seq<Entry> {
    Filter(HasCount(c), p)
  }

  /** Inserts `x` in front of the first entry whose count is not larger. */
  function Insert(x: Entry, t: seq<Entry>): (r: seq<Entry>)
    ensures |r| == |t| + 1
    ensures multiset(r) == multiset(t) + multiset{x}
    ensures r[0] == x || (t != [] && r[0] == t[0])
  {
    if t == [] || x.count >= t[0].count then [x] + t
    else
      assert t == [t[0]] + t[1..];
      [t[0]] + Insert(x, t[1..])
  }

  lemma {:induction false} ConsSorted(h: Entry, t: seq<Entry>)
    requires NonIncreasing(t)
    requires t != [] ==> h.count >= t[0].count
    ensures NonIncreasing([h] + t)
  {
    var r := [h] + t;
    forall i, j | 0 <= i < j < |r| ensures r[i].count >= r[j].count {
      assert r[j] == t[j - 1];
      if i > 0 {
        assert r[i] == t[i - 1];
      } else if j > 1 {
        assert t[0].count >= t[j - 1].count;
      }
    }
  }

  lemma {:induction false} InsertSorted(x: Entry, t: seq<Entry>)
    requires NonIncreasing(t)
    ensures NonIncreasing(Insert(x, t))
  {
    if t == [] || x.count >= t[0].count {
      ConsSorted(x, t);
    } else {
      var rest := Insert(x, t[1..]);
      assert NonIncreasing(t[1..]);
      InsertSorted(x, t[1..]);
      assert t[0].count >= rest[0].count;
      ConsSorted(t[0], rest);
    }
  }

  lemma {:induction false} WithCountCons(x: Entry, t: seq<Entry>, c: nat)
    ensures WithCount([x] + t, c) == (if x.count == c then [x] else []) + WithCount(t, c)
  {
    assert ([x] + t)[0] == x && ([x] + t)[1..] == t;
  }

  /** Insertion keeps the order within each count class, with `x` first in its class. */
  lemma {:induction false} InsertWithCount(x: Entry, t: seq<Entry>, c: nat)
    requires NonIncreasing(t)
    ensures WithCount(Insert(x, t), c) == (if x.count == c then [x] else []) + WithCount(t, c)
  {
    if t == [] || x.count >= t[0].count {
      WithCountCons(x, t, c);
    } else {
      var rest := Insert(x, t[1..]);
      assert NonIncreasing(t[1..]);
      InsertWithCount(x, t[1..], c);
      assert Insert(x, t) == [t[0]] + rest;
      WithCountCons(t[0], rest, c);
      assert t == [t[0]] + t[1..];
      WithCountCons(t[0], t[1..], c);
      if x.count == c {
        assert t[0].count != c;
        assert WithCount(Insert(x, t), c) == WithCount(rest, c) == [x] + WithCount(t[1..], c);
      } else if t[0].count == c {
        assert WithCount(Insert(x, t), c) == [t[0]] + WithCount(rest, c);
      } else {
        assert WithCount(Insert(x, t), c) == WithCount(rest, c);
      }
    }
  }

  /** The stable sort by descending count (`(a, b) => count[b] - count[a]`):
      a permutation, ordered by count, in which entries of equal count keep
      their relative order. */
  function SortByCount(p: seq<Entry>): (r: seq<Entry>)
    ensures |r| == |p|
    ensures NonIncreasing(r)
    ensures multiset(r) == multiset(p)
  {
    if p == [] then []
    else
      var rest := SortByCount(p[1..]);
      InsertStep(p, rest);
      Insert(p[0], rest)
  }

  /** Inserting the head of `p` into a sorted permutation of its tail gives a
      sorted permutation of `p`. */
  lemma {:induction false} InsertStep(p: seq<Entry>, rest: seq<Entry>)
    requires p != [] && NonIncreasing(rest) && multiset(rest) == multiset(p[1..])
    ensures NonIncreasing(Insert(p[0], rest))
    ensures multiset(Insert(p[0], rest)) == multiset(p)
  {
    InsertSorted(p[0], rest);
    assert p == [p[0]] + p[1..];
  }

  /** Entries of equal count keep their relative order. */
  lemma {:induction false} SortStable(p: seq<Entry>, c: nat)
    ensures WithCount(SortByCount(p), c) == WithCount(p, c)
  {
    if p != [] {
      SortStable(p[1..], c);
      InsertWithCount(p[0], SortByCount(p[1..]), c);
      assert p == [p[0]] + p[1..];
      WithCountCons(p[0], p[1..], c);
    }
  }

  /** `ranking`: the genres of the popularity table, most popular first. */
  function Ranking(popularity: seq<Entry>): seq<string> {
    Keys(SortByCount(popularity))
  }

  lemma {:induction false} DistinctKeysDistinctEntries(p: seq<Entry>)
    requires Distinct(Keys(p))
    ensures Distinct(p)
  {
    forall i, j | 0 <= i < j < |p| ensures p[i] != p[j] {
      assert Keys(p)[i] != Keys(p)[j];
    }
  }

  lemma {:induction false} SortedMembers(p: seq<Entry>, e: Entry)
    ensures e in SortByCount(p) <==> e in p
  {
    var s := SortByCount(p);
    assert e in s <==> multiset(s)[e] > 0;
    assert e in p <==> multiset(p)[e] > 0;
  }

  lemma {:induction false} RankingDistinct(p: seq<Entry>)
    requires Distinct(Keys(p))
    ensures Distinct(SortByCount(p))
    ensures Distinct(Ranking(p))
  {
    var s := SortByCount(p);
    DistinctKeysDistinctEntries(p);
    PermutationDistinct(p, s);
    forall i, j | 0 <= i < j < |s| ensures Ranking(p)[i] != Ranking(p)[j] {
      RankingPair(p, i, j);
    }
  }

  /** Two positions of the ranking hold different genres. */
  lemma {:induction false} RankingPair(p: seq<Entry>, i: int, j: int)
    requires Distinct(Keys(p)) && Distinct(SortByCount(p))
    requires 0 <= i < j < |p|
    ensures Ranking(p)[i] != Ranking(p)[j]
  {
    var s := SortByCount(p);
    SortedMembers(p, s[i]);
    SortedMembers(p, s[j]);
    var a, b := IndexOf(p, s[i]), IndexOf(p, s[j]);
    assert Keys(p)[a] != Keys(p)[b];
  }

  lemma {:induction false} RankingMembers(p: seq<Entry>, g: string)
    ensures g in Ranking(p) <==> g in Keys(p)
  {
    var s := SortByCount(p);
    if g in Ranking(p) {
      var i := IndexOf(Ranking(p), g);
      SortedMembers(p, s[i]);
      var a := IndexOf(p, s[i]);
      assert Keys(p)[a] == g;
    }
    if g in Keys(p) {
      var a := IndexOf(Keys(p), g);
      SortedMembers(p, p[a]);
      var i := IndexOf(s, p[a]);
      assert Ranking(p)[i] == g;
    }
  }

  /** Two entries with count `c`, in order in `s`, are in the same order among
      the entries with count `c`. */
  lemma {:induction false} OrderWithinCount(s: seq<Entry>, i: int, j: int, c: nat)
    requires Distinct(s) && 0 <= i < j < |s| && s[i].count == c && s[j].count == c
    ensures s[i] in WithCount(s, c) && s[j] in WithCount(s, c)
    ensures IndexOf(WithCount(s, c), s[i]) < IndexOf(WithCount(s, c), s[j])
  {
    IndexOfDistinct(s, i);
    IndexOfDistinct(s, j);
    FilterMembers(HasCount(c), s, s[i]);
    FilterMembers(HasCount(c), s, s[j]);
    FilterKeepsOrder(HasCount(c), s, s[i], s[j]);
  }

  /** Sorting keeps entries of equal count in their original order. */
  lemma {:induction false} SortKeepsTieOrder(p: seq<Entry>, i: int, j: int)
    requires Distinct(p)
    requires 0 <= i < j < |p| && SortByCount(p)[i].count == SortByCount(p)[j].count
    ensures SortByCount(p)[i] in p && SortByCount(p)[j] in p
    ensures IndexOf(p, SortByCount(p)[i]) < IndexOf(p, SortByCount(p)[j])
  {
    var s := SortByCount(p);
    var c := s[i].count;
    PermutationDistinct(p, s);
    SortedMembers(p, s[i]);
    SortedMembers(p, s[j]);
    OrderWithinCount(s, i, j, c);
    SortStable(p, c);
    FilterKeepsOrder(HasCount(c), p, s[i], s[j]);
  }

  lemma {:induction false} RankingTie(p: seq<Entry>, i: int, j: int)
    requires Distinct(Keys(p))
    requires 0 <= i < j < |p| && SortByCount(p)[i].count == SortByCount(p)[j].count
    ensures IndexOf(Keys(p), Ranking(p)[i]) < IndexOf(Keys(p), Ranking(p)[j])
  {
    var a, b := TiePositions(p, i, j);
    KeyPosition(p, a);
    KeyPosition(p, b);
  }

  /** Where two tied sorted entries sit in the unsorted table. */
  lemma {:induction false} TiePositions(p: seq<Entry>, i: int, j: int) returns (a: int, b: int)
    requires Distinct(Keys(p))
    requires 0 <= i < j < |p| && SortByCount(p)[i].count == SortByCount(p)[j].count
    ensures 0 <= a < b < |p|
    ensures Ranking(p)[i] == p[a].genre && Ranking(p)[j] == p[b].genre
  {
    DistinctKeysDistinctEntries(p);
    SortKeepsTieOrder(p, i, j);
    a, b := IndexOf(p, SortByCount(p)[i]), IndexOf(p, SortByCount(p)[j]);
  }

  lemma {:induction false} KeyPosition(p: seq<Entry>, a: int)
    requires Distinct(Keys(p)) && 0 <= a < |p|
    ensures IndexOf(Keys(p), p[a].genre) == a
  {
    IndexOfDistinct(Keys(p), a);
  }

  /** The ranking orders the popularity table: it lists every key once, counts
      never increase along it, and keys of equal count keep the table's
      insertion order. */
  lemma {:induction false} RankingOrder(p: seq<Entry>)
    requires Distinct(Keys(p))
    ensures |Ranking(p)| == |p| && Distinct(Ranking(p))
    ensures forall g :: g in Ranking(p) <==> g in Keys(p)
    ensures forall i, j :: 0 <= i < j < |p| ==> SortByCount(p)[i].count >= SortByCount(p)[j].count
    ensures forall i, j :: 0 <= i < j < |p| && SortByCount(p)[i].count == SortByCount(p)[j].count ==>
              IndexOf(Keys(p), Ranking(p)[i]) < IndexOf(Keys(p), Ranking(p)[j])
  {
    RankingDistinct(p);
    forall g ensures g in Ranking(p) <==> g in Keys(p) {
      RankingMembers(p, g);
    }
    forall i, j | 0 <= i < j < |p| && SortByCount(p)[i].count == SortByCount(p)[j].count
      ensures IndexOf(Keys(p), Ranking(p)[i]) < IndexOf(Keys(p), Ranking(p)[j])
    {
      RankingTie(p, i, j);
    }
  }

  // ---------------------------------------------------------- main genre

  /** The `forEach` of `determineGenres` over one record: `highest` becomes the
      index whenever `ranking.indexOf(g) >= highest`. */
  function ScanRank(ranking: seq<string>, gs: seq<string>, highest: nat): (r: nat)
    ensures r >= highest
    ensures forall k :: 0 <= k < |gs| && gs[k] in ranking ==> IndexOf(ranking, gs[k]) <= r
    ensures r == highest || exists k :: 0 <= k < |gs| && gs[k] in ranking && IndexOf(ranking, gs[k]) == r
  {
    if gs == [] then highest
    else
      var i := IndexOf(ranking, gs[0]);
      var r := ScanRank(ranking, gs[1..], if i >= highest then i else highest);
      assert forall k :: 1 <= k < |gs| ==> gs[k] == gs[1..][k - 1];
      r
  }

  /** The ranking index whose genre becomes `GenreMain`: the largest index of a
      ranked genre of the record, or 0 when none of its genres is ranked. */
  function MainGenreIndex(ranking: seq<string>, gs: seq<string>): (r: nat)
    ensures forall k :: 0 <= k < |gs| && gs[k] in ranking ==> IndexOf(ranking, gs[k]) <= r
    ensures r == 0 || exists k :: 0 <= k < |gs| && gs[k] in ranking && IndexOf(ranking, gs[k]) == r
    ensures ranking != [] ==> r < |ranking|
  {
    ScanRank(ranking, gs, 0)
  }

  /** `d.GenreMain = ranking[highestRank]`; undefined when the ranking is empty. */
  function GenreMainOf(ranking: seq<string>, gs: seq<string>): Option<string> {
    var k := MainGenreIndex(ranking, gs);
    if k < |ranking| then Some(ranking[k]) else None
  }

  /** `determineGenres` after the ranking is built: every record gets its main genre. */
  function DetermineGenres(data: seq<Game>, ranking: seq<string>): (r: seq<Game>)
    ensures |r| == |data|
    ensures forall i :: 0 <= i < |data| ==> r[i] == data[i].(genreMain := GenreMainOf(ranking, data[i].genres))
  {
    seq(|data|, i requires 0 <= i < |data| => data[i].(genreMain := GenreMainOf(ranking, data[i].genres)))
  }

  // ---------------------------------------------------------- force graph

  /** A link of the force graph: from a genre name to the game that has it. */
  datatype Link = Link(source: string, target: Game)

  function LinksOfGame(g: Game): (r: seq<Link>)
    ensures |r| == |g.genres|
    ensures forall k :: 0 <= k < |r| ==> r[k] == Link(g.genres[k], g)
  {
    seq(|g.genres|, k requires 0 <= k < |g.genres| => Link(g.genres[k], g))
  }

  /** `data.flatMap(game => game.Genres.map(genre => ({source: genre, target: game})))`. */
  function Links(data: seq<Game>): seq<Link> {
    if data == [] then [] else LinksOfGame(data[0]) + Links(data[1..])
  }

  function Sources(links: seq<Link>): (r: seq<string>)
    ensures |r| == |links|
    ensures forall k :: 0 <= k < |links| ==> r[k] == links[k].source
  {
    seq(|links|, k requires 0 <= k < |links| => links[k].source)
  }

  function Targets(links: seq<Link>): (r: seq<Game>)
    ensures |r| == |links|
    ensures forall k :: 0 <= k < |links| ==> r[k] == links[k].target
  {
    seq(|links|, k requires 0 <= k < |links| => links[k].target)
  }

  /** For each game, the game itself once per genre entry it has: the owner of
      every genre entry, laid out like the genre lists. */
  function Owners(data: seq<Game>): (r: seq<seq<Game>>)
    ensures |r| == |data|
    ensures forall i :: 0 <= i < |data| ==>
              |r[i]| == |data[i].genres| && forall k :: 0 <= k < |r[i]| ==> r[i][k] == data[i]
  {
    seq(|data|, i requires 0 <= i < |data| => seq(|data[i].genres|, _ => data[i]))
  }

  /** One link per genre entry of each game, in game-then-genre order: the
      sources spell out all genre lists one after the other, the targets are
      the games owning those entries, in the same order, and there are as many
      links as genre entries. */
  lemma {:induction false} LinksSpec(data: seq<Game>)
    ensures Sources(Links(data)) == Flatten(GenreLists(data))
    ensures Targets(Links(data)) == Flatten(Owners(data))
    ensures |Links(data)| == SumLengths(GenreLists(data))
    ensures forall k :: 0 <= k < |Links(data)| ==> Links(data)[k].source in Links(data)[k].target.genres
  {
    if data != [] {
      LinksSpec(data[1..]);
      assert GenreLists(data)[1..] == GenreLists(data[1..]);
      LinksTargets(data);
      var head := LinksOfGame(data[0]);
      var rest := Links(data[1..]);
      assert Sources(head + rest) == Sources(head) + Sources(rest);
      assert Sources(head) == data[0].genres;
      FlattenLength(GenreLists(data));
      var l := Links(data);
      forall k | 0 <= k < |l| ensures l[k].source in l[k].target.genres {
        if k >= |head| {
          assert l[k] == rest[k - |head|];
        }
      }
    }
  }

  lemma {:induction false} LinksTargets(data: seq<Game>)
    ensures Targets(Links(data)) == Flatten(Owners(data))
  {
    if data != [] {
      LinksTargets(data[1..]);
      assert Owners(data)[1..] == Owners(data[1..]);
      var head := LinksOfGame(data[0]);
      var rest := Links(data[1..]);
      assert Targets(head + rest) == Targets(head) + Targets(rest);
      assert Targets(head) == Owners(data)[0];
    }
  }

  // ------------------------------------------------------------- loading

  /** Everything the load callback computes. */
  datatype Dataset = Dataset(
    games: seq<Game>,
    popularity: seq<Entry>,
    ranking: seq<string>,
    uniqueGenres: seq<string>,
    links: seq<Link>)

  /** The record before `determineGenres`: genres parsed and collapsed. */
  function Prepare(row: Row): Game {
    row.base.(genres := CollapseMisc(ParseGenres(row.genreField)))
  }

  function PrepareAll(rows: seq<Row>): (r: seq<Game>)
    ensures |r| == |rows|
    ensures forall i :: 0 <= i < |rows| ==> r[i] == Prepare(rows[i])
  {
    seq(|rows|, i requires 0 <= i < |rows| => Prepare(rows[i]))
  }

  /** The `d3.csv` callback of js/main.js, without I/O. */
  function Load(rows: seq<Row>): Dataset {
    var prepared := PrepareAll(rows);
    var popularity := RemoveBlank(Tally(Flatten(GenreLists(prepared))));
    var ranking := Ranking(popularity);
    var games := DetermineGenres(prepared, ranking);
    Dataset(games, popularity, ranking, Dedup(Flatten(GenreLists(games))), Links(games))
  }

  /** Every genre entry of every record, in data order. */
  function AllGenres(data: seq<Game>): seq<string> {
    Flatten(GenreLists(data))
  }

  lemma {:induction false} DetermineGenresKeepsGenres(data: seq<Game>, ranking: seq<string>)
    ensures GenreLists(DetermineGenres(data, ranking)) == GenreLists(data)
  {
  }

  /** Each popularity count is the number of occurrences of its genre, with
      repetition, across all records' collapsed genre lists; the keys are those
      genres in first-occurrence order, without the blank genre. */
  lemma {:induction false} PopularitySpec(rows: seq<Row>)
    ensures Keys(Load(rows).popularity) == Filter(NonBlank, FirstOccurrences(AllGenres(Load(rows).games)))
    ensures forall k :: 0 <= k < |Load(rows).popularity| ==>
              Load(rows).popularity[k].count == multiset(AllGenres(Load(rows).games))[Load(rows).popularity[k].genre]
  {
    var prepared := PrepareAll(rows);
    var flat := AllGenres(prepared);
    var tally := Tally(flat);
    var pop := RemoveBlank(tally);
    assert Load(rows).popularity == pop;
    DetermineGenresKeepsGenres(prepared, Ranking(pop));
    assert AllGenres(Load(rows).games) == flat;
    TallyCounts(flat);
    KeysRemoveBlank(tally);
    forall k | 0 <= k < |pop| ensures pop[k].count == multiset(flat)[pop[k].genre] {
      FilterMembers(NamedEntry, tally, pop[k]);
      var m := IndexOf(tally, pop[k]);
      assert tally[m] == pop[k];
    }
  }

  lemma {:induction false} PopularityDistinct(rows: seq<Row>)
    ensures Distinct(Keys(Load(rows).popularity))
  {
    PopularitySpec(rows);
    var flat := AllGenres(Load(rows).games);
    FirstOccurrencesFacts(flat);
    FilterDistinct(NonBlank, FirstOccurrences(flat));
  }

  /** The ranking lists every non-blank genre of the data once, in non-increasing
      order of popularity, genres of equal popularity in order of first occurrence. */
  lemma {:induction false} RankingSpec(rows: seq<Row>)
    ensures forall g :: g in Load(rows).ranking <==> g in AllGenres(Load(rows).games) && g != ""
    ensures Distinct(Load(rows).ranking)
    ensures forall i, j :: 0 <= i < j < |Load(rows).ranking| ==>
              multiset(AllGenres(Load(rows).games))[Load(rows).ranking[i]]
                >= multiset(AllGenres(Load(rows).games))[Load(rows).ranking[j]]
    ensures forall i, j :: (0 <= i < j < |Load(rows).ranking|
              && multiset(AllGenres(Load(rows).games))[Load(rows).ranking[i]]
                 == multiset(AllGenres(Load(rows).games))[Load(rows).ranking[j]]) ==>
              IndexOf(AllGenres(Load(rows).games), Load(rows).ranking[i])
                < IndexOf(AllGenres(Load(rows).games), Load(rows).ranking[j])
  {
    var d := Load(rows);
    PopularitySpec(rows);
    PopularityDistinct(rows);
    assert d.ranking == Ranking(d.popularity);
    RankingOfTally(d.popularity, AllGenres(d.games));
  }

  /** The ranking of a table that tallies the non-blank genres of `flat`, stated
      against `flat` itself. */
  lemma {:induction false} RankingOfTally(pop: seq<Entry>, flat: seq<string>)
    requires Keys(pop) == Filter(NonBlank, FirstOccurrences(flat)) && Distinct(Keys(pop))
    requires forall k :: 0 <= k < |pop| ==> pop[k].count == multiset(flat)[pop[k].genre]
    ensures forall g :: g in Ranking(pop) <==> g in flat && g != ""
    ensures Distinct(Ranking(pop))
    ensures forall i, j :: 0 <= i < j < |Ranking(pop)| ==>
              multiset(flat)[Ranking(pop)[i]] >= multiset(flat)[Ranking(pop)[j]]
    ensures forall i, j :: (0 <= i < j < |Ranking(pop)|
              && multiset(flat)[Ranking(pop)[i]] == multiset(flat)[Ranking(pop)[j]]) ==>
              IndexOf(flat, Ranking(pop)[i]) < IndexOf(flat, Ranking(pop)[j])
  {
    var ranking := Ranking(pop);
    var fo := FirstOccurrences(flat);
    var s := SortByCount(pop);
    RankingOrder(pop);
    SortedCounts(pop, flat);
    forall g ensures g in ranking <==> g in flat && g != "" {
      FilterMembers(NonBlank, fo, g);
      FirstOccurrencesMembers(flat, g);
    }
    forall i, j | 0 <= i < j < |ranking| && multiset(flat)[ranking[i]] == multiset(flat)[ranking[j]]
      ensures IndexOf(flat, ranking[i]) < IndexOf(flat, ranking[j])
    {
      TieInFlat(pop, flat, i, j);
    }
  }

  /** The sorted entries carry the occurrence counts of their genres. */
  lemma {:induction false} SortedCounts(pop: seq<Entry>, flat: seq<string>)
    requires forall k :: 0 <= k < |pop| ==> pop[k].count == multiset(flat)[pop[k].genre]
    ensures |Ranking(pop)| == |pop|
    ensures forall i :: 0 <= i < |pop| ==> SortByCount(pop)[i].count == multiset(flat)[Ranking(pop)[i]]
  {
    var s := SortByCount(pop);
    forall i | 0 <= i < |s| ensures s[i].count == multiset(flat)[Ranking(pop)[i]] {
      SortedMembers(pop, s[i]);
      var m := IndexOf(pop, s[i]);
      assert pop[m] == s[i];
    }
  }

  /** Two ranked genres of equal count appear in `flat` in ranking order. */
  lemma {:induction false} TieInFlat(pop: seq<Entry>, flat: seq<string>, i: int, j: int)
    requires Keys(pop) == Filter(NonBlank, FirstOccurrences(flat)) && Distinct(Keys(pop))
    requires forall k :: 0 <= k < |pop| ==> pop[k].count == multiset(flat)[pop[k].genre]
    requires 0 <= i < j < |Ranking(pop)|
    requires multiset(flat)[Ranking(pop)[i]] == multiset(flat)[Ranking(pop)[j]]
    ensures IndexOf(flat, Ranking(pop)[i]) < IndexOf(flat, Ranking(pop)[j])
  {
    var fo := FirstOccurrences(flat);
    var x, y := Ranking(pop)[i], Ranking(pop)[j];
    SortedCounts(pop, flat);
    RankingTie(pop, i, j);
    RankingMembers(pop, x);
    RankingMembers(pop, y);
    FilterKeepsOrder(NonBlank, fo, x, y);
    FilterMembers(NonBlank, fo, x);
    FilterMembers(NonBlank, fo, y);
    FirstOccurrencesFacts(flat);
    var a, b := IndexOf(fo, x), IndexOf(fo, y);
    assert fo[a] == x && fo[b] == y;
  }

  /** Over a distinct ranking whose counts never increase, the main genre of a
      genre list is one of its ranked genres of least count (the one ranked
      last), or the top of the ranking when none of its genres is ranked. */
  lemma {:induction false} MainGenreLeast(r: seq<string>, gs: seq<string>, c: multiset<string>)
    requires Distinct(r)
    requires forall i, j :: 0 <= i < j < |r| ==> c[r[i]] >= c[r[j]]
    ensures GenreMainOf(r, gs).None? <==> r == []
    ensures GenreMainOf(r, gs).Some? ==> GenreMainOf(r, gs).value in r
    ensures forall k :: 0 <= k < |gs| && gs[k] in r ==>
              && IndexOf(r, gs[k]) <= IndexOf(r, GenreMainOf(r, gs).value)
              && c[GenreMainOf(r, gs).value] <= c[gs[k]]
    ensures r != [] && (forall k :: 0 <= k < |gs| ==> gs[k] !in r) ==> GenreMainOf(r, gs) == Some(r[0])
  {
    var m := MainGenreIndex(r, gs);
    if r != [] {
      IndexOfDistinct(r, m);
      forall k | 0 <= k < |gs| && gs[k] in r
        ensures c[r[m]] <= c[gs[k]]
      {
        var a := IndexOf(r, gs[k]);
        assert r[a] == gs[k];
        if a < m {
          assert c[r[a]] >= c[r[m]];
        }
      }
    }
  }

  /** When any genre of the list is ranked, the main genre is one of the
      list's own genres. */
  lemma {:induction false} MainGenreInRecord(r: seq<string>, gs: seq<string>)
    ensures (exists k :: 0 <= k < |gs| && gs[k] in r) ==> GenreMainOf(r, gs).Some? && GenreMainOf(r, gs).value in gs
  {
    if k :| 0 <= k < |gs| && gs[k] in r {
      var m := MainGenreIndex(r, gs);
      if m == 0 {
        assert IndexOf(r, gs[k]) == 0;
        assert r[0] == gs[k];
      } else {
        var k' :| 0 <= k' < |gs| && gs[k'] in r && IndexOf(r, gs[k']) == m;
        assert r[m] == gs[k'];
      }
    }
  }

  /** The main genre of a loaded record is one of its own genres whenever any
      of them is ranked. */
  lemma {:induction false} GenreMainInRecord(rows: seq<Row>, i: int)
    requires 0 <= i < |rows|
    ensures var g := Load(rows).games[i];
      (exists k :: 0 <= k < |g.genres| && g.genres[k] in Load(rows).ranking) ==>
        g.genreMain.Some? && g.genreMain.value in g.genres
  {
    var d := Load(rows);
    LoadedGenreMain(rows, i);
    MainGenreInRecord(d.ranking, d.games[i].genres);
  }

  /** `GenreMain` of each loaded record: its least popular ranked genre (the one
      with the largest ranking index), the most popular genre overall when none
      of its genres is ranked, and undefined only when the ranking is empty. */
  lemma {:induction false} GenreMainSpec(rows: seq<Row>, i: int)
    requires 0 <= i < |rows|
    ensures var d := Load(rows); var g := d.games[i]; var c := multiset(AllGenres(d.games));
      && (g.genreMain.None? <==> d.ranking == [])
      && (g.genreMain.Some? ==> g.genreMain.value in d.ranking)
      && (forall k :: 0 <= k < |g.genres| && g.genres[k] in d.ranking ==>
            IndexOf(d.ranking, g.genres[k]) <= IndexOf(d.ranking, g.genreMain.value)
            && c[g.genreMain.value] <= c[g.genres[k]])
      && ((d.ranking != [] && forall k :: 0 <= k < |g.genres| ==> g.genres[k] !in d.ranking)
            ==> g.genreMain == Some(d.ranking[0]))
  {
    var d := Load(rows);
    LoadedGenreMain(rows, i);
    var r, g, c := d.ranking, d.games[i], multiset(AllGenres(d.games));
    MainGenreLeast(r, g.genres, c);
    assert g.genreMain == GenreMainOf(r, g.genres);
  }

  /** A loaded record's `GenreMain` is chosen over a distinct ranking whose
      counts never increase. */
  lemma {:induction false} LoadedGenreMain(rows: seq<Row>, i: int)
    requires 0 <= i < |rows|
    ensures var d := Load(rows); var c := multiset(AllGenres(d.games));
      && i < |d.games|
      && d.games[i].genreMain == GenreMainOf(d.ranking, d.games[i].genres)
      && Distinct(d.ranking)
      && forall a, b :: 0 <= a < b < |d.ranking| ==> c[d.ranking[a]] >= c[d.ranking[b]]
  {
    RankingSpec(rows);
  }

  /** The force graph's genre nodes: every genre of every record (the blank one
      included) exactly once, in order of first occurrence. */
  lemma {:induction false} UniqueGenresSpec(rows: seq<Row>)
    ensures Distinct(Load(rows).uniqueGenres)
    ensures forall i, k :: 0 <= i < |Load(rows).games| && 0 <= k < |Load(rows).games[i].genres| ==>
              Load(rows).games[i].genres[k] in Load(rows).uniqueGenres
    ensures forall j :: 0 <= j < |Load(rows).uniqueGenres| ==> Load(rows).uniqueGenres[j] in AllGenres(Load(rows).games)
    ensures forall a, b :: 0 <= a < b < |Load(rows).uniqueGenres| ==>
              IndexOf(AllGenres(Load(rows).games), Load(rows).uniqueGenres[a])
                < IndexOf(AllGenres(Load(rows).games), Load(rows).uniqueGenres[b])
  {
    var d := Load(rows);
    var flat := AllGenres(d.games);
    assert d.uniqueGenres == Dedup(flat);
    DedupIsFirstOccurrences(flat);
    GenresInAll(d.games);
    forall i, k | 0 <= i < |d.games| && 0 <= k < |d.games[i].genres|
      ensures d.games[i].genres[k] in d.uniqueGenres
    {
      assert flat[IndexOf(flat, d.games[i].genres[k])] in d.uniqueGenres;
    }
  }

  /** Every genre of every record is among all genres. */
  lemma {:induction false} GenresInAll(data: seq<Game>)
    ensures forall i, k :: 0 <= i < |data| && 0 <= k < |data[i].genres| ==>
              data[i].genres[k] in AllGenres(data)
  {
    forall i, k | 0 <= i < |data| && 0 <= k < |data[i].genres|
      ensures data[i].genres[k] in AllGenres(data)
    {
      assert GenreLists(data)[i][k] == data[i].genres[k];
    }
  }
}

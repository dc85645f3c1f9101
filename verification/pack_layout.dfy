/** The circle-packing view of js/packLayout.js without drawing: grouping the
    records by main genre, counting each record's strongly related records,
    classifying the hierarchy's nodes, and the click handler that selects a
    game and picks the related games to connect to it. */
module PackLayout {
  import opened JsValues
  import opened Seqs
  import opened Games

  // ------------------------------------------------------------ grouping

  /** One group of the hierarchy: `{genre, children}`. */
  datatype Group = Group(genre: Option<string>, children: seq<Game>)

  /** The grouping key of every record. */
  function MainGenres(data: seq<Game>): (r: seq<Option<string>>)
    ensures |r| == |data|
    ensures forall i :: 0 <= i < |data| ==> r[i] == data[i].genreMain
  {
    seq(|data|, i requires 0 <= i < |data| => data[i].genreMain)
  }

  function GroupKeys(groups: seq<Group>): (r: seq<Option<string>>)
    ensures |r| == |groups|
    ensures forall k :: 0 <= k < |groups| ==> r[k] == groups[k].genre
  {
    seq(|groups|, k requires 0 <= k < |groups| => groups[k].genre)
  }

  function ChildLists(groups: seq<Group>): (r: seq<seq<Game>>)
    ensures |r| == |groups|
    ensures forall k :: 0 <= k < |groups| ==> r[k] == groups[k].children
  {
    seq(|groups|, k requires 0 <= k < |groups| => groups[k].children)
  }

  /** `d3.groups` taking one more record: it joins the group of its key, or
      opens a new group at the end when the key is new. */
  function AddToGroup(groups: seq<Group>, g: Game): seq<Group> {
    var k := IndexOf(GroupKeys(groups), g.genreMain);
    if k == -1 then groups + [Group(g.genreMain, [g])]
    else groups[k := groups[k].(children := groups[k].children + [g])]
  }

  /** `groupByGenreMain`: the records grouped by `GenreMain`. */
  function GroupByGenreMain(data: seq<Game>): seq<Group> {
    if data == [] then []
    else AddToGroup(GroupByGenreMain(data[..|data| - 1]), data[|data| - 1])
  }

  function HasMain(key: Option<string>): Game -> bool {
    (g: Game) => g.genreMain == key
  }

  /** Reference meaning of a grouping: one group per distinct key, in order of
      first occurrence, each holding the records with its key in data order. */
  predicate GroupedBy(groups: seq<Group>, data: seq<Game>) {
    && GroupKeys(groups) == FirstOccurrences(MainGenres(data))
    && forall k :: 0 <= k < |groups| ==> groups[k].children == Filter(HasMain(groups[k].genre), data)
  }

  lemma {:induction false} GroupByGenreMainSpec(data: seq<Game>)
    ensures GroupedBy(GroupByGenreMain(data), data)
  {
    if data != [] {
      var p := data[..|data| - 1];
      var x := data[|data| - 1];
      assert data == p + [x];
      GroupByGenreMainSpec(p);
      var gs := GroupByGenreMain(p);
      var r := AddToGroup(gs, x);
      assert r == GroupByGenreMain(data);
      assert GroupKeys(r) == FirstOccurrences(MainGenres(data)) by {
        assert MainGenres(data) == MainGenres(p) + [x.genreMain];
        AddToGroupKeys(gs, p, x);
      }
      forall k | 0 <= k < |r| ensures r[k].children == Filter(HasMain(r[k].genre), data) {
        AddToGroupChildren(gs, p, x, k);
      }
    }
  }

  lemma {:induction false} AddToGroupKeys(gs: seq<Group>, p: seq<Game>, x: Game)
    requires GroupKeys(gs) == FirstOccurrences(MainGenres(p))
    ensures GroupKeys(AddToGroup(gs, x)) == FirstOccurrences(MainGenres(p) + [x.genreMain])
  {
    FirstOccurrencesSnoc(MainGenres(p), x.genreMain);
    FirstOccurrencesMembers(MainGenres(p), x.genreMain);
  }

  lemma {:induction false} AddToGroupChildren(gs: seq<Group>, p: seq<Game>, x: Game, k: int)
    requires GroupedBy(gs, p)
    requires 0 <= k < |AddToGroup(gs, x)|
    ensures AddToGroup(gs, x)[k].children == Filter(HasMain(AddToGroup(gs, x)[k].genre), p + [x])
  {
    var r := AddToGroup(gs, x);
    var j := IndexOf(GroupKeys(gs), x.genreMain);
    var key := r[k].genre;
    FilterConcat(HasMain(key), p, [x]);
    assert Filter(HasMain(key), [x]) == if x.genreMain == key then [x] else [];
    if k < |gs| {
      assert key == gs[k].genre;
      assert r[k].children == gs[k].children + (if k == j then [x] else []);
      if k != j {
        FirstOccurrencesFacts(MainGenres(p));
        assert x.genreMain != key;
      }
    } else {
      assert j == -1 && key == x.genreMain;
      FirstOccurrencesMembers(MainGenres(p), key);
      assert forall i :: 0 <= i < |p| ==> MainGenres(p)[i] != key;
      FilterNone(HasMain(key), p);
    }
  }

  lemma {:induction false} SumLengthsSnoc<T>(ss: seq<seq<T>>, t: seq<T>)
    ensures SumLengths(ss + [t]) == SumLengths(ss) + |t|
  {
    if ss != [] {
      assert (ss + [t])[1..] == ss[1..] + [t];
      SumLengthsSnoc(ss[1..], t);
    }
  }

  lemma {:induction false} SumLengthsUpdate<T>(ss: seq<seq<T>>, k: int, t: seq<T>)
    requires 0 <= k < |ss|
    ensures SumLengths(ss[k := t]) == SumLengths(ss) - |ss[k]| + |t|
  {
    if k > 0 {
      assert ss[k := t][1..] == ss[1..][k - 1 := t];
      SumLengthsUpdate(ss[1..], k - 1, t);
    }
  }

  /** The groups hold as many records as the data, each record in the one group
      whose key is its `GenreMain`: together with `GroupByGenreMainSpec` this
      makes the grouping a partition. */
  lemma {:induction false} GroupSizes(data: seq<Game>)
    ensures SumLengths(ChildLists(GroupByGenreMain(data))) == |data|
  {
    if data != [] {
      var p := data[..|data| - 1];
      var x := data[|data| - 1];
      GroupSizes(p);
      var gs := GroupByGenreMain(p);
      var k := IndexOf(GroupKeys(gs), x.genreMain);
      if k == -1 {
        assert ChildLists(gs + [Group(x.genreMain, [x])]) == ChildLists(gs) + [[x]];
        SumLengthsSnoc(ChildLists(gs), [x]);
      } else {
        var g' := gs[k].(children := gs[k].children + [x]);
        assert ChildLists(gs[k := g']) == ChildLists(gs)[k := g'.children];
        SumLengthsUpdate(ChildLists(gs), k, g'.children);
      }
    }
  }

  /** Each record lies in exactly one group: the group keys are distinct, the
      record's key is one of them, and a group holds a record iff the record
      carries the group's key. */
  lemma {:induction false} GroupPartition(data: seq<Game>)
    ensures Distinct(GroupKeys(GroupByGenreMain(data)))
    ensures forall i :: 0 <= i < |data| ==> data[i].genreMain in GroupKeys(GroupByGenreMain(data))
    ensures forall k, x :: 0 <= k < |GroupByGenreMain(data)| ==>
              (x in GroupByGenreMain(data)[k].children <==> x in data && x.genreMain == GroupByGenreMain(data)[k].genre)
  {
    var gs := GroupByGenreMain(data);
    GroupByGenreMainSpec(data);
    FirstOccurrencesFacts(MainGenres(data));
    forall i | 0 <= i < |data| ensures data[i].genreMain in GroupKeys(gs) {
      assert MainGenres(data)[i] == data[i].genreMain;
    }
    forall k, x | 0 <= k < |gs|
      ensures x in gs[k].children <==> x in data && x.genreMain == gs[k].genre
    {
      FilterMembers(HasMain(gs[k].genre), data, x);
    }
  }

  // ---------------------------------------------------- well-linked records

  /** The number of positions of `ds` naming a genre that `es` includes. */
  function MatchingGenres(ds: seq<string>, es: seq<string>): (r: nat)
    ensures r <= |ds|
  {
    if ds == [] then 0
    else MatchingGenres(ds[..|ds| - 1], es) + (if ds[|ds| - 1] in es then 1 else 0)
  }

  function InList(es: seq<string>): string -> bool {
    g => g in es
  }

  /** Counting matches position by position is the length of
      `ds.filter(g => es.includes(g))`. */
  lemma {:induction false} MatchingGenresFilter(ds: seq<string>, es: seq<string>)
    ensures MatchingGenres(ds, es) == |Filter(InList(es), ds)|
  {
    if ds != [] {
      var p := ds[..|ds| - 1];
      assert ds == p + [ds[|ds| - 1]];
      MatchingGenresFilter(p, es);
      FilterConcat(InList(es), p, [ds[|ds| - 1]]);
    }
  }

  /** Record `j` is strongly related to record `i`: a different record in which
      more than 2 positions of `i`'s genres are found. */
  predicate StrongLink(data: seq<Game>, i: int, j: int)
    requires 0 <= i < |data| && 0 <= j < |data|
  {
    j != i && MatchingGenres(data[i].genres, data[j].genres) > 2
  }

  /** The number of records below `n` strongly related to record `i`. */
  function CountLinks(data: seq<Game>, i: int, n: int): (r: nat)
    requires 0 <= i < |data| && 0 <= n <= |data|
  {
    if n == 0 then 0
    else CountLinks(data, i, n - 1) + (if StrongLink(data, i, n - 1) then 1 else 0)
  }

  /** `relatedGames` of record `i`. */
  function RelatedCount(data: seq<Game>, i: int): nat
    requires 0 <= i < |data|
  {
    CountLinks(data, i, |data|)
  }

  lemma {:induction false} CountLinksSet(data: seq<Game>, i: int, n: int)
    requires 0 <= i < |data| && 0 <= n <= |data|
    ensures CountLinks(data, i, n) == |set j | 0 <= j < n && StrongLink(data, i, j)|
    ensures CountLinks(data, i, n) <= if i < n then n - 1 else n
  {
    if n > 0 {
      CountLinksSet(data, i, n - 1);
      var below := set j | 0 <= j < n - 1 && StrongLink(data, i, j);
      var upTo := set j | 0 <= j < n && StrongLink(data, i, j);
      if StrongLink(data, i, n - 1) {
        assert upTo == below + {n - 1};
      } else {
        assert upTo == below;
      }
    }
  }

  /** `relatedGames` counts the records strongly related to the record, so it
      is at most the number of other records. */
  lemma {:induction false} RelatedCountSpec(data: seq<Game>, i: int)
    requires 0 <= i < |data|
    ensures RelatedCount(data, i) == |set j | 0 <= j < |data| && StrongLink(data, i, j)|
    ensures RelatedCount(data, i) <= |data| - 1
  {
    CountLinksSet(data, i, |data|);
  }

  /** The records `getWellLinked` returns: more than 2 genres and at least one
      strongly related record. */
  predicate WellLinked(data: seq<Game>, i: int)
    requires 0 <= i < |data|
  {
    |data[i].genres| > 2 && RelatedCount(data, i) >= 1
  }

  function WellLinkedAt(data: seq<Game>): nat -> bool {
    (i: nat) => i < |data| && WellLinked(data, i)
  }

  /** A record as `getWellLinked` leaves it. */
  function Linked(data: seq<Game>, i: int): Game
    requires 0 <= i < |data|
  {
    if |data[i].genres| > 2 then data[i].(relatedGames := Some(RelatedCount(data, i))) else data[i]
  }

  /** `getWellLinked`: sets `relatedGames` on every record with more than 2
      genres and returns the records that have a strongly related record, as
      positions in the data (the source compares records by identity). */
  method GetWellLinked(data: seq<Game>) returns (updated: seq<Game>, linked: seq<nat>)
    ensures |updated| == |data|
    ensures forall i :: 0 <= i < |data| && |data[i].genres| > 2 ==>
              updated[i] == data[i].(relatedGames := Some(RelatedCount(data, i)))
    ensures forall i :: 0 <= i < |data| && |data[i].genres| <= 2 ==> updated[i] == data[i]
    ensures forall x :: x in linked <==> 0 <= x < |data| && |data[x].genres| > 2 && RelatedCount(data, x) >= 1
    ensures forall a, b :: 0 <= a < b < |linked| ==> linked[a] < linked[b]
  {
    updated := data;
    linked := [];
    var i := 0;
    while i < |data|
      invariant 0 <= i <= |data|
      invariant |updated| == |data|
      invariant forall k :: 0 <= k < i ==> updated[k] == Linked(data, k)
      invariant forall k :: i <= k < |data| ==> updated[k] == data[k]
      invariant linked == IndicesWhere(WellLinkedAt(data), i)
    {
      if |data[i].genres| > 2 {
        var matchCount;
        matchCount, linked := ScanLinks(data, i, linked);
        updated := updated[i := data[i].(relatedGames := Some(matchCount))];
      }
      assert updated[i] == Linked(data, i);
      assert WellLinkedAt(data)(i) <==> |data[i].genres| > 2 && RelatedCount(data, i) >= 1;
      i := i + 1;
    }
    IndicesWhereSpec(WellLinkedAt(data), |data|);
  }

  /** The loop over the other records for record `i`: counts the strongly
      related ones and pushes `i` onto `linked` at the first of them. */
  method ScanLinks(data: seq<Game>, i: nat, linked: seq<nat>) returns (matchCount: nat, linked': seq<nat>)
    requires i < |data|
    ensures matchCount == RelatedCount(data, i)
    ensures linked' == linked + (if matchCount > 0 then [i] else [])
  {
    matchCount := 0;
    linked' := linked;
    var j := 0;
    while j < |data|
      invariant 0 <= j <= |data|
      invariant matchCount == CountLinks(data, i, j)
      invariant linked' == linked + (if matchCount > 0 then [i] else [])
    {
      if j != i {
        var matching := CountMatching(data[i].genres, data[j].genres);
        if matching > 2 {
          // a record is pushed on its first strong link only
          if matchCount == 0 {
            linked' := linked' + [i];
          }
          matchCount := matchCount + 1;
        }
      }
      j := j + 1;
    }
  }

  /** The innermost loop: how many positions of `ds` hold a genre `es` includes. */
  method CountMatching(ds: seq<string>, es: seq<string>) returns (matching: nat)
    ensures matching == MatchingGenres(ds, es)
  {
    matching := 0;
    var k := 0;
    while k < |ds|
      invariant 0 <= k <= |ds|
      invariant matching == MatchingGenres(ds[..k], es)
    {
      assert ds[..k + 1][..k] == ds[..k];
      if ds[k] in es {
        matching := matching + 1;
      }
      k := k + 1;
    }
    assert ds[..k] == ds;
  }

  // ------------------------------------------------------- hierarchy nodes

  /** The data object behind a node of the packed hierarchy: the root
      `{children}`, a group `{genre, children}`, or a game record. */
  datatype PackNode = Outer | GenreGroup(group: Group) | Leaf(game: Game)

  /** The own properties of a node's data object that the view looks up. A game
      record always has `GenreMain` once the main genres are determined, even
      when its value is undefined; `relatedGames` and `isClicked` only once set. */
  function OwnProperties(n: PackNode): set<string> {
    match n
    case Outer => {"children"}
    case GenreGroup(_) => {"genre", "children"}
    case Leaf(g) =>
      {"title", "Genres", "GenreMain", "Peak_CCU"}
      + (if g.relatedGames.Some? then {"relatedGames"} else {})
      + (if g.isClicked.Some? then {"isClicked"} else {})
  }

  /** The `class` attribute, decided by the `hasOwnProperty` chain; it tells the
      three kinds of node apart exactly. */
  function NodeClass(n: PackNode): (r: string)
    ensures r == "node" <==> n.Leaf?
    ensures r == "genreGroup" <==> n.GenreGroup?
    ensures r == "outerGroup" <==> n.Outer?
  {
    var props := OwnProperties(n);
    if "GenreMain" in props then "node"
    else if "genre" in props then "genreGroup"
    else "outerGroup"
  }

  /** The genres a node's data carries; only game records have them. */
  function NodeGenres(n: PackNode): seq<string> {
    if n.Leaf? then n.game.genres else []
  }

  /** The `stroke-width` attribute: thick for indie games, thin for other games,
      1 for genre groups and none for the root. */
  function StrokeWidth(n: PackNode): (w: real)
    ensures n.Leaf? && "Indie" in n.game.genres ==> w == 2.0
    ensures n.Leaf? && "Indie" !in n.game.genres ==> w == 0.5
    ensures n.GenreGroup? ==> w == 1.0
    ensures n.Outer? ==> w == 0.0
  {
    var props := OwnProperties(n);
    if "Genres" in props then (if "Indie" in NodeGenres(n) then 2.0 else 0.5)
    else if "genre" in props then 1.0
    else 0.0
  }

  /** `Peak_CCU` as the comparison sees it: undefined, hence NaN, off games. */
  function PeakCcu(n: PackNode): Num {
    if n.Leaf? then n.game.peakCcu else None
  }

  const LabelThreshold: real := 100000.0

  predicate HasLabel(n: PackNode) {
    PeakCcu(n).Some? && PeakCcu(n).value > LabelThreshold
  }

  /** The nodes that get a text label. */
  function Labelled(nodes: seq<PackNode>): seq<PackNode> {
    Filter(HasLabel, nodes)
  }

  /** Exactly the games whose peak concurrent players exceed 100000 are
      labelled, in node order. */
  lemma {:induction false} LabelledSpec(nodes: seq<PackNode>, n: PackNode)
    ensures n in Labelled(nodes) <==> n in nodes && n.Leaf? && n.game.peakCcu.Some? && n.game.peakCcu.value > 100000.0
    ensures IsSubsequence(Labelled(nodes), nodes)
    ensures multiset(Labelled(nodes))[n] ==
              if n.Leaf? && n.game.peakCcu.Some? && n.game.peakCcu.value > 100000.0 then multiset(nodes)[n] else 0
  {
    FilterMembers(HasLabel, nodes, n);
    FilterIsSubsequence(HasLabel, nodes);
    FilterMultiset(HasLabel, nodes, n);
  }

  // --------------------------------------------------------------- clicks

  /** Node `j` is related to the clicked node `c` with genres `clicked`: another
      game more than 2 of whose genres the clicked game also has. */
  predicate IsRelated(nodes: seq<PackNode>, c: int, clicked: seq<string>, j: nat) {
    j < |nodes| && j != c && nodes[j].Leaf? && |Filter(InList(clicked), nodes[j].game.genres)| > 2
  }

  function RelatedAt(nodes: seq<PackNode>, c: int, clicked: seq<string>): nat -> bool {
    (j: nat) => IsRelated(nodes, c, clicked, j)
  }

  /** The related set of a click, as positions in the node list in node order.
      Each node is visited once, so the source's `includes` test never fires. */
  function Related(nodes: seq<PackNode>, c: int, clicked: seq<string>): seq<nat> {
    IndicesWhere(RelatedAt(nodes, c, clicked), |nodes|)
  }

  lemma {:induction false} RelatedSpec(nodes: seq<PackNode>, c: int, clicked: seq<string>)
    ensures forall j: nat :: j in Related(nodes, c, clicked) <==>
              j < |nodes| && j != c && nodes[j].Leaf? && |Filter(InList(clicked), nodes[j].game.genres)| > 2
    ensures Distinct(Related(nodes, c, clicked))
  {
    IndicesWhereSpec(RelatedAt(nodes, c, clicked), |nodes|);
  }

  /** `Math.floor(Math.random() * (i + 1))`. */
  function Draw(random: real, i: nat): (k: nat)
    requires 0.0 <= random < 1.0
    ensures k <= i
  {
    var x := random * (i + 1) as real;
    ProductBelow(random, (i + 1) as real);
    x.Floor
  }

  lemma {:induction false} ProductBelow(a: real, b: real)
    requires 0.0 <= a < 1.0 && b > 0.0
    ensures 0.0 <= a * b < b
  {
    assert b - a * b == (1.0 - a) * b;
    assert (1.0 - a) * b > 0.0;
  }

  /** The Fisher-Yates loop of the click handler from position `i` down to 1;
      `random(t)` is the value of the `t`-th call of `Math.random`. */
  function ShuffleDown<T>(s: seq<T>, i: int, random: nat -> real): (r: seq<T>)
    requires i < |s|
    requires forall t: nat :: 0.0 <= random(t) < 1.0
    ensures |r| == |s|
    ensures multiset(r) == multiset(s)
    decreases i
  {
    if i <= 0 then s
    else
      var j := Draw(random(|s| - 1 - i), i);
      var swapped := s[i := s[j]][j := s[i]];
      assert multiset(swapped) == multiset(s) by {
        SwapMultiset(s, i, j);
      }
      ShuffleDown(swapped, i - 1, random)
  }

  lemma {:induction false} SwapMultiset<T>(s: seq<T>, i: int, j: int)
    requires 0 <= i < |s| && 0 <= j < |s|
    ensures multiset(s[i := s[j]][j := s[i]]) == multiset(s)
  {
    if i != j {
      var t := s[i := s[j]];
      assert multiset(t) == multiset(s) - multiset{s[i]} + multiset{s[j]};
      assert multiset(t[j := s[i]]) == multiset(t) - multiset{t[j]} + multiset{s[i]};
    }
  }

  function Shuffle<T>(s: seq<T>, random: nat -> real): (r: seq<T>)
    requires forall t: nat :: 0.0 <= random(t) < 1.0
  {
    ShuffleDown(s, |s| - 1, random)
  }

  /** The shuffle reorders the related set without losing, adding or repeating
      a node, whatever values the random source yields. */
  lemma {:induction false} ShufflePermutes<T>(s: seq<T>, random: nat -> real)
    requires forall t: nat :: 0.0 <= random(t) < 1.0
    ensures |Shuffle(s, random)| == |s|
    ensures multiset(Shuffle(s, random)) == multiset(s)
    ensures Distinct(s) ==> Distinct(Shuffle(s, random))
  {
    if Distinct(s) {
      PermutationDistinct(s, Shuffle(s, random));
    }
  }

  /** `related.splice(5)` keeps at most this many lines. */
  const MaxLines := 5

  /** `xs.splice(n)` on the array, seen through what remains. */
  function KeepFirst<T>(s: seq<T>, n: nat): (r: seq<T>)
    ensures |r| == if |s| <= n then |s| else n
    ensures r == s[..|r|]
    ensures |s| <= n ==> r == s
  {
    if |s| <= n then s else s[..n]
  }

  /** What a click does besides toggling `isClicked`. */
  datatype Click =
    | Ignored               // the node has no `isClicked` property
    | Selected(lines: seq<nat>)  // lines drawn to these nodes
    | Deselected            // every line removed

  datatype ClickResult = ClickResult(nodes: seq<PackNode>, click: Click)

  /** A game node that carries an `isClicked` property. */
  predicate Clickable(n: PackNode) {
    n.Leaf? && n.game.isClicked.Some?
  }

  /** `clickedEvent` on node `c` of `nodes`: it flips `isClicked` of a
      clickable game, selecting it when it was not selected, and changes no
      other node; a node without the property is ignored. */
  function ClickedEvent(nodes: seq<PackNode>, c: int, random: nat -> real): (r: ClickResult)
    requires 0 <= c < |nodes|
    requires forall t: nat :: 0.0 <= random(t) < 1.0
    ensures |r.nodes| == |nodes|
    ensures forall k :: 0 <= k < |nodes| && k != c ==> r.nodes[k] == nodes[k]
    ensures r.click.Ignored? <==> !Clickable(nodes[c])
    ensures r.click.Ignored? ==> r.nodes == nodes
    ensures Clickable(nodes[c]) ==>
              r.nodes[c] == Leaf(nodes[c].game.(isClicked := Some(!nodes[c].game.isClicked.value)))
    ensures r.click.Selected? <==> Clickable(nodes[c]) && !nodes[c].game.isClicked.value
  {
    var n := nodes[c];
    if !Clickable(n) then ClickResult(nodes, Ignored)
    else if !n.game.isClicked.value then
      var lines := KeepFirst(Shuffle(Related(nodes, c, n.game.genres), random), MaxLines);
      ClickResult(nodes[c := Leaf(n.game.(isClicked := Some(true)))], Selected(lines))
    else
      ClickResult(nodes[c := Leaf(n.game.(isClicked := Some(false)))], Deselected)
  }

  /** Selecting draws at most 5 lines, each to a distinct related game, and to
      every related game when there are at most 5. */
  lemma {:induction false} ClickedLines(nodes: seq<PackNode>, c: int, random: nat -> real)
    requires 0 <= c < |nodes|
    requires forall t: nat :: 0.0 <= random(t) < 1.0
    requires Clickable(nodes[c]) && !nodes[c].game.isClicked.value
    ensures ClickedEvent(nodes, c, random).click.Selected?
    ensures var lines := ClickedEvent(nodes, c, random).click.lines;
      && |lines| == (if |Related(nodes, c, nodes[c].game.genres)| <= MaxLines
                     then |Related(nodes, c, nodes[c].game.genres)| else MaxLines)
      && Distinct(lines)
      && (forall k :: 0 <= k < |lines| ==> IsRelated(nodes, c, nodes[c].game.genres, lines[k]))
      && (|Related(nodes, c, nodes[c].game.genres)| <= MaxLines ==>
            multiset(lines) == multiset(Related(nodes, c, nodes[c].game.genres)))
  {
    var clicked := nodes[c].game.genres;
    var related := Related(nodes, c, clicked);
    var shuffled := Shuffle(related, random);
    var lines := ClickedEvent(nodes, c, random).click.lines;
    assert lines == KeepFirst(shuffled, MaxLines);
    RelatedSpec(nodes, c, clicked);
    ShufflePermutes(related, random);
    PrefixOfPermutation(related, shuffled, MaxLines);
    forall k | 0 <= k < |lines| ensures IsRelated(nodes, c, clicked, lines[k]) {
      assert lines[k] in related;
    }
  }

  /** The first `n` elements of a permutation of a sequence without repetitions
      are distinct elements of it, and all of it when it has at most `n`. */
  lemma {:induction false} PrefixOfPermutation<T>(s: seq<T>, t: seq<T>, n: nat)
    requires Distinct(s) && multiset(t) == multiset(s)
    ensures Distinct(KeepFirst(t, n))
    ensures forall k :: 0 <= k < |KeepFirst(t, n)| ==> KeepFirst(t, n)[k] in s
    ensures |s| <= n ==> multiset(KeepFirst(t, n)) == multiset(s)
  {
    PermutationDistinct(s, t);
    var r := KeepFirst(t, n);
    forall k | 0 <= k < |r| ensures r[k] in s {
      assert r[k] == t[k];
      assert t[k] in multiset(t);
    }
    assert |t| == |s| by {
      assert |multiset(t)| == |multiset(s)|;
    }
  }

  /** Clicking the same node twice leaves every node as it was. */
  lemma {:induction false} ClickTwice(nodes: seq<PackNode>, c: int, random: nat -> real, random': nat -> real)
    requires 0 <= c < |nodes|
    requires forall t: nat :: 0.0 <= random(t) < 1.0
    requires forall t: nat :: 0.0 <= random'(t) < 1.0
    ensures ClickedEvent(ClickedEvent(nodes, c, random).nodes, c, random').nodes == nodes
  {
    var once := ClickedEvent(nodes, c, random).nodes;
    if Clickable(nodes[c]) {
      assert once[c].game == nodes[c].game.(isClicked := Some(!nodes[c].game.isClicked.value));
      assert once[c := nodes[c]] == nodes;
    }
  }
}

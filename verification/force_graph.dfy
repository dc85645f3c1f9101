/** The force-directed graph of js/forceGraph.js without the simulation: which
    nodes it draws as genres and as games, which of those it keeps, the games a
    genre click selects, and how drawn positions are kept inside the chart. */
module ForceGraph {
  import opened JsValues
  import opened Seqs
  import opened Games
  import opened Normalizer

  const ContainerWidth := 800
  const ContainerHeight := 600
  const MarginTop := 25
  const MarginRight := 20
  const MarginBottom := 20
  const MarginLeft := 35

  /** The inner chart size: the container less its margins, 745 by 555. */
  function InnerSize(): (r: (int, int))
    ensures r == (745, 555)
  {
    (ContainerWidth - MarginLeft - MarginRight, ContainerHeight - MarginTop - MarginBottom)
  }

  /** A node of the graph: a genre object `{id: genre}` or a game record. */
  datatype GraphNode = GenreNode(id: string) | GameNode(game: Game)

  function GenreNodes(genres: seq<string>): (r: seq<GraphNode>)
    ensures |r| == |genres|
    ensures forall k :: 0 <= k < |genres| ==> r[k] == GenreNode(genres[k])
  {
    seq(|genres|, k requires 0 <= k < |genres| => GenreNode(genres[k]))
  }

  function GameNodes(games: seq<Game>): (r: seq<GraphNode>)
    ensures |r| == |games|
    ensures forall k :: 0 <= k < |games| ==> r[k] == GameNode(games[k])
  {
    seq(|games|, k requires 0 <= k < |games| => GameNode(games[k]))
  }

  /** `[...uniqueGenres, ...data]` as built after loading. */
  function InitialNodes(d: Dataset): seq<GraphNode> {
    GenreNodes(d.uniqueGenres) + GameNodes(d.games)
  }

  /** `node.Genres && node.Genres.length > 0`: a record with at least one genre. */
  predicate HasGenres(n: GraphNode) {
    n.GameNode? && |n.game.genres| > 0
  }

  predicate LacksGenres(n: GraphNode) {
    !HasGenres(n)
  }

  /** The two lists `initVis` builds: nodes without genres (the genre objects,
      and any record whose genre list is empty) and nodes with genres. */
  datatype Partition = Partition(genres: seq<GraphNode>, games: seq<GraphNode>)

  function Split(nodes: seq<GraphNode>): Partition {
    Partition(Filter(LacksGenres, nodes), Filter(HasGenres, nodes))
  }

  lemma {:induction false} SplitMultiset(nodes: seq<GraphNode>)
    ensures multiset(Split(nodes).genres) + multiset(Split(nodes).games) == multiset(nodes)
  {
    if nodes != [] {
      SplitMultiset(nodes[1..]);
      assert nodes == [nodes[0]] + nodes[1..];
    }
  }

  /** The split is a partition: every node lands in exactly one list, as many
      times as it occurs, and each list keeps the node order. */
  lemma {:induction false} SplitSpec(nodes: seq<GraphNode>, n: GraphNode)
    ensures n in Split(nodes).genres <==> n in nodes && !HasGenres(n)
    ensures n in Split(nodes).games <==> n in nodes && HasGenres(n)
    ensures multiset(Split(nodes).genres) + multiset(Split(nodes).games) == multiset(nodes)
    ensures IsSubsequence(Split(nodes).genres, nodes) && IsSubsequence(Split(nodes).games, nodes)
  {
    FilterMembers(LacksGenres, nodes, n);
    FilterMembers(HasGenres, nodes, n);
    SplitMultiset(nodes);
    FilterIsSubsequence(LacksGenres, nodes);
    FilterIsSubsequence(HasGenres, nodes);
  }

  /** On the loaded data the genre list holds every genre object and, after
      them, any record whose genre list is empty; the game list holds the
      records with genres. */
  lemma {:induction false} InitialSplit(d: Dataset)
    ensures Split(InitialNodes(d)).genres == GenreNodes(d.uniqueGenres) + Filter(LacksGenres, GameNodes(d.games))
    ensures Split(InitialNodes(d)).games == Filter(HasGenres, GameNodes(d.games))
  {
    var gn := GenreNodes(d.uniqueGenres);
    FilterConcat(LacksGenres, gn, GameNodes(d.games));
    FilterConcat(HasGenres, gn, GameNodes(d.games));
    FilterAll(LacksGenres, gn);
    FilterNone(HasGenres, gn);
  }

  /** The node's `id`: a genre object's is its genre, a record's its `id` column. */
  function NodeId(n: GraphNode): Option<string> {
    if n.GenreNode? then Some(n.id) else n.game.id
  }

  /** `d.id !== undefined && d.id !== null && d.id !== ""`. */
  predicate HasId(n: GraphNode) {
    NodeId(n).Some? && NodeId(n).value != ""
  }

  /** `updateVis`: both lists lose the nodes without a usable id. */
  function UpdateVis(p: Partition): (r: Partition)
    ensures |r.genres| <= |p.genres| && |r.games| <= |p.games|
  {
    Partition(Filter(HasId, p.genres), Filter(HasId, p.games))
  }

  /** The nodes handed to the simulation: genres first, then games. */
  function AllNodes(p: Partition): seq<GraphNode> {
    p.genres + p.games
  }

  /** After `updateVis` every simulated node has a non-empty id, and a node is
      simulated iff it was in one of the lists and has one; running `updateVis`
      again, as the loader does, changes nothing. */
  lemma {:induction false} UpdateVisSpec(p: Partition, n: GraphNode)
    ensures forall k :: 0 <= k < |AllNodes(UpdateVis(p))| ==> HasId(AllNodes(UpdateVis(p))[k])
    ensures n in AllNodes(UpdateVis(p)) <==> (n in p.genres || n in p.games) && HasId(n)
    ensures UpdateVis(UpdateVis(p)) == UpdateVis(p)
    ensures n in UpdateVis(p).genres <==> n in p.genres && HasId(n)
    ensures n in UpdateVis(p).games <==> n in p.games && HasId(n)
    ensures IsSubsequence(UpdateVis(p).genres, p.genres) && IsSubsequence(UpdateVis(p).games, p.games)
    ensures multiset(UpdateVis(p).genres)[n] == if HasId(n) then multiset(p.genres)[n] else 0
    ensures multiset(UpdateVis(p).games)[n] == if HasId(n) then multiset(p.games)[n] else 0
  {
    var r := UpdateVis(p);
    FilterIsSubsequence(HasId, p.genres);
    FilterIsSubsequence(HasId, p.games);
    FilterMultiset(HasId, p.genres, n);
    FilterMultiset(HasId, p.games, n);
    FilterMembers(HasId, p.genres, n);
    FilterMembers(HasId, p.games, n);
    forall k | 0 <= k < |AllNodes(r)| ensures HasId(AllNodes(r)[k]) {
      var m := AllNodes(r)[k];
      assert m in r.genres || m in r.games;
      FilterMembers(HasId, p.genres, m);
      FilterMembers(HasId, p.games, m);
    }
    FilterAfterWeaker(HasId, HasId, p.genres);
    FilterAfterWeaker(HasId, HasId, p.games);
  }

  /** The graph's state after construction: split, then `updateVis`. */
  function InitVis(nodes: seq<GraphNode>): Partition {
    UpdateVis(Split(nodes))
  }

  /** What the graph simulates after loading: as genres, the genre objects and
      the records without genres; as games, the records with genres; in both
      only the nodes with a non-empty id, which rules out the blank genre. */
  lemma {:induction false} InitVisSpec(d: Dataset, n: GraphNode)
    ensures (n in InitVis(InitialNodes(d)).genres)
              <==> (n in GenreNodes(d.uniqueGenres) || (n in GameNodes(d.games) && !HasGenres(n))) && HasId(n)
    ensures n in InitVis(InitialNodes(d)).games <==> n in GameNodes(d.games) && HasGenres(n) && HasId(n)
    ensures forall k :: 0 <= k < |AllNodes(InitVis(InitialNodes(d)))| ==> HasId(AllNodes(InitVis(InitialNodes(d)))[k])
    ensures IsSubsequence(InitVis(InitialNodes(d)).genres, Split(InitialNodes(d)).genres)
    ensures IsSubsequence(InitVis(InitialNodes(d)).games, Split(InitialNodes(d)).games)
    ensures multiset(InitVis(InitialNodes(d)).genres)[n] ==
              if HasId(n) then multiset(Split(InitialNodes(d)).genres)[n] else 0
    ensures multiset(InitVis(InitialNodes(d)).games)[n] ==
              if HasId(n) then multiset(Split(InitialNodes(d)).games)[n] else 0
  {
    var gn, ga := GenreNodes(d.uniqueGenres), GameNodes(d.games);
    var p := Split(InitialNodes(d));
    InitialSplit(d);
    UpdateVisSpec(p, n);
    FilterMembers(HasId, p.genres, n);
    FilterMembers(HasId, p.games, n);
    FilterMembers(LacksGenres, ga, n);
    FilterMembers(HasGenres, ga, n);
    if n in gn {
      var k :| 0 <= k < |gn| && gn[k] == n;
      assert !HasGenres(n);
    }
  }

  function SelectsGenre(genreId: string): GraphNode -> bool {
    (n: GraphNode) => n.GameNode? && genreId in n.game.genres && n.game.appId != ""
  }

  /** `filterDataByGenre`: the records, among all original nodes, that list the
      genre and have an `app_id`. */
  function FilterByGenre(nodes: seq<GraphNode>, genreId: string): seq<GraphNode> {
    Filter(SelectsGenre(genreId), nodes)
  }

  /** A genre click keeps exactly the records having that genre and an
      `app_id`, in node order; no genre node survives it. */
  lemma {:induction false} FilterByGenreSpec(nodes: seq<GraphNode>, genreId: string, n: GraphNode)
    ensures n in FilterByGenre(nodes, genreId) <==>
              n in nodes && n.GameNode? && genreId in n.game.genres && n.game.appId != ""
    ensures forall k :: 0 <= k < |FilterByGenre(nodes, genreId)| ==> FilterByGenre(nodes, genreId)[k].GameNode?
    ensures IsSubsequence(FilterByGenre(nodes, genreId), nodes)
    ensures multiset(FilterByGenre(nodes, genreId))[n] ==
              if n.GameNode? && genreId in n.game.genres && n.game.appId != "" then multiset(nodes)[n] else 0
  {
    var r := FilterByGenre(nodes, genreId);
    FilterMembers(SelectsGenre(genreId), nodes, n);
    forall k | 0 <= k < |r| ensures r[k].GameNode? {
      FilterMembers(SelectsGenre(genreId), nodes, r[k]);
    }
    FilterIsSubsequence(SelectsGenre(genreId), nodes);
    FilterMultiset(SelectsGenre(genreId), nodes, n);
  }

  /** `Math.max(0, Math.min(w, x))`; a NaN position stays NaN. */
  function Clamp(w: real, x: Num): (r: Num)
    ensures r.None? <==> x.None?
    ensures r.Some? ==> r.value >= 0.0
    ensures r.Some? && w >= 0.0 ==> r.value <= w
    ensures x.Some? && 0.0 <= x.value <= w ==> r == x
    ensures x.Some? && x.value < 0.0 <= w ==> r == Some(0.0)
    ensures x.Some? && 0.0 <= w < x.value ==> r == Some(w)
  {
    match x
    case None => None
    case Some(v) =>
      var m := if w <= v then w else v;
      Some(if 0.0 >= m then 0.0 else m)
  }

  /** Clamping a clamped position changes nothing. */
  lemma {:induction false} ClampIdempotent(w: real, x: Num)
    requires w >= 0.0
    ensures Clamp(w, Clamp(w, x)) == Clamp(w, x)
  {
  }

  /** Where a game node and its label are drawn: its simulated position pulled
      into the inner chart area. */
  function DrawnPosition(x: Num, y: Num): (r: (Num, Num))
    ensures r.0.Some? ==> 0.0 <= r.0.value <= InnerSize().0 as real
    ensures r.1.Some? ==> 0.0 <= r.1.value <= InnerSize().1 as real
    ensures r.0.None? <==> x.None?
    ensures r.1.None? <==> y.None?
  {
    (Clamp(InnerSize().0 as real, x), Clamp(InnerSize().1 as real, y))
  }
}

/** The record every view works on: one game of the catalogue after loading. */
module Games {
  import opened JsValues

  /** A game record. Fields the core never reads (developers, languages,
      playtime, ...) are left out. Text columns use "" for an absent value,
      which JavaScript treats as falsy just as it does `undefined`. */
  datatype Game = Game(
    id: Option<string>,         // `id`; None when undefined or null
    appId: string,              // `app_id`
    title: string,              // `title`
    genres: seq<string>,        // `Genres`, after normalisation
    genreMain: Option<string>,  // `GenreMain`; None when undefined
    rating: string,             // `rating`
    releaseDate: Option<int>,   // `Release date` as a time value; None when invalid
    price: Num,                 // `price`
    metacritic: Num,            // `metacritic_score`
    peakCcu: Num,               // `Peak_CCU`
    relatedGames: Option<nat>,  // `relatedGames`; None until getWellLinked sets it
    isClicked: Option<bool>     // `isClicked`; None when the property is absent
  )

  /** The genre list of every game, in data order. */
  function GenreLists(data: seq<Game>): (r: seq<seq<string>>)
    ensures |r| == |data|
    ensures forall i :: 0 <= i < |data| ==> r[i] == data[i].genres
  {
    seq(|data|, i requires 0 <= i < |data| => data[i].genres)
  }
}

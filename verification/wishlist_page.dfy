/** The wishlist page: one catalog lookup per stored id joined into a
    single outcome, the cards (or the empty notice, or the error banner),
    the genre line of each card, and the remove button. */
module WishlistPage {
  import opened Basics
  import opened Seqs
  import opened Text
  import opened Catalog
  import opened WishlistStore
  import Browse

  /** Promise.all over the lookups: the records in lookup order when every
      lookup succeeded, otherwise a failure with no partial list. */
  function Aggregate(results: seq<Result<Book>>): (r: Result<seq<Book>>)
    ensures r.Ok? <==> forall i :: 0 <= i < |results| ==> results[i].Ok?
    ensures r.Ok? ==> (|r.value| == |results| &&
                       forall i :: 0 <= i < |results| ==> r.value[i] == results[i].value)
    decreases |results|
  {
    if |results| == 0 then Ok([])
    else
      match results[0]
      case Failed => Failed
      case Ok(b) =>
        match Aggregate(results[1..])
        case Failed =>
          assert !results[1..][0].Ok? || exists i :: 0 <= i < |results[1..]| && !results[1..][i].Ok?;
          Failed
        case Ok(rest) => Ok([b] + rest)
  }

  /** One lookup per wishlist id, in wishlist order. The network request is
      a parameter: `lookup(id)` is what fetching that id yields. */
  function FetchAll(w: seq<int>, lookup: int -> Result<Book>): (r: Result<seq<Book>>)
    ensures r.Ok? <==> forall i :: 0 <= i < |w| ==> lookup(w[i]).Ok?
    ensures r.Ok? ==> (|r.value| == |w| &&
                       forall i :: 0 <= i < |w| ==> r.value[i] == lookup(w[i]).value)
  {
    var results := seq(|w|, i requires 0 <= i < |w| => lookup(w[i]));
    assert forall i :: 0 <= i < |w| ==> results[i] == lookup(w[i]);
    Aggregate(results)
  }

  /** The genre line of a wishlist card: up to the first three shelves
      joined with ", ", then "..." when there are more than three; "Unknown"
      when the record has no bookshelves field. An empty array is truthy,
      so it gives an empty line, not "Unknown". */
  function GenreLabel(shelves: Option<seq<string>>): (r: string)
    ensures shelves.None? ==> r == "Unknown"
    ensures shelves.Some? && |shelves.value| <= 3 ==> r == Join(shelves.value, Comma)
    ensures shelves.Some? && |shelves.value| > 3 ==>
      r == Join(shelves.value[..3], Comma) + "..." && r[|r| - 3..] == "..."
  {
    match shelves
    case None => "Unknown"
    case Some(s) =>
      var shown := if |s| <= 3 then s else s[..3];
      assert |s| <= 3 ==> shown == s;
      Join(shown, Comma) + (if |s| > 3 then "..." else "")
  }

  /** Over three shelves the line names exactly the first three, in order,
      each once, and ends with the marker. */
  lemma GenreLabelTruncates(s: seq<string>)
    requires |s| > 3
    ensures GenreLabel(Some(s)) == s[0] + Comma + s[1] + Comma + s[2] + "..."
  {
    var first := s[..3];
    assert first == [s[0], s[1], s[2]];
    assert first[1..] == [s[1], s[2]];
    assert [s[1], s[2]][1..] == [s[2]];
    assert Join([s[2]], Comma) == s[2];
    assert Join([s[1], s[2]], Comma) == s[1] + Comma + s[2];
    assert Join(first, Comma) == s[0] + Comma + (s[1] + Comma + s[2]);
  }

  /** A wishlist card: the record, its genre line and its remove button's
      glyph (always the filled heart). */
  datatype Card = Card(book: Book, genre: string, heart: string)

  /** What the container shows. */
  datatype Screen =
    | EmptyNotice(message: string)
    | Cards(cards: seq<Card>)
    | ErrorBanner(message: string)

  const EmptyMessage: string := "Your wishlist is empty."
  const FailureMessage: string := "Failed to fetch wishlist books. Please try again later."

  /** Rendering of the fetched records: the notice for none, otherwise one
      card per record in order. */
  function Render(books: seq<Book>): (r: Screen)
    ensures |books| == 0 <==> r == EmptyNotice(EmptyMessage)
    ensures |books| > 0 ==> (r.Cards? && |r.cards| == |books| &&
                             forall i :: 0 <= i < |books| ==>
                               r.cards[i].book == books[i] &&
                               r.cards[i].genre == GenreLabel(Some(books[i].bookshelves)) &&
                               r.cards[i].heart == Browse.FilledHeart)
  {
    if |books| == 0 then EmptyNotice(EmptyMessage)
    else
      Cards(seq(|books|, i requires 0 <= i < |books| =>
        Card(books[i], GenreLabel(Some(books[i].bookshelves)), Browse.FilledHeart)))
  }

  /** The page after loading the stored list: the banner when any lookup
      fails, else the rendering of all records. */
  function Load(w: seq<int>, lookup: int -> Result<Book>): (r: Screen)
    ensures r.EmptyNotice? ==> r.message == EmptyMessage
    ensures r.ErrorBanner? ==> r.message == FailureMessage
  {
    match FetchAll(w, lookup)
    case Failed => ErrorBanner(FailureMessage)
    case Ok(books) => Render(books)
  }

  /** The three outcomes of a load: the notice exactly for an empty list, the
      banner exactly when some lookup fails, and otherwise one card per id
      holding that id's record, in wishlist order. */
  lemma LoadOutcomes(w: seq<int>, lookup: int -> Result<Book>)
    ensures Load(w, lookup) == EmptyNotice(EmptyMessage) <==> |w| == 0
    ensures Load(w, lookup) == ErrorBanner(FailureMessage) <==>
      exists k :: 0 <= k < |w| && lookup(w[k]).Failed?
    ensures Load(w, lookup).Cards? ==> (|w| > 0 && |Load(w, lookup).cards| == |w| &&
                                        forall i :: 0 <= i < |w| ==>
                                          Load(w, lookup).cards[i].book == lookup(w[i]).value)
  {
  }

  /** What the remove button leaves behind: the filtered list and the page
      reloaded from it. */
  datatype Removal = Removal(wishlist: seq<int>, screen: Screen)

  /** The remove button: drop every occurrence of the id, then reload. */
  function OnRemove(w: seq<int>, id: int, lookup: int -> Result<Book>): (r: Removal)
    ensures r.wishlist == RemoveAll(w, id)
    ensures id !in r.wishlist
    ensures forall x :: x != id ==> multiset(r.wishlist)[x] == multiset(w)[x]
    ensures NoDup(w) ==> NoDup(r.wishlist)
    ensures IsSubseq(r.wishlist, w)
    ensures r.screen == Load(r.wishlist, lookup)
  {
    var w' := RemoveAll(w, id);
    RemoveAllKeepsOrder(w, [], id);
    if NoDup(w) then
      RemoveAllPreservesNoDup(w, id);
      Removal(w', Load(w', lookup))
    else
      Removal(w', Load(w', lookup))
  }
}

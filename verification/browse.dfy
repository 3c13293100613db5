/** The browse page: wishlist hearts on the result cards, the genre
    dropdown built from the loaded page, the client-side genre filter, and
    the page counter driven by the prev/next buttons and the search box. */
module Browse {
  import opened Basics
  import opened Seqs
  import opened Catalog
  import opened WishlistStore

  /** The two heart glyphs of the card button. */
  const FilledHeart: string := "\U{2764}\U{FE0F}"
  const EmptyHeart: string := "\U{1F90D}"

  /** The heart a freshly rendered card shows: filled exactly for books on
      the wishlist. */
  function Heart(w: seq<int>, id: int): (r: string)
    ensures r == FilledHeart <==> id in w
    ensures r == EmptyHeart <==> id !in w
  {
    if id in w then FilledHeart else EmptyHeart
  }

  /** A rendered result card: the book and the glyph on its button. */
  datatype Card = Card(book: Book, heart: string)

  /** Cards for the given books, in order. */
  function Grid(books: seq<Book>, w: seq<int>): (r: seq<Card>)
    ensures |r| == |books|
    ensures forall i :: 0 <= i < |r| ==>
      r[i].book == books[i] &&
      (r[i].heart == FilledHeart <==> books[i].id in w) &&
      (books[i].id in w ==> r[i].heart == FilledHeart) &&
      (books[i].id !in w ==> r[i].heart == EmptyHeart)
  {
    seq(|books|, i requires 0 <= i < |books| => Card(books[i], Heart(w, books[i].id)))
  }

  /** What a heart click leaves behind: the new wishlist and the glyph the
      handler writes into the clicked button. */
  datatype HeartClick = HeartClick(wishlist: seq<int>, heart: string)

  /** The card button's click handler. The glyph is chosen by the branch
      taken (pushed or spliced), not by a fresh lookup; on a duplicate-free
      list it still equals what a fresh render would show. */
  function OnHeartClick(w: seq<int>, id: int): (r: HeartClick)
    ensures r.wishlist == Toggle(w, id)
    ensures NoDup(w) ==> r.heart == Heart(r.wishlist, id)
    ensures NoDup(w) ==> NoDup(r.wishlist)
  {
    var r := HeartClick(Toggle(w, id), if id in w then EmptyHeart else FilledHeart);
    if NoDup(w) then
      ToggleFlipsMembership(w, id);
      TogglePreservesNoDup(w, id);
      r
    else r
  }

  /** Every bookshelf of every loaded book, books in order and each book's
      shelves in order: the order in which the genre Set receives them. */
  function AllShelves(books: seq<Book>): (r: seq<string>)
    ensures forall i, g :: 0 <= i < |books| && g in books[i].bookshelves ==> g in r
    ensures forall g :: g in r ==> exists i :: 0 <= i < |books| && g in books[i].bookshelves
    decreases |books|
  {
    if |books| == 0 then []
    else
      var rest := AllShelves(books[1..]);
      assert forall i :: 1 <= i < |books| ==> books[i] == books[1..][i - 1];
      books[0].bookshelves + rest
  }

  /** The distinct genres of the loaded page in first-seen order. */
  function Genres(books: seq<Book>): seq<string>
  {
    Distinct(AllShelves(books))
  }

  /** An entry of the genre dropdown. */
  datatype Choice = Choice(value: string, text: string)

  /** The fixed first entry; its empty value means "no filter". */
  const AllGenres: Choice := Choice("", "All Genres")

  /** The dropdown after a page loads: "All Genres", then one entry per
      distinct genre whose value and text are the genre. */
  function GenreChoices(books: seq<Book>): (r: seq<Choice>)
    ensures |r| == 1 + |Genres(books)|
    ensures r[0] == AllGenres
    ensures forall i :: 1 <= i < |r| ==> r[i].value == r[i].text == Genres(books)[i - 1]
  {
    var g := Genres(books);
    [AllGenres] + seq(|g|, i requires 0 <= i < |g| => Choice(g[i], g[i]))
  }

  /** The dropdown lists each bookshelf of each loaded book exactly once,
      nothing else, in the order the shelves were first seen. */
  lemma GenreChoicesFirstSeen(books: seq<Book>)
    ensures NoDup(Genres(books))
    ensures forall i, g :: 0 <= i < |books| && g in books[i].bookshelves ==> g in Genres(books)
    ensures forall g :: g in Genres(books) ==> exists i :: 0 <= i < |books| && g in books[i].bookshelves
    ensures forall i, j :: 0 <= i < j < |Genres(books)| ==>
      IndexOf(AllShelves(books), Genres(books)[i]) < IndexOf(AllShelves(books), Genres(books)[j])
  {
    DistinctFirstSeen(AllShelves(books));
  }

  /** Filter predicate of the genre dropdown. */
  function Tagged(genre: string): Book -> bool
  {
    (b: Book) => genre in b.bookshelves
  }

  /** The books the genre dropdown leaves on screen. An empty selection
      (the "All Genres" entry) shows every loaded book; any other selection
      only books carrying that bookshelf. */
  function FilterByGenre(books: seq<Book>, genre: string): (r: seq<Book>)
    ensures genre == "" ==> r == books
    ensures genre != "" ==> forall b :: b in r ==> b in books && genre in b.bookshelves
  {
    if genre == "" then books else Keep(books, Tagged(genre))
  }

  /** A non-empty selection keeps exactly the tagged books, each as often as
      it was loaded, in their loaded order. */
  lemma FilterByGenreExact(books: seq<Book>, genre: string)
    requires genre != ""
    ensures IsSubseq(FilterByGenre(books, genre), books)
    ensures forall b :: multiset(FilterByGenre(books, genre))[b] ==
                        (if genre in b.bookshelves then multiset(books)[b] else 0)
  {
    KeepIsSubseq(books, Tagged(genre));
    KeepCount(books, Tagged(genre));
  }

  /** The grid after the dropdown changes: cards for the filtered books,
      hearts looked up in the current wishlist. */
  function OnGenreChange(books: seq<Book>, genre: string, w: seq<int>): (r: seq<Card>)
    ensures r == Grid(FilterByGenre(books, genre), w)
    ensures genre == "" ==> r == Grid(books, w)
    ensures forall i :: 0 <= i < |r| ==>
      (genre == "" || genre in r[i].book.bookshelves) && (r[i].heart == FilledHeart <==> r[i].book.id in w)
  {
    var shown := FilterByGenre(books, genre);
    assert forall i :: 0 <= i < |shown| ==> shown[i] in shown;
    Grid(shown, w)
  }

  /** The page navigation state: the page variable, the number the page
      counter element displays, and the search box's current text (which
      prev and next read directly). */
  datatype Nav = Nav(page: int, shown: int, search: string)

  /** A catalog request for one page of one search. */
  datatype Request = Request(page: int, search: string)

  /** The state after an event and the request it issues, if any. */
  datatype Transition = Transition(nav: Nav, fetch: Option<Request>)

  /** The state on load: the initial fetch asks for page 1 with an empty
      search, and the counter starts at 1. */
  const Start: Nav := Nav(1, 1, "")

  /** The previous-page button: a no-op at page 1 (nothing fetched),
      otherwise one page back, fetched and displayed. */
  function OnPrev(n: Nav): (t: Transition)
    ensures n.page >= 1 ==> t.nav.page >= 1
    ensures n.page <= 1 ==> t == Transition(n, None)
    ensures n.page > 1 ==> t.nav == Nav(n.page - 1, n.page - 1, n.search)
    ensures n.page > 1 ==> t.fetch == Some(Request(n.page - 1, n.search))
    ensures t.fetch.Some? ==> t.fetch.value == Request(t.nav.page, t.nav.search)
  {
    if n.page > 1 then
      var p := n.page - 1;
      Transition(Nav(p, p, n.search), Some(Request(p, n.search)))
    else
      Transition(n, None)
  }

  /** The next-page button: always one page forward, with no upper bound,
      fetched and displayed. */
  function OnNext(n: Nav): (t: Transition)
    ensures t.nav.page == n.page + 1 && t.nav.shown == t.nav.page && t.nav.search == n.search
    ensures t.fetch == Some(Request(n.page + 1, n.search))
  {
    var p := n.page + 1;
    Transition(Nav(p, p, n.search), Some(Request(p, n.search)))
  }

  /** A keystroke in the search box: the box's text changes at once, so
      prev and next read the new text, but nothing is fetched until the
      debounced handler fires. */
  function OnTyped(n: Nav, text: string): (t: Transition)
    ensures t.nav == Nav(n.page, n.shown, text)
    ensures t.fetch.None?
  {
    Transition(n.(search := text), None)
  }

  /** The debounced search handler as written: it resets the page to 1 and
      fetches page 1 of the box's text, but never writes the counter
      element, which keeps showing the old page number. */
  function OnSearchAsWritten(n: Nav): (t: Transition)
    ensures t.nav.page == 1 && t.nav.search == n.search && t.nav.shown == n.shown
    ensures t.fetch == Some(Request(1, n.search))
  {
    Transition(Nav(1, n.shown, n.search), Some(Request(1, n.search)))
  }

  /** Two clicks on next, typing "dogs" and the search firing leave the
      counter at 3 while page 1 is fetched. */
  lemma SearchLeavesStaleCounter()
    ensures var t := OnSearchAsWritten(OnTyped(OnNext(OnNext(Start).nav).nav, "dogs").nav);
      t.nav.page == 1 && t.nav.shown == 3 && t.fetch == Some(Request(1, "dogs"))
  {
  }

  /** The search handler with the counter reset as well. */
  function OnSearch(n: Nav): (t: Transition)
    ensures t.nav == Nav(1, 1, n.search)
    ensures t.fetch == Some(Request(1, n.search))
  {
    Transition(Nav(1, 1, n.search), Some(Request(1, n.search)))
  }

  /** A user action on the navigation controls. `Typed` is a change of the
      box's text; `SearchFired` is the debounced handler running. */
  datatype NavEvent = PrevClicked | NextClicked | Typed(text: string) | SearchFired

  /** Dispatch of one event to its handler. A request always asks for the
      page the state then holds, with the box's text at that moment; only a
      keystroke changes the text, and it fetches nothing. */
  function Step(n: Nav, e: NavEvent): (t: Transition)
    ensures t.fetch.Some? ==> t.fetch.value == Request(t.nav.page, t.nav.search)
    ensures !e.Typed? ==> t.nav.search == n.search
    ensures e.Typed? ==> t.nav.search == e.text && t.fetch.None?
  {
    match e
    case PrevClicked => OnPrev(n)
    case NextClicked => OnNext(n)
    case Typed(text) => OnTyped(n, text)
    case SearchFired => OnSearch(n)
  }

  /** The state after a series of events. */
  function Run(n: Nav, events: seq<NavEvent>): Nav
    decreases |events|
  {
    if |events| == 0 then n else Run(Step(n, events[0]).nav, events[1..])
  }

  /** Invariant of the navigation state: a page at least 1, displayed by
      the counter. */
  predicate Consistent(n: Nav)
  {
    n.page >= 1 && n.shown == n.page
  }

  /** Prev and next as written, keystrokes, and the corrected search handler
      each keep the state consistent, and a request asks for exactly the
      page the counter then shows, with the box's current text. */
  lemma StepKeepsConsistent(n: Nav, e: NavEvent)
    requires Consistent(n)
    ensures Consistent(Step(n, e).nav)
    ensures Step(n, e).fetch.Some? ==>
      Step(n, e).fetch.value == Request(Step(n, e).nav.shown, Step(n, e).nav.search)
  {
  }

  /** From a consistent state, no series of these events takes the page
      below 1 or lets the counter disagree with it. */
  lemma {:induction false} RunKeepsConsistent(n: Nav, events: seq<NavEvent>)
    requires Consistent(n)
    ensures Consistent(Run(n, events))
    decreases |events|
  {
    if |events| > 0 {
      StepKeepsConsistent(n, events[0]);
      RunKeepsConsistent(Step(n, events[0]).nav, events[1..]);
    }
  }
}

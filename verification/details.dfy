/** The detail page of one book: the texts derived from the record, the
    download links, and the wishlist button with its label. */
module Details {
  import opened Basics
  import opened Seqs
  import opened Text
  import opened Catalog
  import opened WishlistStore

  /** The two labels of the wishlist button. */
  const RemoveLabel: string := "\U{2764}\U{FE0F} Remove from Wishlist"
  const AddLabel: string := "\U{1F90D} Add to Wishlist"

  /** The label on first render: "Remove" exactly for a listed book. */
  function ToggleLabel(w: seq<int>, id: int): (r: string)
    ensures r == RemoveLabel <==> id in w
    ensures r == AddLabel <==> id !in w
  {
    if id in w then RemoveLabel else AddLabel
  }

  /** What a button click leaves behind: the new wishlist and the label the
      handler writes. */
  datatype ButtonClick = ButtonClick(wishlist: seq<int>, caption: string)

  /** The button's click handler. It picks the label by the branch taken;
      on a duplicate-free list the label reads "Remove" exactly when the
      book is listed afterwards, as a fresh render would show. */
  function OnToggleClick(w: seq<int>, id: int): (r: ButtonClick)
    ensures r.wishlist == Toggle(w, id)
    ensures NoDup(w) ==> NoDup(r.wishlist)
    ensures NoDup(w) ==> (r.caption == RemoveLabel <==> id in r.wishlist)
    ensures NoDup(w) ==> r.caption == ToggleLabel(r.wishlist, id)
  {
    var r := ButtonClick(Toggle(w, id), if id in w then AddLabel else RemoveLabel);
    if NoDup(w) then
      ToggleFlipsMembership(w, id);
      TogglePreservesNoDup(w, id);
      r
    else r
  }

  /** Two clicks on the button of an unlisted book restore both the list
      and the label. */
  lemma TwoClicksRestore(w: seq<int>, id: int)
    requires id !in w
    ensures OnToggleClick(OnToggleClick(w, id).wishlist, id).wishlist == w
    ensures OnToggleClick(OnToggleClick(w, id).wishlist, id).caption == ToggleLabel(w, id)
  {
  }

  /** `bookshelves.join(', ') || 'N/A'`: the joined shelves, or "N/A" when
      the join is empty, which happens for no shelves and for a single
      empty shelf name. */
  function GenresText(shelves: seq<string>): (r: string)
    ensures |shelves| == 0 || shelves == [""] ==> r == "N/A"
    ensures |shelves| > 0 && shelves != [""] ==> r == Join(shelves, Comma) && r != ""
  {
    var joined := Join(shelves, Comma);
    if joined == "" then "N/A" else joined
  }

  /** The copyright flag is true, false or null; only true is truthy. */
  function CopyrightText(copyright: Option<bool>): (r: string)
    ensures r == "Yes" <==> copyright == Some(true)
    ensures r == "No" <==> copyright != Some(true)
  {
    if copyright == Some(true) then "Yes" else "No"
  }

  /** A download link: its text and its target. */
  datatype Link = Link(text: string, href: string)

  /** The format keys in enumeration order. */
  function FormatKeys(formats: seq<(string, string)>): (r: seq<string>)
    ensures |r| == |formats|
    ensures forall i :: 0 <= i < |r| ==> r[i] == formats[i].0
  {
    seq(|formats|, i requires 0 <= i < |formats| => formats[i].0)
  }

  /** The format object viewed as a dictionary (a later entry for the same
      key wins, as when the object is built). */
  function FormatMap(formats: seq<(string, string)>): map<string, string>
    decreases |formats|
  {
    if |formats| == 0 then map[]
    else
      var last := formats[|formats| - 1];
      FormatMap(formats[..|formats| - 1])[last.0 := last.1]
  }

  /** One list item per entry of `Object.entries(formats)`. */
  function DownloadLinks(formats: seq<(string, string)>): (r: seq<Link>)
    ensures |r| == |formats|
  {
    seq(|formats|, i requires 0 <= i < |formats| => Link(formats[i].0, formats[i].1))
  }

  /** With distinct keys, the dictionary holds exactly the listed keys and
      each key maps to the URL of its own entry. */
  lemma {:induction false} FormatMapLookup(formats: seq<(string, string)>)
    requires NoDup(FormatKeys(formats))
    ensures forall k :: k in FormatMap(formats) <==> k in FormatKeys(formats)
    ensures forall i :: 0 <= i < |formats| ==> FormatMap(formats)[formats[i].0] == formats[i].1
    decreases |formats|
  {
    if |formats| > 0 {
      var n := |formats| - 1;
      var init := formats[..n];
      var keys := FormatKeys(formats);
      assert FormatKeys(init) == keys[..n];
      FormatMapLookup(init);
      forall i | 0 <= i < n
        ensures formats[i].0 != formats[n].0
      {
        assert keys[i] != keys[n];
      }
      forall i | 0 <= i < n
        ensures FormatMap(formats)[formats[i].0] == formats[i].1
      {
        assert init[i] == formats[i];
      }
      forall k | k in FormatKeys(formats)
        ensures k in FormatMap(formats)
      {
        var i :| 0 <= i < |keys| && keys[i] == k;
        if i < n {
          assert FormatKeys(init)[i] == k;
        }
      }
    }
  }

  /** With distinct format keys (an object's keys are distinct), the links
      name each format key exactly once and nothing else, and each link
      points at the URL the object holds for its key. */
  lemma {:induction false} LinksOnePerFormat(formats: seq<(string, string)>)
    requires NoDup(FormatKeys(formats))
    ensures forall k :: k in FormatMap(formats) <==> k in FormatKeys(formats)
    ensures forall i :: 0 <= i < |formats| ==>
      DownloadLinks(formats)[i].text == FormatKeys(formats)[i] &&
      FormatMap(formats)[DownloadLinks(formats)[i].text] == DownloadLinks(formats)[i].href
  {
    FormatMapLookup(formats);
  }

  /** The page's text fields, the links and the wishlist button label. */
  datatype View = View(
    documentTitle: string,
    title: string,
    authors: string,
    genres: string,
    downloads: int,
    languages: string,
    copyright: string,
    description: string,
    links: seq<Link>,
    toggle: string
  )

  /** The page after the record arrives. */
  function Display(book: Book, w: seq<int>): (r: View)
    ensures r.toggle == RemoveLabel <==> book.id in w
    ensures book.id in w ==> r.toggle == RemoveLabel
    ensures book.id !in w ==> r.toggle == AddLabel
    ensures r.genres == GenresText(book.bookshelves) && r.copyright == CopyrightText(book.copyright)
    ensures r.links == DownloadLinks(book.formats)
  {
    View(
      book.title + " - Gutendex Book Explorer",
      book.title,
      Join(book.authors, Comma),
      GenresText(book.bookshelves),
      book.downloadCount,
      Join(book.languages, Comma),
      CopyrightText(book.copyright),
      "No description available.",
      DownloadLinks(book.formats),
      ToggleLabel(w, book.id)
    )
  }
}

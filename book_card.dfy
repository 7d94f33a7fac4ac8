/** One result card (`BookCard`): what it displays for a document, and which
    callback a click reaches. */
module BookCard {
  import opened Books

  const UnknownAuthor := "Unknown"
  const UnknownYear := "Year N/A"
  const FilledStar := "\U{2605}"
  const EmptyStar := "\U{2606}"

  /** The text a card shows. `cover` is `None` where the card shows its
      "No Cover" placeholder. */
  datatype CardView = CardView(
    cover: Option<string>,
    title: string,
    authors: string,
    year: string,
    star: string)

  /** The favourite button's glyph: a filled star exactly for a favourite. */
  function StarGlyph(isFav: bool): (r: string)
    ensures r == FilledStar <==> isFav
    ensures r == EmptyStar <==> !isFav
  {
    if isFav then FilledStar else EmptyStar
  }

  /** What the card renders for `book`. */
  function Render(book: BookDoc, isFav: bool): (v: CardView)
    ensures v.cover.None? <==> book.coverId.None? || book.coverId.value == 0
    ensures v.cover == CoverUrl(book.coverId)
    ensures v.title == book.title
    ensures v.authors == AuthorLabel(book.authorName, UnknownAuthor) && v.authors != ""
    ensures v.year == YearLabel(book.firstPublishYear, UnknownYear)
    ensures v.star == StarGlyph(isFav)
  {
    CardView(
      CoverUrl(book.coverId),
      book.title,
      AuthorLabel(book.authorName, UnknownAuthor),
      YearLabel(book.firstPublishYear, UnknownYear),
      StarGlyph(isFav))
  }

  /** The callbacks a card can call: `onClick(book)` and `onToggleFav(key)`. */
  datatype Intent = Select(book: BookDoc) | ToggleFavorite(key: string)

  /** Where a click lands: the card itself, or the favourite button inside it. */
  datatype ClickTarget = CardBody | FavoriteButton

  /** A handler's effect: the callbacks it calls and whether it stops the
      click from bubbling to the enclosing element. */
  datatype Handled = Handled(calls: seq<Intent>, stopPropagation: bool)

  /** The card's own `onClick`: passes the whole document. */
  function CardClick(book: BookDoc): (h: Handled)
  {
    Handled([Select(book)], false)
  }

  /** The favourite button's `onClick`: stops propagation, then passes the key. */
  function FavoriteClick(book: BookDoc): (h: Handled)
  {
    Handled([ToggleFavorite(book.key)], true)
  }

  /** A click on `target`, bubbling from the button to the card unless stopped. */
  function Dispatch(book: BookDoc, target: ClickTarget): (calls: seq<Intent>)
    ensures target == FavoriteButton ==> calls == [ToggleFavorite(book.key)]
    ensures target == CardBody ==> calls == [Select(book)]
    ensures forall i :: 0 <= i < |calls| ==> (calls[i].Select? <==> target == CardBody)
  {
    match target
    case CardBody => CardClick(book).calls
    case FavoriteButton =>
      var h := FavoriteClick(book);
      h.calls + (if h.stopPropagation then [] else CardClick(book).calls)
  }
}

/** The detail dialog (`BookModal`): the description fetched for the selected
    document, and what the dialog displays. */
module BookModal {
  import opened Books

  /** A JSON value as decoded from the detail response. */
  datatype Json =
    | JNull
    | JBool(b: bool)
    | JNumber(n: int)
    | JString(s: string)
    | JArray(items: seq<Json>)
    | JObject(fields: map<string, Json>)

  /** The settled detail request: the response's `description` field (`None`
      when absent), or a thrown error. */
  datatype DetailOutcome = Fetched(description: Option<Json>) | FetchFailed

  const LoadingText := "Loading details..."
  const NoDescriptionText := "No description available."
  const UnknownAuthor := "Unknown Author"
  const UnknownYear := "N/A"
  const PublishedPrefix := "First published: "

  /** The `value` member of an object description, when it is a non-empty string. */
  predicate HasTextValue(fields: map<string, Json>)
  {
    "value" in fields && fields["value"].JString? && fields["value"].s != ""
  }

  /** `typeof d === "string" ? d : d?.value || null` */
  function NormalizeDescription(d: Option<Json>): (r: Option<string>)
    ensures d.Some? && d.value.JString? ==> r == Some(d.value.s)
    ensures d.Some? && d.value.JObject? ==>
              (r.Some? <==> HasTextValue(d.value.fields)) &&
              (r.Some? ==> d.value.fields["value"] == JString(r.value) && r.value != "")
    ensures d.None? || !(d.value.JString? || d.value.JObject?) ==> r.None?
  {
    match d
    case Some(JString(s)) => Some(s)
    case Some(JObject(fields)) => if HasTextValue(fields) then Some(fields["value"].s) else None
    case _ => None
  }

  /** The description a settled request leaves: none when the request failed. */
  function DescriptionOf(outcome: DetailOutcome): (r: Option<string>)
    ensures outcome.FetchFailed? ==> r.None?
    ensures outcome.Fetched? ==> r == NormalizeDescription(outcome.description)
  {
    match outcome
    case Fetched(d) => NormalizeDescription(d)
    case FetchFailed => None
  }

  /** The description paragraph: the loading text while the request is out,
      else a non-empty description, else the placeholder. */
  function DescriptionText(loading: bool, desc: Option<string>): (r: string)
    ensures r != ""
    ensures loading ==> r == LoadingText
    ensures !loading && desc.Some? && desc.value != "" ==> r == desc.value
    ensures !loading && (desc.None? || desc.value == "") ==> r == NoDescriptionText
  {
    if loading then LoadingText
    else match desc
      case Some(s) => if s != "" then s else NoDescriptionText
      case None => NoDescriptionText
  }

  /** Once the request has settled, the placeholder stands for a failed
      request, a missing or unusable description, and an empty string alike;
      any other outcome shows the description text itself. */
  lemma SettledDescriptionText(outcome: DetailOutcome)
    ensures var d := DescriptionOf(outcome);
            DescriptionText(false, d) == (if d.Some? && d.value != "" then d.value else NoDescriptionText)
    ensures outcome.FetchFailed? ==> DescriptionText(false, DescriptionOf(outcome)) == NoDescriptionText
    ensures outcome == Fetched(Some(JString(""))) ==>
              DescriptionText(false, DescriptionOf(outcome)) == NoDescriptionText
  {
  }

  /** What the dialog displays for a document. */
  datatype ModalView = ModalView(
    cover: Option<string>,
    title: string,
    authors: string,
    published: string,
    description: string,
    openUrl: string)

  /** The dialog renders nothing without a selected document. */
  function Render(book: Option<BookDoc>, loading: bool, desc: Option<string>): (v: Option<ModalView>)
    ensures v.None? <==> book.None?
    ensures v.Some? ==>
              var b := book.value;
              (v.value.cover.None? <==> b.coverId.None? || b.coverId.value == 0) &&
              v.value.cover == CoverUrl(b.coverId) &&
              v.value.title == b.title &&
              v.value.authors == AuthorLabel(b.authorName, UnknownAuthor) && v.value.authors != "" &&
              v.value.published == PublishedPrefix + YearLabel(b.firstPublishYear, UnknownYear) &&
              v.value.description == DescriptionText(loading, desc) &&
              v.value.openUrl == OpenUrl(b.key)
  {
    match book
    case None => None
    case Some(b) =>
      Some(ModalView(
        CoverUrl(b.coverId),
        b.title,
        AuthorLabel(b.authorName, UnknownAuthor),
        PublishedPrefix + YearLabel(b.firstPublishYear, UnknownYear),
        DescriptionText(loading, desc),
        OpenUrl(b.key)))
  }

  /** The dialog's own state: the fetched description and the loading flag. */
  class DetailPanel {
    var desc: Option<string>
    var loading: bool

    constructor ()
      ensures desc.None? && !loading
    {
      desc := None;
      loading := false;
    }

    /** The start of the effect that runs when `book` changes: nothing without
        a document; otherwise `loading` is set, the old description cleared and
        the detail URL for the document's key requested. */
    method BeginFetch(book: Option<BookDoc>) returns (url: Option<string>)
      modifies this
      ensures book.None? ==> url.None? && desc == old(desc) && loading == old(loading)
      ensures book.Some? ==> url == Some(DetailUrl(book.value.key)) && loading && desc.None?
    {
      if book.None? {
        return None;
      }
      loading := true;
      desc := None;
      url := Some(DetailUrl(book.value.key));
    }

    /** The end of `fetchDetails`: the description from the outcome, and
        `loading` cleared whatever happened. */
    method SettleFetch(outcome: DetailOutcome)
      modifies this
      ensures desc == DescriptionOf(outcome)
      ensures !loading
    {
      match outcome {
        case Fetched(d) => desc := NormalizeDescription(d);
        case FetchFailed => desc := None;
      }
      loading := false;
    }

    /** The whole effect for one selection, the request settling with `outcome`. */
    method FetchDetails(book: Option<BookDoc>, outcome: DetailOutcome) returns (url: Option<string>)
      modifies this
      ensures book.None? ==> url.None? && desc == old(desc) && loading == old(loading)
      ensures book.Some? ==> (url == Some(DetailUrl(book.value.key))
                          && desc == DescriptionOf(outcome) && !loading)
    {
      url := BeginFetch(book);
      if url.Some? {
        SettleFetch(outcome);
      }
    }
  }
}

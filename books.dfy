/** The search document of the Open Library catalog and the display values
    derived from it. Both components derive the cover image URL and the
    "names or fallback" and "year or fallback" labels the same way; the catalog
    page link and the detail request URL are the dialog's own. */
module Books {
  import opened Text

  datatype Option<+T> = None | Some(value: T)

  /** `BookDoc`: one document of a search response. Optional fields of the
      JSON object are `None` when the field is absent. */
  datatype BookDoc = BookDoc(
    key: string,
    title: string,
    authorName: Option<seq<string>>,
    coverId: Option<int>,
    firstPublishYear: Option<int>,
    subject: Option<seq<string>>)

  const CoverHost := "https://covers.openlibrary.org/b/id/"
  const CoverSuffix := "-L.jpg"
  const CatalogHost := "https://openlibrary.org"
  const AuthorSeparator := ", "

  /** `cover_i ? "https://covers.openlibrary.org/b/id/${cover_i}-L.jpg" : null`:
      a missing id and the falsy id 0 both give no cover. */
  function CoverUrl(coverId: Option<int>): (r: Option<string>)
    ensures r.None? <==> coverId.None? || coverId.value == 0
    ensures r.Some? ==> r.value == CoverHost + IntToString(coverId.value) + CoverSuffix
  {
    match coverId
    case Some(n) => if n == 0 then None else Some(CoverHost + IntToString(n) + CoverSuffix)
    case None => None
  }

  /** Two documents get the same cover URL only when they carry the same cover id. */
  lemma CoverUrlInjective(a: Option<int>, b: Option<int>)
    requires CoverUrl(a).Some? && CoverUrl(a) == CoverUrl(b)
    ensures a == b
  {
    var u := CoverUrl(a).value;
    var sa, sb := IntToString(a.value), IntToString(b.value);
    assert u == CoverHost + sa + CoverSuffix;
    assert u == CoverHost + sb + CoverSuffix;
    assert |sa| == |sb|;
    assert sa == u[|CoverHost|..|CoverHost| + |sa|];
    assert sb == u[|CoverHost|..|CoverHost| + |sb|];
    IntToStringInjective(a.value, b.value);
  }

  /** `https://openlibrary.org${key}`: the key already starts with its path separator. */
  function OpenUrl(key: string): (r: string)
    ensures |r| == |CatalogHost| + |key|
    ensures r[..|CatalogHost|] == CatalogHost && r[|CatalogHost|..] == key
  {
    CatalogHost + key
  }

  /** `https://openlibrary.org${key}.json`: the catalog page URL with the JSON suffix. */
  function DetailUrl(key: string): (r: string)
    ensures r == OpenUrl(key) + ".json"
  {
    CatalogHost + key + ".json"
  }

  /** The key a detail request URL was built from can be read back from it. */
  lemma DetailUrlInjective(k1: string, k2: string)
    requires DetailUrl(k1) == DetailUrl(k2)
    ensures k1 == k2
  {
    var u := DetailUrl(k1);
    assert |k1| == |k2|;
    assert k1 == OpenUrl(k1)[|CatalogHost|..] == u[|CatalogHost|..|u| - 5];
    assert k2 == OpenUrl(k2)[|CatalogHost|..] == u[|CatalogHost|..|u| - 5];
  }

  /** `author_name?.join(", ") || fallback`: the joined names, or the fallback
      when the names are absent or join to the empty string. */
  function AuthorLabel(names: Option<seq<string>>, fallback: string): (r: string)
    ensures names.None? || names.value == [] || names.value == [""] ==> r == fallback
    ensures names.Some? && names.value != [] && names.value != [""] ==>
              r == Join(names.value, AuthorSeparator) && r != ""
  {
    match names
    case None => fallback
    case Some(ns) =>
      var joined := Join(ns, AuthorSeparator);
      JoinEmptyIff(ns, AuthorSeparator);
      if joined == "" then fallback else joined
  }

  /** When the label shows the names, every author name appears in it. */
  lemma AuthorLabelShowsEveryName(names: seq<string>, fallback: string, i: nat)
    requires names != [] && names != [""] && i < |names|
    ensures exists k :: OccursAt(names[i], AuthorLabel(Some(names), fallback), k)
  {
    JoinContains(names, AuthorSeparator, i);
    assert AuthorLabel(Some(names), fallback) == Join(names, AuthorSeparator);
  }

  /** `first_publish_year || fallback`: the year, or the fallback when it is
      absent or the falsy 0. */
  function YearLabel(year: Option<int>, fallback: string): (r: string)
    ensures year.None? || year.value == 0 ==> r == fallback
    ensures year.Some? && year.value != 0 ==> r == IntToString(year.value)
  {
    match year
    case Some(y) => if y == 0 then fallback else IntToString(y)
    case None => fallback
  }
}

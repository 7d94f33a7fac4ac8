/** The search, pagination and favourites state container (`useBookStore`).

    The search request is asynchronous in the application. Here one call of
    `searchBooks` is one sequential transition, split at the `await` into
    `BeginSearch` (everything before the request is sent) and `CompleteSearch`
    (everything after it settles); the outcome of the request is a parameter. */
module BookStore {
  import opened Text
  import opened Books

  /** The settled search request: the response body, or the thrown error. */
  datatype SearchOutcome =
    | Success(docs: seq<BookDoc>, numFound: Option<int>)
    | Failure(message: Option<string>)

  /** What `searchBooks` asks the catalog for: `title` and `page` query parameters. */
  datatype SearchRequest = SearchRequest(title: string, page: int)

  /** Storage key under which the favourites list is written. */
  const FavoritesStorageKey := "bf_favorites_v1"
  const DefaultError := "Failed to fetch"

  /** `!query.trim()` */
  predicate IsBlank(query: string)
    ensures IsBlank(query) <==> AllWhitespace(query)
  {
    TrimEmptyIff(query);
    Trim(query) == ""
  }

  /** The page a search asks for: 1 on a reset search, else the cursor. */
  function EffectivePage(reset: bool, cursor: int): (p: int)
  {
    if reset then 1 else cursor
  }

  /** `data.numFound || 0` */
  function TotalOrZero(numFound: Option<int>): (n: int)
  {
    match numFound
    case Some(v) => v
    case None => 0
  }

  /** `err.message || "Failed to fetch"`: never an empty message. */
  function ErrorText(message: Option<string>): (e: string)
    ensures e != ""
    ensures message.Some? && message.value != "" ==> e == message.value
    ensures message.None? || message.value == "" ==> e == DefaultError
  {
    match message
    case Some(m) => if m == "" then DefaultError else m
    case None => DefaultError
  }

  /** `localStorage.getItem` followed by `JSON.parse`: `None` stands for a
      missing entry, an empty entry, an entry that does not parse and a read
      that throws because storage is unavailable. */
  function Hydrate(persisted: Option<seq<string>>): (favs: seq<string>)
  {
    match persisted
    case Some(v) => v
    case None => []
  }

  // ---------------------------------------------------------------------------
  // Favourites as a list of keys

  predicate NoDuplicates(s: seq<string>)
  {
    forall i, j :: 0 <= i < j < |s| ==> s[i] != s[j]
  }

  /** `favorites.filter(k => k !== key)` */
  function Without(s: seq<string>, key: string): (r: seq<string>)
    ensures key !in r
    ensures forall x :: x in r <==> x in s && x != key
  {
    if s == [] then []
    else if s[0] == key then Without(s[1..], key)
    else [s[0]] + Without(s[1..], key)
  }

  /** The list `toggleFav` computes: every occurrence of `key` removed when it
      is present, else `key` appended. */
  function Toggled(s: seq<string>, key: string): (r: seq<string>)
    ensures key in r <==> key !in s
    ensures forall x :: x != key ==> (x in r <==> x in s)
  {
    if key in s then Without(s, key) else s + [key]
  }

  /** As a multiset, filtering removes the occurrences of `key` and nothing else. */
  lemma {:induction false} WithoutMultiset(s: seq<string>, key: string)
    ensures multiset(Without(s, key)) == multiset(s)[key := 0]
  {
    if s != [] {
      WithoutMultiset(s[1..], key);
      assert s == [s[0]] + s[1..];
    }
  }

  /** Filtering a list that does not contain the key leaves it as it is. */
  lemma {:induction false} WithoutAbsent(s: seq<string>, key: string)
    requires key !in s
    ensures Without(s, key) == s
  {
    if s != [] {
      WithoutAbsent(s[1..], key);
    }
  }

  lemma {:induction false} WithoutAppend(s: seq<string>, t: seq<string>, key: string)
    ensures Without(s + t, key) == Without(s, key) + Without(t, key)
  {
    if s != [] {
      assert (s + t)[1..] == s[1..] + t;
      WithoutAppend(s[1..], t, key);
    } else {
      assert s + t == t;
    }
  }

  lemma {:induction false} WithoutNoDuplicates(s: seq<string>, key: string)
    requires NoDuplicates(s)
    ensures NoDuplicates(Without(s, key))
  {
    if s != [] {
      assert NoDuplicates(s[1..]) by {
        forall i, j | 0 <= i < j < |s[1..]| ensures s[1..][i] != s[1..][j] {
          assert s[1..][i] == s[i + 1] && s[1..][j] == s[j + 1];
        }
      }
      WithoutNoDuplicates(s[1..], key);
      if s[0] != key {
        var r := Without(s[1..], key);
        assert s[0] !in s[1..];
        assert s[0] !in r;
        forall i, j | 0 <= i < j < |[s[0]] + r| ensures ([s[0]] + r)[i] != ([s[0]] + r)[j] {
          if i == 0 {
            assert ([s[0]] + r)[j] == r[j - 1];
          } else {
            assert ([s[0]] + r)[i] == r[i - 1] && ([s[0]] + r)[j] == r[j - 1];
          }
        }
      }
    }
  }

  /** Toggling an absent key appends it once, at the end. */
  lemma ToggleAbsentAppends(s: seq<string>, key: string)
    requires key !in s
    ensures Toggled(s, key) == s + [key]
    ensures multiset(Toggled(s, key))[key] == 1
  {
  }

  /** Toggling a present key removes every occurrence and keeps every other occurrence. */
  lemma TogglePresentRemoves(s: seq<string>, key: string)
    requires key in s
    ensures key !in Toggled(s, key)
    ensures multiset(Toggled(s, key)) == multiset(s)[key := 0]
    ensures |Toggled(s, key)| < |s|
  {
    WithoutMultiset(s, key);
    assert multiset(s)[key] > 0;
    assert |multiset(Toggled(s, key))| < |multiset(s)|;
  }

  /** A list without duplicates stays without duplicates. */
  lemma ToggleKeepsNoDuplicates(s: seq<string>, key: string)
    requires NoDuplicates(s)
    ensures NoDuplicates(Toggled(s, key))
  {
    if key in s {
      WithoutNoDuplicates(s, key);
    } else {
      var r := s + [key];
      forall i, j | 0 <= i < j < |r| ensures r[i] != r[j] {
        if j == |s| {
          assert r[i] == s[i];
        } else {
          assert r[i] == s[i] && r[j] == s[j];
        }
      }
    }
  }

  /** Toggling an absent key twice gives back the very same list. */
  lemma ToggleTwiceAbsent(s: seq<string>, key: string)
    requires key !in s
    ensures Toggled(Toggled(s, key), key) == s
  {
    WithoutAppend(s, [key], key);
    WithoutAbsent(s, key);
    assert Without([key], key) == [];
  }

  /** Toggling a present key twice gives back the same keys, with `key` moved
      to the end and (when it was listed more than once) listed once. */
  lemma ToggleTwicePresent(s: seq<string>, key: string)
    requires key in s
    ensures Toggled(Toggled(s, key), key) == Without(s, key) + [key]
    ensures (set x | x in Toggled(Toggled(s, key), key)) == (set x | x in s)
    ensures NoDuplicates(s) ==> multiset(Toggled(Toggled(s, key), key)) == multiset(s)
  {
    var r := Toggled(Toggled(s, key), key);
    assert key !in Without(s, key);
    if NoDuplicates(s) {
      WithoutMultiset(s, key);
      NoDuplicatesCountsOne(s, key);
      assert multiset(r) == multiset(s)[key := 0] + multiset{key};
    }
  }

  lemma {:induction false} NoDuplicatesCountsOne(s: seq<string>, key: string)
    requires NoDuplicates(s) && key in s
    ensures multiset(s)[key] == 1
  {
    if s[0] == key {
      assert s == [s[0]] + s[1..];
      assert key !in s[1..];
    } else {
      assert s == [s[0]] + s[1..];
      assert NoDuplicates(s[1..]) by {
        forall i, j | 0 <= i < j < |s[1..]| ensures s[1..][i] != s[1..][j] {
          assert s[1..][i] == s[i + 1] && s[1..][j] == s[j + 1];
        }
      }
      NoDuplicatesCountsOne(s[1..], key);
    }
  }

  // ---------------------------------------------------------------------------
  // The state container

  class Store {
    var query: string
    var page: int
    var books: seq<BookDoc>
    var numFound: int
    var loading: bool
    var error: Option<string>
    var favorites: seq<string>
    var selected: Option<BookDoc>
    /** What the durable store holds under `FavoritesStorageKey`. */
    ghost var stored: Option<seq<string>>

    /** The page cursor is a 1-based page number. */
    ghost predicate Valid()
      reads this
    {
      page >= 1
    }

    /** The initial state; the favourites are read from the durable store. */
    constructor (persisted: Option<seq<string>>)
      ensures Valid()
      ensures query == "" && page == 1 && books == [] && numFound == 0
      ensures !loading && error == None && selected == None
      ensures favorites == Hydrate(persisted) && stored == persisted
    {
      query := "";
      page := 1;
      books := [];
      numFound := 0;
      loading := false;
      error := None;
      favorites := Hydrate(persisted);
      selected := None;
      stored := persisted;
    }

    /** `setQuery(q)`: stores the text as typed, untrimmed. */
    method SetQuery(q: string)
      requires Valid()
      modifies this
      ensures Valid()
      ensures query == q
      ensures page == old(page) && books == old(books) && numFound == old(numFound)
      ensures loading == old(loading) && error == old(error)
      ensures favorites == old(favorites) && selected == old(selected) && stored == old(stored)
    {
      query := q;
    }

    /** `selectBook(book)`: replaces the selection, whatever it is. */
    method SelectBook(book: Option<BookDoc>)
      requires Valid()
      modifies this
      ensures Valid()
      ensures selected == book
      ensures query == old(query) && page == old(page) && books == old(books)
      ensures numFound == old(numFound) && loading == old(loading) && error == old(error)
      ensures favorites == old(favorites) && stored == old(stored)
    {
      selected := book;
    }

    /** The synchronous part of `searchBooks(reset)`. A blank query clears the
        results and sends nothing (`req` is `None`); otherwise the request for
        the effective page is returned, with `loading` set and `error` cleared. */
    method BeginSearch(reset: bool) returns (req: Option<SearchRequest>)
      requires Valid()
      modifies this
      ensures Valid()
      ensures req.None? <==> AllWhitespace(query)
      ensures req.None? ==> (books == [] && numFound == 0
                         && loading == old(loading) && error == old(error))
      ensures req.Some? ==> (req.value == SearchRequest(query, EffectivePage(reset, old(page)))
                         && req.value.page >= 1
                         && loading && error == None
                         && books == old(books) && numFound == old(numFound))
      ensures query == old(query) && page == old(page)
      ensures favorites == old(favorites) && selected == old(selected) && stored == old(stored)
    {
      var blank := IsBlank(query);
      if blank {
        books, numFound := [], 0;
        return None;
      }
      req := Some(SearchRequest(query, EffectivePage(reset, page)));
      loading, error := true, None;
    }

    /** The part of `searchBooks(reset)` after the request for `req` settles. */
    method CompleteSearch(reset: bool, req: SearchRequest, outcome: SearchOutcome)
      requires Valid() && req.page >= 1
      modifies this
      ensures Valid()
      ensures outcome.Success? ==>
                books == (if reset then outcome.docs else old(books) + outcome.docs)
                && numFound == TotalOrZero(outcome.numFound)
                && page == req.page + 1
                && error == old(error)
      ensures outcome.Failure? ==>
                error == Some(ErrorText(outcome.message))
                && books == old(books) && numFound == old(numFound) && page == old(page)
      ensures !loading
      ensures query == old(query)
      ensures favorites == old(favorites) && selected == old(selected) && stored == old(stored)
    {
      match outcome
      case Success(docs, total) =>
        books := if reset then docs else books + docs;
        numFound := TotalOrZero(total);
        page := req.page + 1;
        loading := false;
      case Failure(message) =>
        error := Some(ErrorText(message));
        loading := false;
    }

    /** `searchBooks(reset)` as one transition, the request settling with `outcome`. */
    method SearchBooks(reset: bool, outcome: SearchOutcome) returns (req: Option<SearchRequest>)
      requires Valid()
      modifies this
      ensures Valid()
      ensures req.None? <==> AllWhitespace(old(query))
      ensures req.None? ==> (books == [] && numFound == 0 && page == old(page)
                         && loading == old(loading) && error == old(error))
      ensures req.Some? ==> (req.value == SearchRequest(old(query), EffectivePage(reset, old(page)))
                         && !loading)
      ensures req.Some? && outcome.Success? ==>
                books == (if reset then outcome.docs else old(books) + outcome.docs)
                && numFound == TotalOrZero(outcome.numFound)
                && page == EffectivePage(reset, old(page)) + 1
                && error == None
      ensures req.Some? && outcome.Failure? ==>
                error == Some(ErrorText(outcome.message))
                && books == old(books) && numFound == old(numFound) && page == old(page)
      ensures query == old(query)
      ensures favorites == old(favorites) && selected == old(selected) && stored == old(stored)
    {
      req := BeginSearch(reset);
      if req.Some? {
        CompleteSearch(reset, req.value, outcome);
      }
    }

    /** `loadMore()`: a search that appends the page at the cursor. */
    method LoadMore(outcome: SearchOutcome) returns (req: Option<SearchRequest>)
      requires Valid()
      modifies this
      ensures Valid()
      ensures req.None? <==> AllWhitespace(old(query))
      ensures req.None? ==> (books == [] && numFound == 0 && page == old(page)
                         && loading == old(loading) && error == old(error))
      ensures req.Some? ==> req.value == SearchRequest(old(query), old(page)) && !loading
      ensures req.Some? && outcome.Success? ==>
                books == old(books) + outcome.docs
                && numFound == TotalOrZero(outcome.numFound)
                && page == old(page) + 1
                && error == None
      ensures req.Some? && outcome.Failure? ==>
                error == Some(ErrorText(outcome.message))
                && books == old(books) && numFound == old(numFound) && page == old(page)
      ensures query == old(query)
      ensures favorites == old(favorites) && selected == old(selected) && stored == old(stored)
    {
      req := SearchBooks(false, outcome);
    }

    /** `toggleFav(key)`. The write to the durable store may throw
        (`storageWritable` is false); the error is swallowed and the in-memory
        list changes all the same. */
    method ToggleFav(key: string, storageWritable: bool)
      requires Valid()
      modifies this
      ensures Valid()
      ensures favorites == Toggled(old(favorites), key)
      ensures key in old(favorites) ==> key !in favorites
      ensures key !in old(favorites) ==> favorites == old(favorites) + [key]
      ensures NoDuplicates(old(favorites)) ==> NoDuplicates(favorites)
      ensures storageWritable ==> stored == Some(favorites)
      ensures !storageWritable ==> stored == old(stored)
      ensures query == old(query) && page == old(page) && books == old(books)
      ensures numFound == old(numFound) && loading == old(loading) && error == old(error)
      ensures selected == old(selected)
    {
      var next := if key in favorites then Without(favorites, key) else favorites + [key];
      if NoDuplicates(favorites) {
        ToggleKeepsNoDuplicates(favorites, key);
      }
      if storageWritable {
        stored := Some(next);
      }
      favorites := next;
    }
  }

  // ---------------------------------------------------------------------------
  // Scenarios on a fresh store

  /** A reset search followed by `loadMore` accumulates both pages in order and
      leaves the cursor at 3. */
  method SearchThenLoadMore(q: string, docs1: seq<BookDoc>, docs2: seq<BookDoc>,
                            total1: Option<int>, total2: Option<int>)
    returns (books: seq<BookDoc>, page: int, numFound: int, requests: seq<SearchRequest>)
    requires !AllWhitespace(q)
    ensures books == docs1 + docs2
    ensures page == 3
    ensures numFound == TotalOrZero(total2)
    ensures requests == [SearchRequest(q, 1), SearchRequest(q, 2)]
  {
    var store := new Store(None);
    store.SetQuery(q);
    var r1 := store.SearchBooks(true, Success(docs1, total1));
    var r2 := store.LoadMore(Success(docs2, total2));
    books, page, numFound := store.books, store.page, store.numFound;
    requests := [r1.value, r2.value];
  }

  /** A blank query never reaches the catalog, and a failing search keeps
      whatever results were there. */
  method BlankThenFailingSearch(q: string, blank: string, docs: seq<BookDoc>, message: Option<string>)
    returns (before: seq<BookDoc>, after: seq<BookDoc>, error: Option<string>, loading: bool)
    requires !AllWhitespace(q) && AllWhitespace(blank)
    ensures before == [] && after == docs
    ensures error == Some(ErrorText(message)) && !loading
  {
    var store := new Store(None);
    store.SetQuery(blank);
    var r0 := store.SearchBooks(true, Failure(message));
    assert r0.None?;
    before := store.books;
    store.SetQuery(q);
    var r1 := store.SearchBooks(true, Success(docs, None));
    var r2 := store.LoadMore(Failure(message));
    after, error, loading := store.books, store.error, store.loading;
  }
}

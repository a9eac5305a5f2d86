/** The library's lists of authors and tags and the books filed under each (Library.cpp, rebuildMaps). */
module LibraryMaps {
  import opened Order
  import opened BookOrder
  import opened SeriesGroups
  import opened AuthorSubtrees
  import opened AuthorViews

  /** A book without authors is filed under "no author". */
  function AuthorKeys(authors: seq<Author>): (keys: seq<Author>)
    ensures keys != []
  {
    if authors == [] then [NoAuthor] else authors
  }

  /** A book without tags is filed under "no tag". */
  function TagKeys(tags: seq<Path>): (keys: seq<Path>)
    ensures keys != []
  {
    if tags == [] then [[]] else tags
  }

  function Times<K(==)>(keys: seq<K>, key: K): nat
  {
    if keys == [] then 0 else Times(keys[..|keys| - 1], key) + if keys[|keys| - 1] == key then 1 else 0
  }

  function Copies(book: BookId, n: nat): seq<BookId>
  {
    if n == 0 then [] else Copies(book, n - 1) + [book]
  }

  /** The books of a key, in the order they come up. */
  function Filed<K(==)>(books: seq<BookId>, keysOf: BookId -> seq<K>, key: K): seq<BookId>
  {
    if books == [] then []
    else
      var last := books[|books| - 1];
      Filed(books[..|books| - 1], keysOf, key) + Copies(last, Times(keysOf(last), key))
  }

  function Under<K>(byKey: map<K, seq<BookId>>, key: K): seq<BookId>
  {
    if key in byKey then byKey[key] else []
  }

  lemma {:induction false} TimesIn<K>(keys: seq<K>, key: K)
    ensures Times(keys, key) > 0 <==> key in keys
  {
    if keys != [] {
      assert keys == keys[..|keys| - 1] + [keys[|keys| - 1]];
      TimesIn(keys[..|keys| - 1], key);
    }
  }

  lemma {:induction false} InCopies(book: BookId, n: nat, b: BookId)
    ensures b in Copies(book, n) <==> b == book && n > 0
  {
    if n > 0 {
      InCopies(book, n - 1, b);
    }
  }

  /** A book is filed under just its keys. */
  lemma {:induction false} InFiled<K>(books: seq<BookId>, keysOf: BookId -> seq<K>, key: K, b: BookId)
    ensures b in Filed(books, keysOf, key) <==> b in books && key in keysOf(b)
  {
    if books != [] {
      var last := books[|books| - 1];
      assert books == books[..|books| - 1] + [last];
      InFiled(books[..|books| - 1], keysOf, key, b);
      TimesIn(keysOf(last), key);
      InCopies(last, Times(keysOf(last), key), b);
    }
  }

  ghost predicate StrictTotal<K(!new)>(less: (K, K) -> bool)
  {
    && (forall a, b :: less(a, b) || less(b, a) || a == b)
    && (forall a, b :: !(less(a, b) && less(b, a)))
    && (forall a, b, c :: less(a, b) && less(b, c) ==> less(a, c))
  }

  ghost predicate Increasing<K>(keys: seq<K>, less: (K, K) -> bool)
  {
    forall i, j :: 0 <= i < j < |keys| ==> less(keys[i], keys[j])
  }

  /** What has been filed: every key that comes up, with its books. */
  ghost predicate FiledAs<K(!new)>(byKey: map<K, seq<BookId>>, books: seq<BookId>, keysOf: BookId -> seq<K>)
  {
    forall k: K :: Under(byKey, k) == Filed(books, keysOf, k) && (k in byKey <==> Under(byKey, k) != [])
  }

  /** No key without books. */
  ghost predicate NoEmptyLists<K>(byKey: map<K, seq<BookId>>) { forall k <- byKey :: byKey[k] != [] }

  /** Files one book under all its keys. */
  method FileBook<K(==, !new)>(before: map<K, seq<BookId>>, book: BookId, keys: seq<K>)
    returns (byKey: map<K, seq<BookId>>)
    requires NoEmptyLists(before)
    ensures NoEmptyLists(byKey)
    ensures forall k: K :: Under(byKey, k) == Under(before, k) + Copies(book, Times(keys, k))
  {
    hide Copies, Times;
    byKey := before;
    FiledUnderNone(before, book, keys);
    for m := 0 to |keys|
      invariant NoEmptyLists(byKey)
      invariant forall k: K :: Under(byKey, k) == Under(before, k) + Copies(book, Times(keys[..m], k))
    {
      FileUnder(before, byKey, book, keys, m);
      byKey := byKey[keys[m] := Under(byKey, keys[m]) + [book]];
    }
    assert keys[..|keys|] == keys;
  }

  lemma FiledUnderNone<K(!new)>(before: map<K, seq<BookId>>, book: BookId, keys: seq<K>)
    ensures forall k: K :: Under(before, k) == Under(before, k) + Copies(book, Times(keys[..0], k))
  {
    forall k: K
      ensures Under(before, k) == Under(before, k) + Copies(book, Times(keys[..0], k))
    {
      assert Times(keys[..0], k) == 0;
      assert Under(before, k) + [] == Under(before, k);
    }
  }

  lemma FileUnder<K(!new)>(before: map<K, seq<BookId>>, byKey: map<K, seq<BookId>>, book: BookId, keys: seq<K>, m: nat)
    requires m < |keys|
    requires forall k: K :: Under(byKey, k) == Under(before, k) + Copies(book, Times(keys[..m], k))
    ensures
      var next := byKey[keys[m] := Under(byKey, keys[m]) + [book]];
      forall k: K :: Under(next, k) == Under(before, k) + Copies(book, Times(keys[..m + 1], k))
  {
    hide Copies, Times;
    var next := byKey[keys[m] := Under(byKey, keys[m]) + [book]];
    forall k: K
      ensures Under(next, k) == Under(before, k) + Copies(book, Times(keys[..m + 1], k))
    {
      OneMoreCopy(book, keys, m, k);
      assert Under(byKey, k) == Under(before, k) + Copies(book, Times(keys[..m], k));
    }
  }

  /** One pass over the books. */
  method FileBooks<K(==, !new)>(books: seq<BookId>, keysOf: BookId -> seq<K>) returns (byKey: map<K, seq<BookId>>)
    ensures FiledAs(byKey, books, keysOf)
  {
    hide Filed, Copies, Times, FiledAs;
    byKey := map[];
    FiledNothing(byKey, keysOf);
    for n := 0 to |books|
      invariant NoEmptyLists(byKey) && FiledAs(byKey, books[..n], keysOf)
    {
      ghost var before := byKey;
      byKey := FileBook(byKey, books[n], keysOf(books[n]));
      FiledStep(before, byKey, books, n, keysOf);
    }
    assert books[..|books|] == books;
  }

  lemma FiledStep<K(!new)>(before: map<K, seq<BookId>>, byKey: map<K, seq<BookId>>, books: seq<BookId>, n: nat,
                    keysOf: BookId -> seq<K>)
    requires n < |books| && FiledAs(before, books[..n], keysOf) && NoEmptyLists(byKey)
    requires forall k: K :: Under(byKey, k) == Under(before, k) + Copies(books[n], Times(keysOf(books[n]), k))
    ensures FiledAs(byKey, books[..n + 1], keysOf)
  {
    hide Filed, Copies, Times;
    forall k: K
      ensures Under(byKey, k) == Filed(books[..n + 1], keysOf, k) && (k in byKey <==> Under(byKey, k) != [])
    {
      FiledOneMore(books, n, keysOf, k);
      assert Under(before, k) == Filed(books[..n], keysOf, k);
    }
  }

  lemma FiledNothing<K(!new)>(byKey: map<K, seq<BookId>>, keysOf: BookId -> seq<K>)
    requires byKey == map[]
    ensures FiledAs(byKey, [], keysOf)
  {
  }

  lemma OneMoreCopy<K>(book: BookId, keys: seq<K>, m: nat, key: K)
    requires m < |keys|
    ensures Copies(book, Times(keys[..m + 1], key)) ==
            Copies(book, Times(keys[..m], key)) + if keys[m] == key then [book] else []
  {
    assert keys[..m + 1][..m] == keys[..m];
  }

  lemma FiledOneMore<K>(books: seq<BookId>, n: nat, keysOf: BookId -> seq<K>, key: K)
    requires n < |books|
    ensures Filed(books[..n + 1], keysOf, key) ==
            Filed(books[..n], keysOf, key) + Copies(books[n], Times(keysOf(books[n]), key))
  {
    assert books[..n + 1][..n] == books[..n];
  }

  // ---------- lists ----------

  predicate IsLeast<K(==)>(keys: set<K>, k: K, less: (K, K) -> bool)
  {
    k in keys && forall l <- keys :: l == k || less(k, l)
  }

  lemma {:induction false} LeastExists<K(!new)>(keys: set<K>, less: (K, K) -> bool) returns (least: K)
    requires keys != {} && StrictTotal(less)
    ensures least in keys && IsLeast(keys, least, less)
  {
    hide StrictTotal;
    var k :| k in keys;
    var rest := keys - {k};
    if rest == {} {
      least := k;
      assert keys == {k};
    } else {
      hide IsLeast;
      var r := LeastExists(rest, less);
      least := LeastOfBoth(rest, k, r, less);
      assert keys == rest + {k};
    }
  }

  lemma LeastOfBoth<K(!new)>(rest: set<K>, k: K, r: K, less: (K, K) -> bool) returns (least: K)
    requires StrictTotal(less) && IsLeast(rest, r, less)
    ensures least in rest + {k} && IsLeast(rest + {k}, least, less)
  {
    hide StrictTotal;
    least := if less(k, r) then k else r;
    forall l | l in rest
      ensures less(r, l) && less(k, r) ==> less(k, l)
    {
      OrderedAt(less, k, r, l);
    }
    OrderedAt(less, k, r, r);
  }

  lemma OrderedAt<K(!new)>(less: (K, K) -> bool, a: K, b: K, c: K)
    requires StrictTotal(less)
    ensures less(a, b) || less(b, a) || a == b
    ensures less(a, b) && less(b, c) ==> less(a, c)
  {
  }

  /** The keys of a map in order, and every list sorted. */
  method SortAll<K(==, !new)>(filed: map<K, seq<BookId>>, less: (K, K) -> bool, info: Infos)
    returns (keys: seq<K>, byKey: map<K, seq<BookId>>)
    requires StrictTotal(less)
    ensures Increasing(keys, less) && byKey.Keys == filed.Keys && forall k :: k in keys <==> k in filed
    ensures forall k <- byKey :: SortedBooks(byKey[k], info) && multiset(byKey[k]) == multiset(filed[k])
  {
    hide SortedBooks, IsLeast, StrictTotal, Ordered, SortedAs;
    keys, byKey := [], map[];
    var left := filed.Keys;
    NothingOrdered(keys, left, less);
    NothingSorted(byKey, filed, info);
    while left != {}
      invariant byKey.Keys + left == filed.Keys && forall k :: k in keys <==> k in byKey
      invariant Ordered(keys, left, less) && SortedAs(byKey, filed, info)
    {
      ghost var least := LeastExists(left, less);
      var key :| key in left && IsLeast(left, key, less);
      var sorted := SortBooks(filed[key], info);
      OrderedMore(keys, left, key, less);
      SortedMore(byKey, filed, key, sorted, info);
      keys := keys + [key];
      byKey := byKey[key := sorted];
      left := left - {key};
    }
    OrderedMeans(keys, left, less);
    SortedMeans(byKey, filed, info);
  }

  /** The keys listed so far are in order and before all others. */
  ghost predicate Ordered<K>(keys: seq<K>, left: set<K>, less: (K, K) -> bool)
  {
    Increasing(keys, less) && forall k <- keys, l <- left :: less(k, l)
  }

  ghost predicate SortedAs<K>(byKey: map<K, seq<BookId>>, filed: map<K, seq<BookId>>, info: Infos)
  {
    forall k <- byKey :: k in filed && SortedBooks(byKey[k], info) && multiset(byKey[k]) == multiset(filed[k])
  }

  lemma NothingOrdered<K>(keys: seq<K>, left: set<K>, less: (K, K) -> bool)
    requires keys == []
    ensures Ordered(keys, left, less)
  {
  }

  lemma OrderedMore<K(!new)>(keys: seq<K>, left: set<K>, key: K, less: (K, K) -> bool)
    requires Ordered(keys, left, less) && IsLeast(left, key, less)
    ensures Ordered(keys + [key], left - {key}, less)
  {
  }

  lemma OrderedMeans<K>(keys: seq<K>, left: set<K>, less: (K, K) -> bool)
    requires Ordered(keys, left, less)
    ensures Increasing(keys, less)
  {
  }

  lemma NothingSorted<K>(byKey: map<K, seq<BookId>>, filed: map<K, seq<BookId>>, info: Infos)
    requires byKey == map[]
    ensures SortedAs(byKey, filed, info)
  {
  }

  lemma SortedMore<K>(byKey: map<K, seq<BookId>>, filed: map<K, seq<BookId>>, key: K, sorted: seq<BookId>, info: Infos)
    requires SortedAs(byKey, filed, info) && key in filed
    requires SortedBooks(sorted, info) && multiset(sorted) == multiset(filed[key])
    ensures SortedAs(byKey[key := sorted], filed, info)
  {
    hide SortedBooks;
  }

  lemma SortedMeans<K>(byKey: map<K, seq<BookId>>, filed: map<K, seq<BookId>>, info: Infos)
    requires SortedAs(byKey, filed, info)
    ensures forall k <- byKey :: k in filed && SortedBooks(byKey[k], info) && multiset(byKey[k]) == multiset(filed[k])
  {
    hide SortedBooks;
  }

  // ---------- the library ----------

  class Library {
    /** The books, in the order in which they are visited. */
    var myBooks: seq<BookId>
    var authors: seq<Author>
    var tags: seq<Path>
    var booksByAuthor: map<Author, seq<BookId>>
    var booksByTag: map<Path, seq<BookId>>

    constructor (books: seq<BookId>)
      ensures myBooks == books && authors == [] && tags == []
    {
      myBooks := books;
      authors, tags, booksByAuthor, booksByTag := [], [], map[], map[];
    }

    function BooksOfAuthor(author: Author): seq<BookId>
      reads this
    {
      Under(booksByAuthor, author)
    }

    function BooksOfTag(tag: Path): seq<BookId>
      reads this
    {
      Under(booksByTag, tag)
    }

    method RebuildMaps(authorsOf: BookId -> seq<Author>, tagsOf: BookId -> seq<Path>, info: Infos)
      modifies this
      ensures myBooks == old(myBooks)
      ensures Increasing(authors, AuthorLess) && Increasing(tags, PathLess)
      ensures forall a :: a in authors <==> exists b <- myBooks :: HasAuthor(b, a, authorsOf)
      ensures forall t :: t in tags <==> exists b <- myBooks :: HasTag(b, t, tagsOf)
      ensures forall a, b :: b in BooksOfAuthor(a) <==> b in myBooks && HasAuthor(b, a, authorsOf)
      ensures forall t, b :: b in BooksOfTag(t) <==> b in myBooks && HasTag(b, t, tagsOf)
      // every author and every tag of a book is listed, with the book under it
      ensures forall b <- myBooks, a <- authorsOf(b) :: a in authors && b in BooksOfAuthor(a)
      ensures forall b <- myBooks, t <- tagsOf(b) :: t in tags && b in BooksOfTag(t)
      // a book without any is listed under none
      ensures forall b <- myBooks :: authorsOf(b) == [] ==> NoAuthor in authors && b in BooksOfAuthor(NoAuthor)
      ensures forall b <- myBooks :: tagsOf(b) == [] ==> [] in tags && b in BooksOfTag([])
      ensures forall a :: SortedBooks(BooksOfAuthor(a), info) &&
        multiset(BooksOfAuthor(a)) == multiset(Filed(myBooks, b => AuthorKeys(authorsOf(b)), a))
      ensures forall t :: SortedBooks(BooksOfTag(t), info) &&
        multiset(BooksOfTag(t)) == multiset(Filed(myBooks, b => TagKeys(tagsOf(b)), t))
    {
      hide SortedBooks, AuthorLess, PathLess, Filed, StrictTotal, FiledAs, Increasing, AuthorKeys, TagKeys, HasAuthor,
        HasTag, Under;
      AuthorsAreOrdered();
      PathsAreOrdered();
      KeysMean(authorsOf, tagsOf);
      authors, booksByAuthor := FileAndSort(myBooks, b => AuthorKeys(authorsOf(b)), AuthorLess, info);
      tags, booksByTag := FileAndSort(myBooks, b => TagKeys(tagsOf(b)), PathLess, info);
    }
  }

  /** The keys that come up, in order, and under each its books, sorted. */
  method FileAndSort<K(==, !new)>(books: seq<BookId>, keysOf: BookId -> seq<K>, less: (K, K) -> bool, info: Infos)
    returns (keys: seq<K>, byKey: map<K, seq<BookId>>)
    requires StrictTotal(less)
    ensures Increasing(keys, less) && forall k :: k in keys <==> exists b <- books :: k in keysOf(b)
    ensures forall k, b :: b in Under(byKey, k) <==> b in books && k in keysOf(b)
    ensures forall k ::
      SortedBooks(Under(byKey, k), info) && multiset(Under(byKey, k)) == multiset(Filed(books, keysOf, k))
  {
    hide SortedBooks, Filed, StrictTotal, FiledAs, Increasing, Under;
    var filed := FileBooks(books, keysOf);
    keys, byKey := SortAll(filed, less, info);
    FiledAndSorted(filed, byKey, books, keysOf, info);
    FiledIsIn(byKey, books, keysOf);
  }

  /** The book has the author; a book without any has "no author". */
  predicate HasAuthor(book: BookId, author: Author, authorsOf: BookId -> seq<Author>)
  {
    author in authorsOf(book) || (author == NoAuthor && authorsOf(book) == [])
  }

  predicate HasTag(book: BookId, tag: Path, tagsOf: BookId -> seq<Path>)
  {
    tag in tagsOf(book) || (tag == [] && tagsOf(book) == [])
  }

  /** What a book is filed under. */
  lemma KeysMean(authorsOf: BookId -> seq<Author>, tagsOf: BookId -> seq<Path>)
    ensures forall b, a :: a in AuthorKeys(authorsOf(b)) <==> HasAuthor(b, a, authorsOf)
    ensures forall b, t :: t in TagKeys(tagsOf(b)) <==> HasTag(b, t, tagsOf)
    ensures forall b, a :: a in authorsOf(b) ==> HasAuthor(b, a, authorsOf)
    ensures forall b, t :: t in tagsOf(b) ==> HasTag(b, t, tagsOf)
    ensures forall b :: authorsOf(b) == [] ==> HasAuthor(b, NoAuthor, authorsOf)
    ensures forall b :: tagsOf(b) == [] ==> HasTag(b, [], tagsOf)
  {
  }

  lemma FiledIsIn<K(!new)>(byKey: map<K, seq<BookId>>, books: seq<BookId>, keysOf: BookId -> seq<K>)
    requires forall k: K :: multiset(Under(byKey, k)) == multiset(Filed(books, keysOf, k))
    ensures forall k: K, b :: b in Under(byKey, k) <==> b in books && k in keysOf(b)
  {
    hide Under, Filed;
    forall k: K, b
      ensures b in Under(byKey, k) <==> b in books && k in keysOf(b)
    {
      InFiled(books, keysOf, k, b);
      assert b in multiset(Under(byKey, k)) <==> b in multiset(Filed(books, keysOf, k));
    }
  }

  lemma {:induction false} CopiesCount(book: BookId, n: nat, b: BookId)
    ensures multiset(Copies(book, n))[b] == if b == book then n else 0
  {
    if n > 0 {
      CopiesCount(book, n - 1, b);
    }
  }

  lemma {:induction false} TimesIsCount<K>(keys: seq<K>, key: K)
    ensures Times(keys, key) == multiset(keys)[key]
  {
    if keys != [] {
      assert keys == keys[..|keys| - 1] + [keys[|keys| - 1]];
      TimesIsCount(keys[..|keys| - 1], key);
    }
  }

  /** A book is filed under a key as often as it comes up, times as often as it has the key. */
  lemma {:induction false} FiledCount<K>(books: seq<BookId>, keysOf: BookId -> seq<K>, key: K, b: BookId)
    ensures multiset(Filed(books, keysOf, key))[b] == multiset(books)[b] * multiset(keysOf(b))[key]
  {
    hide Copies, Times;
    if books != [] {
      var front, last := books[..|books| - 1], books[|books| - 1];
      FiledCount(front, keysOf, key, b);
      TimesIsCount(keysOf(last), key);
      CopiesCount(last, Times(keysOf(last), key), b);
      var filed, copies := Filed(front, keysOf, key), Copies(last, Times(keysOf(last), key));
      assert Filed(books, keysOf, key) == filed + copies;
      CountsAdd(filed, copies, b);
      assert books == front + [last];
      CountsAdd(front, [last], b);
      if b == last {
        OneMore(multiset(front)[b], multiset(keysOf(b))[key]);
      }
    }
  }

  lemma CountsAdd(a: seq<BookId>, c: seq<BookId>, b: BookId)
    ensures multiset(a + c)[b] == multiset(a)[b] + multiset(c)[b]
  {
  }

  lemma OneMore(n: nat, m: nat)
    ensures (n + 1) * m == n * m + m
  {
  }

  lemma FiledAndSorted<K(!new)>(filed: map<K, seq<BookId>>, byKey: map<K, seq<BookId>>, books: seq<BookId>,
                                keysOf: BookId -> seq<K>, info: Infos)
    requires FiledAs(filed, books, keysOf) && byKey.Keys == filed.Keys
    requires forall k <- byKey :: SortedBooks(byKey[k], info) && multiset(byKey[k]) == multiset(filed[k])
    ensures forall k: K :: k in filed <==> exists b <- books :: k in keysOf(b)
    ensures forall k: K ::
      SortedBooks(Under(byKey, k), info) && multiset(Under(byKey, k)) == multiset(Filed(books, keysOf, k))
  {
    forall k: K
      ensures k in filed <==> exists b <- books :: k in keysOf(b)
      ensures SortedBooks(Under(byKey, k), info) && multiset(Under(byKey, k)) == multiset(Filed(books, keysOf, k))
    {
      assert Under(filed, k) == Filed(books, keysOf, k) && (k in filed <==> Under(filed, k) != []);
      FiledUnderSome(books, keysOf, k);
    }
  }

  lemma FiledUnderSome<K>(books: seq<BookId>, keysOf: BookId -> seq<K>, key: K)
    ensures Filed(books, keysOf, key) != [] <==> exists b <- books :: key in keysOf(b)
  {
    hide Filed;
    if Filed(books, keysOf, key) != [] {
      var b := Filed(books, keysOf, key)[0];
      assert b in Filed(books, keysOf, key);
      InFiled(books, keysOf, key, b);
    }
    if b :| b in books && key in keysOf(b) {
      InFiled(books, keysOf, key, b);
    }
  }

  lemma AuthorsAreOrdered()
    ensures StrictTotal(AuthorLess)
  {
    hide AuthorLess;
    forall a, b
      ensures AuthorLess(a, b) || AuthorLess(b, a) || a == b
      ensures !(AuthorLess(a, b) && AuthorLess(b, a))
    {
      AuthorTrichotomy(a, b);
    }
    forall a, b, c | AuthorLess(a, b) && AuthorLess(b, c)
      ensures AuthorLess(a, c)
    {
      AuthorTransitive(a, b, c);
    }
  }

  lemma PathsAreOrdered()
    ensures StrictTotal(PathLess)
  {
    hide PathLess;
    forall p, q
      ensures PathLess(p, q) || PathLess(q, p) || p == q
      ensures !(PathLess(p, q) && PathLess(q, p))
    {
      PathTrichotomy(p, q);
    }
    forall p, q, r | PathLess(p, q) && PathLess(q, r)
      ensures PathLess(p, r)
    {
      PathTransitive(p, q, r);
    }
  }

  lemma IncreasingIsAscending(authors: seq<Author>)
    requires Increasing(authors, AuthorLess)
    ensures Ascending(authors)
  {
    hide AuthorLess;
  }

  /** From the library to the screen: one node per author, in order, each with its sorted books; in a node that is built
      now every series with several books has one node, with all its books, and no other series has one. */
  method ShowAuthors(library: Library, view: AuthorView, authorsOf: BookId -> seq<Author>,
                     tagsOf: BookId -> seq<Path>, info: Infos)
    requires view.Valid()
    modifies library, view, view.root
    ensures view.Valid() && AuthorsOf(view.root) == library.authors
    ensures forall n <- view.root :: Flatten(n.children) == library.BooksOfAuthor(n.author)
    ensures forall n <- view.root :: n !in old(view.root) ==>
      OneNodePerSeries(n.children, info) &&
      forall c <- n.children :: NodeRight(c, library.BooksOfAuthor(n.author), info)
  {
    hide Increasing, Ascending, Grouped, Flatten, OneNodePerSeries, NodeRight, Filed, SortedBooks, UpToDate, HasNode;
    library.RebuildMaps(authorsOf, tagsOf, info);
    IncreasingIsAscending(library.authors);
    var byAuthor := library.booksByAuthor;
    view.MakeUpToDate(library.authors, a => Under(byAuthor, a), info);
    forall n | n in view.root && n !in old(view.root)
      ensures OneNodePerSeries(n.children, info)
      ensures forall c <- n.children :: NodeRight(c, library.BooksOfAuthor(n.author), info)
    {
      SortedListIsGroupedRight(library.BooksOfAuthor(n.author), info);
    }
  }
}

/** What the tag view is given: the collected tags of the library, by their paths; and what it then shows. */
module TagViewInput {
  import opened Order
  import opened Tags
  import opened TagQueries
  import opened BookOrder
  import opened LibraryMaps
  import TagViews

  function Paths(ghost all: set<Tag>, tags: seq<Tag?>): (r: seq<Path>)
    requires Interned(all) && AllKnown(all, tags)
    ensures |r| == |tags| && forall i :: 0 <= i < |r| ==> r[i] == TagPath(tags[i])
  {
    seq(|tags|, i requires 0 <= i < |tags| => assert tags[i] in tags; TagPath(tags[i]))
  }

  /** The collected tags meet what the update of the tag view needs: every tag once, its parent before it. */
  lemma CollectedParentsFirst(all: set<Tag>, list: seq<Tag?>, tags: seq<Tag?>)
    requires Interned(all) && AllKnown(all, list) && Collected(all, list, tags)
    ensures AllKnown(all, tags) && TagViews.ParentsFirst(Paths(all, tags))
  {
    hide PathLess, InClosure;
    var paths := Paths(all, tags);
    forall i, j | 0 <= i < j < |paths|
      ensures paths[i] != paths[j]
    {
      PathTrichotomy(paths[i], paths[j]);
    }
    forall i | 0 <= i < |paths| && |paths[i]| > 1
      ensures paths[i][..|paths[i]| - 1] in paths[..i]
    {
      ParentCollected(all, list, tags, i);
    }
  }

  lemma ParentCollected(all: set<Tag>, list: seq<Tag?>, tags: seq<Tag?>, i: nat)
    requires Interned(all) && AllKnown(all, list) && Collected(all, list, tags)
    requires i < |tags| && |TagPath(tags[i])| > 1
    ensures TagPath(tags[i])[..|TagPath(tags[i])| - 1] in Paths(all, tags)[..i]
  {
    hide PathLess, InClosure;
    var t := tags[i];
    PathLength(t);
    var p := TagPath(t.parent);
    assert p == TagPath(t)[..|TagPath(t)| - 1];
    assert t in tags;
    ClosureDown(all, list, t.parent, t);
    var j :| 0 <= j < |tags| && tags[j] == t.parent;
    PrefixFirst(p, TagPath(t));
    PathTrichotomy(p, TagPath(t));
    assert j < i;
    assert Paths(all, tags)[..i][j] == p;
  }

  // ---------- from the library to the screen ----------

  /** The tag of every path that a book may have; no tag for the empty path. */
  ghost predicate Names(tagAt: Path -> Tag?, all: set<Tag>, tagsOf: BookId -> seq<Path>, books: seq<BookId>)
    requires Interned(all)
  {
    forall b <- books, p | HasTag(b, p, tagsOf) :: Known(all, tagAt(p)) && TagPath(tagAt(p)) == p
  }

  /** The tag of the path is to be shown: a book has it, or has one below it; "no tag" is shown only for itself. */
  ghost predicate Shown(tag: Path, tagsOf: BookId -> seq<Path>, books: seq<BookId>)
  {
    exists b <- books, p :: HasTag(b, p, tagsOf) && (tag == p || (tag != [] && tag < p))
  }

  /** After rebuilding the maps, the view has a node for every tag of a book and for every ancestor of one, and no
      other; by file, every node shows the books of its tag in order. */
  method ShowTags(library: Library, view: TagViews.TagView, tagAt: Path -> Tag?, ghost all: set<Tag>,
                  authorsOf: BookId -> seq<AuthorSubtrees.Author>, tagsOf: BookId -> seq<Path>, info: Infos,
                  file: TagViews.Files)
    requires view.Valid() && Interned(all) && Names(tagAt, all, tagsOf, library.myBooks)
    modifies library, view, view.root, view.nodes
    ensures view.Valid() && library.myBooks == old(library.myBooks)
    ensures forall n <- view.nodes :: Shown(n.tag, tagsOf, library.myBooks)
    ensures forall tag :: Shown(tag, tagsOf, library.myBooks) ==> exists n <- view.nodes :: n.tag == tag
    ensures forall tag :: SortedBooks(library.BooksOfTag(tag), info) &&
      multiset(library.BooksOfTag(tag)) == multiset(Filed(library.myBooks, b => TagKeys(tagsOf(b)), tag))
    ensures forall n <- view.nodes :: TagViews.SameFiles(TagViews.Books(n.children), library.BooksOfTag(n.tag), file)
  {
    hide Increasing, SortedBooks, Filed, PathLess, TagViews.SameFiles, TagViews.Books, TagViews.IsTree,
      TagViews.Updated, Collected, Shown, Names, AllKnown;
    library.RebuildMaps(authorsOf, tagsOf, info);
    var list := TagsAt(tagAt, library.tags);
    ListIsSorted(library.tags, list, tagAt, all, tagsOf, library.myBooks);
    var tags := CollectTags(list, all);
    CollectedParentsFirst(all, list, tags);
    CollectedAreShown(library.tags, list, tags, tagAt, all, tagsOf, library.myBooks);
    var byTag := library.booksByTag;
    view.MakeUpToDate(Paths(all, tags), p => Under(byTag, p), file);
  }

  function TagsAt(tagAt: Path -> Tag?, paths: seq<Path>): (list: seq<Tag?>)
    ensures |list| == |paths| && forall i :: 0 <= i < |list| ==> list[i] == tagAt(paths[i])
  {
    seq(|paths|, i requires 0 <= i < |paths| => tagAt(paths[i]))
  }

  /** Ascending paths make a list of tags in the comparator's order. */
  lemma ListIsSorted(paths: seq<Path>, list: seq<Tag?>, tagAt: Path -> Tag?, all: set<Tag>,
                     tagsOf: BookId -> seq<Path>, books: seq<BookId>)
    requires Interned(all) && Names(tagAt, all, tagsOf, books) && list == TagsAt(tagAt, paths)
    requires Increasing(paths, PathLess)
    requires forall p :: p in paths <==> exists b <- books :: HasTag(b, p, tagsOf)
    ensures AllKnown(all, list) && Sorted(all, list)
    ensures forall i :: 0 <= i < |list| ==> TagPath(list[i]) == paths[i]
  {
    hide PathLess, HasTag;
    forall i | 0 <= i < |list|
      ensures Known(all, list[i]) && TagPath(list[i]) == paths[i]
    {
      assert paths[i] in paths;
      var b :| b in books && HasTag(b, paths[i], tagsOf);
    }
  }

  lemma CollectedAreShown(paths: seq<Path>, list: seq<Tag?>, tags: seq<Tag?>, tagAt: Path -> Tag?, all: set<Tag>,
                          tagsOf: BookId -> seq<Path>, books: seq<BookId>)
    requires Interned(all) && Names(tagAt, all, tagsOf, books) && AllKnown(all, list) && Collected(all, list, tags)
    requires |list| == |paths| && forall i :: 0 <= i < |list| ==> TagPath(list[i]) == paths[i]
    requires forall p :: p in paths <==> exists b <- books :: HasTag(b, p, tagsOf)
    ensures forall p :: p in Paths(all, tags) <==> Shown(p, tagsOf, books)
  {
    hide PathLess, HasTag, SiblingsDiffer;
    forall p
      ensures p in Paths(all, tags) <==> Shown(p, tagsOf, books)
    {
      if p in Paths(all, tags) {
        var i :| 0 <= i < |tags| && TagPath(tags[i]) == p;
        assert tags[i] in tags;
        CollectedComesFrom(list, tags, tags[i], all);
        var k :| 0 <= k < |list| && (p == TagPath(list[k]) || (p != [] && p < TagPath(list[k])));
        assert paths[k] in paths;
      }
      if Shown(p, tagsOf, books) {
        var b, q :| b in books && HasTag(b, q, tagsOf) && (p == q || (p != [] && p < q));
        assert q in paths;
        var k :| 0 <= k < |paths| && paths[k] == q;
        ShownIsCollected(list, tags, k, p, all);
      }
    }
  }

  /** A collected tag is listed or an ancestor of a listed one. */
  lemma CollectedComesFrom(list: seq<Tag?>, tags: seq<Tag?>, t: Tag?, all: set<Tag>)
    requires Interned(all) && AllKnown(all, list) && Collected(all, list, tags) && t in tags
    ensures Known(all, t)
    ensures exists k ::
      0 <= k < |list| && (TagPath(t) == TagPath(list[k]) || (TagPath(t) != [] && TagPath(t) < TagPath(list[k])))
  {
    hide PathLess, SiblingsDiffer;
    if t == null {
      var k :| 0 <= k < |list| && list[k] == null;
    } else {
      assert InClosure(list, t, all);
      var k :| 0 <= k < |list| && TagPath(t) <= TagPath(list[k]);
      PathLength(t);
    }
  }

  lemma ShownIsCollected(list: seq<Tag?>, tags: seq<Tag?>, k: nat, p: Path, all: set<Tag>)
    requires Interned(all) && AllKnown(all, list) && Collected(all, list, tags) && k < |list|
    requires p == TagPath(list[k]) || (p != [] && p < TagPath(list[k]))
    ensures p in Paths(all, tags)
  {
    hide PathLess, SiblingsDiffer;
    var t: Tag? := list[k];
    if p != TagPath(t) {
      assert |p| < |TagPath(t)|;
      t := AncestorAt(t, p, all);
    }
    if t == null {
      assert list[k] in list;
    } else {
      assert InClosure(list, t, all);
    }
    var i :| 0 <= i < |tags| && tags[i] == t;
    assert Paths(all, tags)[i] == p;
  }

  /** The ancestor with a path in front of the tag's. */
  ghost function AncestorAt(t: Tag, p: Path, all: set<Tag>): (s: Tag)
    requires Closed(all) && t in all && p != [] && p <= TagPath(t)
    ensures s in all && TagPath(s) == p
    decreases t.level
  {
    if p == TagPath(t) then t
    else
      assert p <= TagPath(t)[..|TagPath(t)| - 1] == TagPath(t.parent);
      AncestorAt(t.parent, p, all)
  }
}

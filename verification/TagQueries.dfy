/** Questions to the library's sorted tag list (Library.cpp, BooksUtil.cpp). */
module TagQueries {
  import opened Order
  import opened Tags

  ghost predicate AllKnown(all: set<Tag>, list: seq<Tag?>)
  {
    forall i :: 0 <= i < |list| ==> list[i] == null || list[i] in all
  }

  /** Strictly ascending in the comparator's order, as the keys of a map are. */
  ghost predicate Sorted(all: set<Tag>, list: seq<Tag?>)
    requires Interned(all)
  {
    && AllKnown(all, list)
    && (forall i, j :: 0 <= i < j < |list| ==> PathLess(TagPath(list[i]), TagPath(list[j])))
  }

  /** The first element after `tag` in the order. */
  method UpperBound(list: seq<Tag?>, tag: Tag?, ghost all: set<Tag>) returns (k: nat)
    requires Interned(all) && Sorted(all, list) && Known(all, tag)
    ensures k <= |list|
    ensures forall i :: 0 <= i < |list| ==> (k <= i <==> PathLess(TagPath(tag), TagPath(list[i])))
  {
    k := 0;
    var high: nat := |list|;
    while k < high
      invariant k <= high <= |list|
      invariant forall i :: 0 <= i < k ==> !PathLess(TagPath(tag), TagPath(list[i]))
      invariant forall i :: high <= i < |list| ==> PathLess(TagPath(tag), TagPath(list[i]))
    {
      var mid := (k + high) / 2;
      var less := Less(tag, list[mid], all);
      if less {
        forall i | mid < i < |list|
          ensures PathLess(TagPath(tag), TagPath(list[i]))
        {
          PathTransitive(TagPath(tag), TagPath(list[mid]), TagPath(list[i]));
        }
        high := mid;
      } else {
        forall i | 0 <= i < mid
          ensures !PathLess(TagPath(tag), TagPath(list[i]))
        {
          if PathLess(TagPath(tag), TagPath(list[i])) {
            PathTransitive(TagPath(tag), TagPath(list[i]), TagPath(list[mid]));
          }
        }
        k := mid + 1;
      }
    }
  }

  /** Some listed tag lies properly below `tag`. */
  ghost predicate HasDescendant(list: seq<Tag?>, tag: Tag, all: set<Tag>)
    requires Interned(all) && tag in all && AllKnown(all, list)
  {
    exists i :: 0 <= i < |list| && TagPath(tag) < TagPath(list[i])
  }

  /** Looking at one element is enough: descendants follow their ancestor without a gap. */
  method HasSubtags(list: seq<Tag?>, tag: Tag, ghost all: set<Tag>) returns (yes: bool)
    requires Interned(all) && Sorted(all, list) && tag in all
    ensures yes == HasDescendant(list, tag, all)
  {
    var k := UpperBound(list, tag, all);
    if k < |list| {
      PathTrichotomy(TagPath(list[k]), []);
      yes := tag.IsAncestorOf(list[k], all);
    } else {
      yes := false;
    }
    if HasDescendant(list, tag, all) {
      var d :| 0 <= d < |list| && TagPath(tag) < TagPath(list[d]);
      PrefixFirst(TagPath(tag), TagPath(list[d]));
      PrefixInterval(TagPath(tag), TagPath(list[k]), TagPath(list[d]));
      PathTrichotomy(TagPath(tag), TagPath(list[k]));
    }
  }

  // ---------- the ancestor closure ----------

  /** `t` is listed or an ancestor of a listed tag. */
  ghost predicate InClosure(list: seq<Tag?>, t: Tag, all: set<Tag>)
    requires Interned(all) && t in all && AllKnown(all, list)
  {
    exists i :: 0 <= i < |list| && TagPath(t) <= TagPath(list[i])
  }

  /** Everything collected so far comes before everything a later tag adds. */
  lemma CollectedBeforeNew(all: set<Tag>, list: seq<Tag?>, n: nat, y: Tag?, x: Tag)
    requires Interned(all) && Sorted(all, list) && n < |list| && Known(all, y) && x in all
    requires (y != null ==> InClosure(list[..n], y, all)) && !InClosure(list[..n], x, all)
    requires TagPath(x) <= TagPath(list[n])
    ensures PathLess(TagPath(y), TagPath(x))
  {
    if y != null {
      var i :| 0 <= i < n && TagPath(y) <= TagPath(list[..n][i]);
      assert list[..n][i] == list[i];
      var p, q := TagPath(y), TagPath(x);
      assert p <= TagPath(list[i]) && !(q <= p);
      if p <= q {
        PrefixFirst(p, q);
      } else {
        ExtensionsOrdered(p, q, TagPath(list[i]), TagPath(list[n]));
      }
    }
  }

  // ---------- branches ----------

  /** Each tag is the parent of the next; the last one is `tag`. */
  ghost predicate IsBranch(all: set<Tag>, branch: seq<Tag>, tag: Tag)
  {
    && branch != [] && branch[|branch| - 1] == tag
    && (forall i :: 0 <= i < |branch| ==> branch[i] in all)
    && (forall i :: 0 < i < |branch| ==> branch[i].parent == branch[i - 1])
  }

  /** The tags of a branch not collected yet, from the top down; the first is always taken. */
  method NewBranch(tag: Tag, tagSet: set<Tag?>, ghost all: set<Tag>) returns (branch: seq<Tag>)
    requires Interned(all) && tag in all
    ensures IsBranch(all, branch, tag)
    ensures forall i :: 0 <= i < |branch| - 1 ==> branch[i] !in tagSet
    ensures branch[0].parent != null ==> branch[0].parent in tagSet
  {
    branch := [tag];
    var t := tag.parent;
    while t != null && t !in tagSet
      invariant IsBranch(all, branch, tag) && t == branch[0].parent
      invariant forall i :: 0 <= i < |branch| - 1 ==> branch[i] !in tagSet
      decreases if t == null then 0 else t.level + 1
    {
      branch := [t] + branch;
      t := t.parent;
    }
  }

  lemma {:induction false} BranchIncreases(all: set<Tag>, branch: seq<Tag>, tag: Tag, i: nat, j: nat)
    requires Interned(all) && IsBranch(all, branch, tag) && i <= j < |branch|
    ensures TagPath(branch[i]) <= TagPath(branch[j]) && (i < j ==> TagPath(branch[i]) < TagPath(branch[j]))
    decreases j
  {
    hide SiblingsDiffer;
    if i < j {
      BranchIncreases(all, branch, tag, i, j - 1);
      assert TagPath(branch[j]) == TagPath(branch[j - 1]) + [branch[j].name];
    }
  }

  /** Every ancestor of a branch's last tag is on the branch or above it. */
  lemma {:induction false} BranchCovers(all: set<Tag>, branch: seq<Tag>, tag: Tag, t: Tag, n: nat)
    requires Interned(all) && IsBranch(all, branch, tag) && t in all && n < |branch|
    requires TagPath(t) <= TagPath(branch[n])
    ensures t in branch || TagPath(t) <= TagPath(branch[0].parent)
    decreases n
  {
    hide SiblingsDiffer;
    AncestorOrSelf(all, branch[n]);
    if n > 0 && t != branch[n] {
      BranchCovers(all, branch, tag, t, n - 1);
    }
  }

  /** Down a branch the paths get longer, and every ancestor of its last tag is on it or above it. */
  lemma BranchPaths(all: set<Tag>, branch: seq<Tag>, tag: Tag)
    requires Interned(all) && IsBranch(all, branch, tag)
    ensures forall i :: 0 <= i < |branch| ==> TagPath(branch[i]) <= TagPath(tag)
    ensures forall i, j :: 0 <= i < j < |branch| ==> TagPath(branch[i]) < TagPath(branch[j])
    ensures forall t <- all :: TagPath(t) <= TagPath(tag) ==> t in branch || TagPath(t) <= TagPath(branch[0].parent)
  {
    hide SiblingsDiffer;
    forall i, j | 0 <= i <= j < |branch|
      ensures TagPath(branch[i]) <= TagPath(branch[j]) && (i < j ==> TagPath(branch[i]) < TagPath(branch[j]))
    {
      BranchIncreases(all, branch, tag, i, j);
    }
    forall t <- all | TagPath(t) <= TagPath(tag)
      ensures t in branch || TagPath(t) <= TagPath(branch[0].parent)
    {
      BranchCovers(all, branch, tag, t, |branch| - 1);
    }
  }

  /** A tag that leads to `t` is `t` or leads to its parent. */
  lemma AncestorOrSelf(all: set<Tag>, t: Tag)
    requires Interned(all) && t in all
    ensures forall s <- all :: TagPath(s) <= TagPath(t) ==> s == t || TagPath(s) <= TagPath(t.parent)
  {
    forall s <- all | TagPath(s) <= TagPath(t) && !(TagPath(s) <= TagPath(t.parent))
      ensures s == t
    {
      SamePathSameTag(all, s, t);
    }
  }

  // ---------- collecting ----------

  ghost predicate Collected(all: set<Tag>, list: seq<Tag?>, tags: seq<Tag?>)
    requires Interned(all) && AllKnown(all, list)
  {
    && Sorted(all, tags)
    && (null in tags <==> null in list)
    && (forall t <- all :: t in tags <==> InClosure(list, t, all))
  }

  /** All listed tags and their ancestors (and "no tag" if it is listed), each once, parents before children, in the
      comparator's order. */
  method CollectTags(list: seq<Tag?>, ghost all: set<Tag>) returns (tags: seq<Tag?>)
    requires Interned(all) && Sorted(all, list)
    ensures Collected(all, list, tags)
  {
    tags := [];
    var tagSet: set<Tag?> := {};
    for n := 0 to |list|
      invariant Collected(all, list[..n], tags) && tagSet == set t | t in tags
    {
      var tag := list[n];
      if tag == null {
        NullComesFirst(all, list, n);
        CollectNull(all, list, n, tags);
        tagSet := tagSet + {tag};
        tags := tags + [tag];
      } else {
        var branch := NewBranch(tag, tagSet, all);
        BranchPaths(all, branch, tag);
        CollectBranch(all, list, n, tags, branch);
        tagSet := tagSet + set t | t in branch;
        tags := tags + branch;
      }
    }
    assert list[..|list|] == list;
  }

  lemma NullComesFirst(all: set<Tag>, list: seq<Tag?>, n: nat)
    requires Interned(all) && Sorted(all, list) && n < |list| && list[n] == null
    ensures n == 0
  {
    assert !PathLess(TagPath(list[0]), TagPath(list[n]));
  }

  lemma HasElement(list: seq<Tag?>)
    requires list != []
    ensures exists t :: t in list
  {
    assert list[0] in list;
  }

  lemma CollectNull(all: set<Tag>, list: seq<Tag?>, n: nat, tags: seq<Tag?>)
    requires Interned(all) && Sorted(all, list) && n == 0 < |list| && list[n] == null
    requires Collected(all, list[..n], tags)
    ensures Collected(all, list[..n + 1], tags + [null])
  {
    assert forall t <- all :: !InClosure(list[..n], t, all);
    if tags != [] {
      HasElement(tags);
    }
    var first := list[..n + 1];
    assert first == [null];
    forall t <- all
      ensures !InClosure(first, t, all)
    {
      PathLength(t);
    }
  }

  lemma CollectBranch(all: set<Tag>, list: seq<Tag?>, n: nat, tags: seq<Tag?>, branch: seq<Tag>)
    requires Interned(all) && Sorted(all, list) && n < |list| && list[n] != null
    requires Collected(all, list[..n], tags)
    requires branch != [] && branch[|branch| - 1] == list[n]
    requires forall i :: 0 <= i < |branch| ==> branch[i] in all && TagPath(branch[i]) <= TagPath(list[n])
    requires forall i :: 0 <= i < |branch| - 1 ==> branch[i] !in tags
    requires forall i, j :: 0 <= i < j < |branch| ==> TagPath(branch[i]) < TagPath(branch[j])
    requires branch[0].parent != null ==> branch[0].parent in tags
    requires forall t <- all ::
      TagPath(t) <= TagPath(list[n]) ==> t in branch || TagPath(t) <= TagPath(branch[0].parent)
    ensures Collected(all, list[..n + 1], tags + branch)
  {
    hide SiblingsDiffer, PathLess, InClosure;
    BranchIsNew(all, list, n, tags, branch);
    SortedBranch(all, list, n, tags, branch);
    forall t <- all
      ensures t in tags + branch <==> InClosure(list[..n + 1], t, all)
    {
      BranchClosure(all, list, n, tags, branch, t);
    }
    assert list[..n + 1] == list[..n] + [list[n]];
  }

  lemma BranchIsNew(all: set<Tag>, list: seq<Tag?>, n: nat, tags: seq<Tag?>, branch: seq<Tag>)
    requires Interned(all) && Sorted(all, list) && n < |list| && list[n] != null
    requires Collected(all, list[..n], tags)
    requires branch != [] && branch[|branch| - 1] == list[n]
    requires forall i :: 0 <= i < |branch| ==> branch[i] in all
    requires forall i :: 0 <= i < |branch| - 1 ==> branch[i] !in tags
    ensures forall i :: 0 <= i < |branch| ==> !InClosure(list[..n], branch[i], all)
  {
    hide SiblingsDiffer, PathLess, InClosure;
    SelfIsNew(all, list, n);
  }

  /** A listed tag is never an ancestor of an earlier one. */
  lemma SelfIsNew(all: set<Tag>, list: seq<Tag?>, n: nat)
    requires Interned(all) && Sorted(all, list) && n < |list| && list[n] != null
    ensures !InClosure(list[..n], list[n], all)
  {
    if InClosure(list[..n], list[n], all) {
      var i :| 0 <= i < n && TagPath(list[n]) <= TagPath(list[..n][i]);
      assert PathLess(TagPath(list[i]), TagPath(list[n]));
      PathTrichotomy(TagPath(list[i]), TagPath(list[n]));
      PrefixFirst(TagPath(list[n]), TagPath(list[i]));
    }
  }

  lemma SortedBranch(all: set<Tag>, list: seq<Tag?>, n: nat, tags: seq<Tag?>, branch: seq<Tag>)
    requires Interned(all) && Sorted(all, list) && n < |list|
    requires Collected(all, list[..n], tags)
    requires forall i :: 0 <= i < |branch| ==>
      branch[i] in all && TagPath(branch[i]) <= TagPath(list[n]) && !InClosure(list[..n], branch[i], all)
    requires forall i, j :: 0 <= i < j < |branch| ==> TagPath(branch[i]) < TagPath(branch[j])
    ensures Sorted(all, tags + branch)
  {
    var out := tags + branch;
    forall i, j | 0 <= i < j < |out|
      ensures PathLess(TagPath(out[i]), TagPath(out[j]))
    {
      if j < |tags| {
        assert out[i] == tags[i] && out[j] == tags[j];
      } else if i < |tags| {
        assert tags[i] in tags;
        CollectedBeforeNew(all, list, n, tags[i], branch[j - |tags|]);
      } else {
        PrefixFirst(TagPath(branch[i - |tags|]), TagPath(branch[j - |tags|]));
      }
    }
  }

  lemma BranchClosure(all: set<Tag>, list: seq<Tag?>, n: nat, tags: seq<Tag?>, branch: seq<Tag>, t: Tag)
    requires Interned(all) && Sorted(all, list) && n < |list| && list[n] != null && t in all
    requires Collected(all, list[..n], tags) && branch != []
    requires forall i :: 0 <= i < |branch| ==> branch[i] in all && TagPath(branch[i]) <= TagPath(list[n])
    requires branch[0].parent != null ==> branch[0].parent in tags
    requires forall t <- all ::
      TagPath(t) <= TagPath(list[n]) ==> t in branch || TagPath(t) <= TagPath(branch[0].parent)
    ensures t in tags + branch <==> InClosure(list[..n + 1], t, all)
  {
    ClosureStep(all, list, n, t);
    if TagPath(t) <= TagPath(list[n]) && t !in branch {
      var parent := branch[0].parent;
      assert parent != null;
      ClosureDown(all, list[..n], t, parent);
    }
  }

  lemma ClosureStep(all: set<Tag>, list: seq<Tag?>, n: nat, t: Tag)
    requires Interned(all) && n < |list| && list[n] != null && t in all
    requires AllKnown(all, list)
    ensures InClosure(list[..n + 1], t, all) <==>
      InClosure(list[..n], t, all) || TagPath(t) <= TagPath(list[n])
  {
    var a, b := list[..n], list[..n + 1];
    assert forall i :: 0 <= i < n ==> a[i] == b[i];
    assert b[n] == list[n];
  }

  lemma ClosureDown(all: set<Tag>, list: seq<Tag?>, t: Tag, below: Tag)
    requires Interned(all) && t in all && below in all && AllKnown(all, list)
    requires TagPath(t) <= TagPath(below) && InClosure(list, below, all)
    ensures InClosure(list, t, all)
  {
    var i :| 0 <= i < |list| && TagPath(below) <= TagPath(list[i]);
    assert TagPath(t) <= TagPath(list[i]);
  }
}

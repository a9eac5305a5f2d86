/** The tags of a book and what renaming, cloning and removing do to them (Book.cpp). */
module BookTags {
  import opened Order
  import opened Tags
  import opened TagForests

  /** Replace the prefix `from` of a path by `to`; other paths stay. */
  function Subst(p: Path, from: Path, to: Path): Path
  {
    if from <= p then to + p[|from|..] else p
  }

  ghost predicate AllIn(all: set<Tag>, list: seq<Tag?>)
  {
    forall t <- list :: t != null ==> t in all
  }

  ghost predicate NoneNull(list: seq<Tag?>) { null !in list }

  ghost predicate NoDuplicates(list: seq<Tag?>)
  {
    forall i, j :: 0 <= i < j < |list| ==> list[i] != list[j]
  }

  /** The paths of a list of tags. */
  ghost function PathsOf(all: set<Tag>, list: seq<Tag?>): (p: seq<Path>)
    requires Interned(all) && AllIn(all, list)
    ensures |p| == |list|
  {
    seq(|list|, i requires 0 <= i < |list| => assert list[i] in list; TagPath(list[i]))
  }

  ghost function SetPaths(all: set<Tag>, tags: set<Tag?>): set<Path>
    requires Interned(all) && forall t <- tags :: t != null ==> t in all
  {
    set t | t in tags :: TagPath(t)
  }

  /** The list with one element replaced, or dropped if its replacement is there already. */
  function Replaced(list: seq<Tag?>, i: nat, to: Tag?): seq<Tag?>
    requires i < |list|
  {
    if to in list then list[..i] + list[i + 1..] else list[i := to]
  }

  lemma ReplacedMeans(list: seq<Tag?>, i: nat, to: Tag?)
    requires NoDuplicates(list) && i < |list|
    ensures NoDuplicates(Replaced(list, i, to)) && forall k :: 0 <= k < |list| && list[k] == list[i] ==> k == i
    ensures forall t :: t in Replaced(list, i, to) <==> (t in list && t != list[i]) || (t == to && to != list[i])
  {
    if to in list {
      ErasedMeans(list, i);
    } else {
      PutMeans(list, i, to);
    }
  }

  lemma ErasedMeans(list: seq<Tag?>, i: nat)
    requires NoDuplicates(list) && i < |list|
    ensures
      var r := list[..i] + list[i + 1..];
      NoDuplicates(r) && forall t :: t in r <==> t in list && t != list[i]
  {
    assert list == list[..i] + [list[i]] + list[i + 1..];
    assert list[i] !in list[..i] && list[i] !in list[i + 1..];
  }

  lemma PutMeans(list: seq<Tag?>, i: nat, to: Tag?)
    requires NoDuplicates(list) && i < |list| && to !in list
    ensures
      var r := list[i := to];
      NoDuplicates(r) && forall t :: t in r <==> (t in list && t != list[i]) || t == to
  {
    var r := list[i := to];
    assert r[i] == to && forall k :: 0 <= k < |list| && k != i ==> r[k] == list[k];
    forall t | t in list && t != list[i]
      ensures t in r
    {
      var k :| 0 <= k < |list| && list[k] == t;
      assert r[k] == t;
    }
  }

  /** Some path is `from` or lies below it. */
  predicate Touches(paths: seq<Path>, from: Path)
  {
    exists p <- paths :: from <= p
  }

  /** The images of the paths under the replacement; of all of them, or only of those it changes. */
  function Images(paths: seq<Path>, from: Path, to: Path, keep: bool): set<Path>
  {
    set p | p in paths && (keep || from <= p) :: Subst(p, from, to)
  }

  lemma ImagesStep(paths: seq<Path>, p: Path, from: Path, to: Path, keep: bool)
    ensures Images(paths + [p], from, to, keep) ==
            Images(paths, from, to, keep) + if keep || from <= p then {Subst(p, from, to)} else {}
    ensures Touches(paths + [p], from) == (Touches(paths, from) || from <= p)
  {
    hide Subst;
    var longer, extra := Images(paths + [p], from, to, keep), if keep || from <= p then {Subst(p, from, to)} else {};
    assert forall r :: r in paths + [p] <==> r in paths || r == p;
    forall q
      ensures q in longer <==> q in Images(paths, from, to, keep) + extra
    {
      if q in longer {
        var r :| r in paths + [p] && (keep || from <= r) && q == Subst(r, from, to);
        assert r in paths || r == p;
      }
      if q in Images(paths, from, to, keep) {
        var r :| r in paths && (keep || from <= r) && q == Subst(r, from, to);
        assert r in paths + [p];
      }
      if q in extra {
        assert p in paths + [p];
      }
    }
    assert longer == Images(paths, from, to, keep) + extra;
    if Touches(paths, from) {
      var r :| r in paths && from <= r;
      assert r in paths + [p];
    } else if from <= p {
      assert p in paths + [p];
    }
  }

  lemma SetPathsStep(all: set<Tag>, tags: set<Tag?>, t: Tag?)
    requires Interned(all) && (forall s <- tags :: s != null ==> s in all) && Known(all, t)
    ensures SetPaths(all, tags + {t}) == SetPaths(all, tags) + {TagPath(t)}
  {
  }

  /** A list of the elements of a set, in no particular order. */
  method Enumerate(tags: set<Tag?>) returns (list: seq<Tag?>)
    ensures NoDuplicates(list) && forall t :: t in list <==> t in tags
  {
    list := [];
    var rest := tags;
    while rest != {}
      invariant rest <= tags && NoDuplicates(list)
      invariant forall t :: t in list <==> t in tags - rest
      decreases |rest|
    {
      var t :| t in rest;
      assert forall i :: 0 <= i < |list| ==> list[i] in list;
      list := list + [t];
      rest := rest - {t};
    }
  }

  class Book {
    var tags: seq<Tag?>

    constructor ()
      ensures tags == []
    {
      tags := [];
    }

    method AddTag(tag: Tag?) returns (added: bool)
      requires NoDuplicates(tags)
      modifies this
      ensures NoDuplicates(tags)
      ensures added == (tag != null && tag !in old(tags))
      ensures tags == if added then old(tags) + [tag] else old(tags)
    {
      if tag == null || tag in tags {
        return false;
      }
      tags := tags + [tag];
      added := true;
    }

    /** Where a book's tag goes when `from` becomes `to` with everything below it. */
    method ImageOf(forest: TagForest, t: Tag, from: Tag, to: Tag?) returns (image: Tag?, hit: bool)
      requires forest.Valid() && t in forest.all && from in forest.all && Known(forest.all, to)
      modifies forest, forest.all`children
      ensures forest.Valid() && old(forest.all) <= forest.all && fresh(forest.all - old(forest.all))
      ensures hit == (TagPath(from) <= TagPath(t))
      ensures hit ==> Known(forest.all, image) && TagPath(image) == Subst(TagPath(t), TagPath(from), TagPath(to))
    {
      hide TagForest.ListOk;
      forest.ValidIsInterned();
      if t == from {
        return to, true;
      }
      if TagPath(from) == TagPath(t) {
        SamePathSameTag(forest.all, from, t);
      }
      image := forest.CloneSubTag(t, from, to);
      hit := image != null;
      if TagPath(from) < TagPath(t) {
        assert TagPath(t)[|TagPath(from)|..] != [];
      }
    }

    /** Collect the images of all tags; a tag outside the renamed branch is collected if `keep` says so. */
    method CollectImages(forest: TagForest, from: Tag, to: Tag?, keep: bool) returns (tagSet: set<Tag?>, changed: bool)
      requires forest.Valid() && Interned(forest.all) && from in forest.all && Known(forest.all, to)
      requires AllIn(forest.all, tags) && NoneNull(tags)
      modifies forest, forest.all`children
      ensures forest.Valid() && Interned(forest.all)
      ensures old(forest.all) <= forest.all && fresh(forest.all - old(forest.all))
      ensures AllIn(forest.all, tags) && forall t <- tagSet :: t != null ==> t in forest.all
      ensures changed == Touches(PathsOf(forest.all, tags), TagPath(from))
      ensures SetPaths(forest.all, tagSet) == Images(PathsOf(forest.all, tags), TagPath(from), TagPath(to), keep)
    {
      hide TagForest.ListOk, SiblingsDiffer, Subst, Images, Touches, SetPaths;
      tagSet, changed := {}, false;
      ghost var paths, f, t := PathsOf(forest.all, tags), TagPath(from), TagPath(to);
      NoImages(forest.all, f, t, keep);
      for i := 0 to |tags|
        invariant forest.Valid() && Interned(forest.all)
        invariant old(forest.all) <= forest.all && fresh(forest.all - old(forest.all))
        invariant forall t <- tagSet :: t != null ==> t in forest.all
        invariant changed == Touches(paths[..i], f)
        invariant SetPaths(forest.all, tagSet) == Images(paths[..i], f, t, keep)
      {
        ImagesStep(paths[..i], paths[i], f, t, keep);
        assert paths[..i + 1] == paths[..i] + [paths[i]];
        tagSet, changed := AddImage(forest, tags[i], from, to, keep, tagSet, changed);
      }
      assert paths[..|tags|] == paths;
    }

    method AddImage(forest: TagForest, t: Tag, from: Tag, to: Tag?, keep: bool, tagSet: set<Tag?>, changed: bool)
      returns (tagSet': set<Tag?>, changed': bool)
      requires forest.Valid() && Interned(forest.all) && from in forest.all && Known(forest.all, to) && t in forest.all
      requires forall t <- tagSet :: t != null ==> t in forest.all
      modifies forest, forest.all`children
      ensures forest.Valid() && Interned(forest.all)
      ensures old(forest.all) <= forest.all && fresh(forest.all - old(forest.all))
      ensures forall t <- tagSet' :: t != null ==> t in forest.all
      ensures changed' == (changed || TagPath(from) <= TagPath(t))
      ensures
        SetPaths(forest.all, tagSet') == old(SetPaths(forest.all, tagSet)) +
        if keep || TagPath(from) <= TagPath(t) then {Subst(TagPath(t), TagPath(from), TagPath(to))} else {}
    {
      hide TagForest.ListOk, SiblingsDiffer;
      ghost var before := forest.all;
      var image, hit := ImageOf(forest, t, from, to);
      forest.ValidIsInterned();
      assert SetPaths(forest.all, tagSet) == SetPaths(before, tagSet);
      tagSet', changed' := tagSet, changed || hit;
      if hit {
        SetPathsStep(forest.all, tagSet, image);
        tagSet' := tagSet + {image};
      } else if keep {
        SetPathsStep(forest.all, tagSet, t);
        tagSet' := tagSet + {t};
      }
    }

    /** Rename a tag, with all its subtags or alone. */
    method RenameTag(forest: TagForest, from: Tag, to: Tag?, includeSubTags: bool) returns (changed: bool)
      requires forest.Valid() && Interned(forest.all) && from in forest.all && Known(forest.all, to)
      requires AllIn(forest.all, tags) && NoneNull(tags) && NoDuplicates(tags)
      modifies this, forest, forest.all`children
      ensures forest.Valid() && Interned(forest.all) && AllIn(forest.all, tags) && NoDuplicates(tags)
      ensures old(forest.all) <= forest.all && fresh(forest.all - old(forest.all))
      ensures !changed ==> tags == old(tags)
      ensures includeSubTags ==>
        && changed == Touches(old(PathsOf(forest.all, tags)), TagPath(from))
        && PathSet(forest.all, tags) == Images(old(PathsOf(forest.all, tags)), TagPath(from), TagPath(to), true)
      ensures !includeSubTags ==>
        && changed == (from in old(tags))
        && (forall i :: 0 <= i < |old(tags)| && old(tags)[i] == from ==> tags == Replaced(old(tags), i, to))
        && forall t :: t in tags <==> (t in old(tags) && t != from) || (changed && t == to && to != from)
    {
      hide TagForest.ListOk, SiblingsDiffer, Replaced, Subst, Images, Touches, SetPaths;
      if includeSubTags {
        ghost var paths := PathsOf(forest.all, tags);
        var tagSet;
        tagSet, changed := CollectImages(forest, from, to, true);
        if changed {
          tags := Enumerate(tagSet);
          EnumerationPaths(forest.all, tags, tagSet);
        } else {
          Untouched(forest.all, tags, TagPath(from), TagPath(to));
        }
      } else {
        changed := ReplaceOne(from, to);
      }
    }

    /** Rename a tag with all its subtags, and back: the book has its old tags again exactly when every tag it had
        at the new name or below was at the old name or below. */
    method RenameThereAndBack(forest: TagForest, from: Tag, to: Tag)
      requires forest.Valid() && Interned(forest.all) && from in forest.all && to in forest.all
      requires AllIn(forest.all, tags) && NoneNull(tags) && NoDuplicates(tags)
      modifies this, forest, forest.all`children
      ensures forest.Valid() && Interned(forest.all) && NoDuplicates(tags)
      ensures (forall t :: t in tags <==> t in old(tags)) <==>
        forall p <- old(PathsOf(forest.all, tags)) :: TagPath(to) <= p ==> TagPath(from) <= p
    {
      hide TagForest.ListOk, SiblingsDiffer, Subst, Images, Touches, PathSet, PathsOf;
      ghost var before := forest.all;
      ghost var was, paths, f, t := tags, PathsOf(forest.all, tags), TagPath(from), TagPath(to);
      NoEmptyPath(forest.all, tags);
      var _ := RenameTag(forest, from, to, true);
      StillNoneNull(forest.all, paths, tags, f, to);
      ghost var between := PathsOf(forest.all, tags);
      PathsAreSet(forest.all, tags);
      var _ := RenameTag(forest, to, from, true);
      ImagesBack(paths, between, f, t);
      SameSetSameTags(forest.all, tags, was);
      MoreTagsSamePaths(before, forest.all, was);
      PathsAreSet(forest.all, was);
      assert PathSet(forest.all, was) == set p | p in paths;
    }

    /** Replace one tag by another in its place, or drop it if the other is there already (as it is, when both
        are the same tag; the library does not ask for that). */
    method ReplaceOne(from: Tag, to: Tag?) returns (changed: bool)
      requires NoDuplicates(tags)
      modifies this
      ensures NoDuplicates(tags) && changed == (from in old(tags)) && (!changed ==> tags == old(tags))
      ensures forall i :: 0 <= i < |old(tags)| && old(tags)[i] == from ==> tags == Replaced(old(tags), i, to)
      ensures forall t :: t in tags <==> (t in old(tags) && t != from) || (changed && t == to && to != from)
    {
      if from !in tags {
        return false;
      }
      var i :| 0 <= i < |tags| && tags[i] == from;
      ReplacedMeans(tags, i, to);
      if to !in tags {
        tags := tags[i := to];
      } else {
        tags := tags[..i] + tags[i + 1..];
      }
      changed := true;
    }

    /** Give the book copies of a tag, with all its subtags or alone, beside the tags it has. */
    method CloneTag(forest: TagForest, from: Tag, to: Tag?, includeSubTags: bool) returns (changed: bool)
      requires forest.Valid() && Interned(forest.all) && from in forest.all && Known(forest.all, to)
      requires AllIn(forest.all, tags) && NoneNull(tags) && NoDuplicates(tags)
      modifies this, forest, forest.all`children
      ensures forest.Valid() && Interned(forest.all) && AllIn(forest.all, tags) && NoDuplicates(tags)
      ensures old(forest.all) <= forest.all && fresh(forest.all - old(forest.all))
      ensures !changed ==> tags == old(tags)
      ensures includeSubTags ==>
        && changed == Touches(old(PathsOf(forest.all, tags)), TagPath(from))
        && PathSet(forest.all, tags) ==
           old(PathSet(forest.all, tags)) + Images(old(PathsOf(forest.all, tags)), TagPath(from), TagPath(to), false)
      ensures !includeSubTags ==>
        && changed == (from in old(tags) && to !in old(tags))
        && tags == if changed then old(tags) + [to] else old(tags)
    {
      hide TagForest.ListOk, SiblingsDiffer, Subst, Images, Touches, SetPaths;
      if includeSubTags {
        ghost var paths := PathsOf(forest.all, tags);
        var tagSet, hit := CollectImages(forest, from, to, false);
        changed := tagSet != {};
        NothingTouched(forest.all, tagSet, paths, TagPath(from), TagPath(to));
        if changed {
          var both := tagSet + set t | t in tags;
          UnionPaths(forest.all, tagSet, tags);
          tags := Enumerate(both);
          EnumerationPaths(forest.all, tags, both);
        } else {
          NoImages(forest.all, TagPath(from), TagPath(to), false);
        }
      } else {
        changed := from in tags && to !in tags;
        if changed {
          tags := tags + [to];
        }
      }
    }

    /** Drop a tag, with all its subtags or alone. */
    method RemoveTag(forest: TagForest, tag: Tag, includeSubTags: bool) returns (changed: bool)
      requires Interned(forest.all) && tag in forest.all && AllIn(forest.all, tags) && NoneNull(tags)
      modifies this
      ensures tags == Without(old(tags), tag, includeSubTags, forest.all)
      ensures changed == (exists t <- old(tags) :: Hit(t, tag, includeSubTags, forest.all))
      ensures forall t <- forest.all ::
        t in tags <==> t in old(tags) && t != tag && !(includeSubTags && TagPath(tag) < TagPath(t))
    {
      WithoutExactly(tags, tag, includeSubTags, forest.all);
      hide SiblingsDiffer, Without;
      changed := false;
      ghost var before, n := tags, 0;
      var i: nat := 0;
      WithoutNothing(tag, includeSubTags, forest.all);
      while i < |tags|
        invariant i <= |tags| && n + (|tags| - i) == |before| && tags[i..] == before[n..]
        invariant tags[..i] == Without(before[..n], tag, includeSubTags, forest.all)
        invariant changed == (exists t <- before[..n] :: Hit(t, tag, includeSubTags, forest.all))
        decreases |before| - n
      {
        RemoveStep(before, n, tags, i);
        WithoutStep(before, n, tag, includeSubTags, forest.all);
        var below := false;
        if includeSubTags {
          below := tag.IsAncestorOf(tags[i], forest.all);
        }
        if tag == tags[i] || below {
          tags := tags[..i] + tags[i + 1..];
          changed := true;
        } else {
          i := i + 1;
        }
        n := n + 1;
      }
      assert before[..n] == before && tags[..i] == tags;
    }
  }

  /** Erasing an element or stepping over it leaves the same elements to look at. */
  lemma RemoveStep(before: seq<Tag?>, n: nat, tags: seq<Tag?>, i: nat)
    requires n < |before| && i < |tags| && tags[i..] == before[n..]
    ensures tags[i] == before[n] && tags[i] in before && tags[i + 1..] == before[n + 1..]
    ensures (tags[..i] + tags[i + 1..])[..i] == tags[..i] && (tags[..i] + tags[i + 1..])[i..] == tags[i + 1..]
    ensures tags[..i + 1] == tags[..i] + [tags[i]]
  {
    assert tags[i] == tags[i..][0] == before[n..][0] == before[n];
    assert tags[i + 1..] == tags[i..][1..] == before[n..][1..] == before[n + 1..];
  }

  lemma WithoutNothing(tag: Tag, includeSubTags: bool, all: set<Tag>)
    requires Interned(all) && tag in all
    ensures Without([], tag, includeSubTags, all) == []
  {
  }

  lemma WithoutStep(before: seq<Tag?>, n: nat, tag: Tag, includeSubTags: bool, all: set<Tag>)
    requires Interned(all) && AllIn(all, before) && tag in all && n < |before|
    ensures AllIn(all, before[..n]) && AllIn(all, before[..n + 1])
    ensures Without(before[..n + 1], tag, includeSubTags, all) ==
            Without(before[..n], tag, includeSubTags, all) +
            if Hit(before[n], tag, includeSubTags, all) then [] else [before[n]]
    ensures (exists t <- before[..n + 1] :: Hit(t, tag, includeSubTags, all)) <==>
            Hit(before[n], tag, includeSubTags, all) || (exists t <- before[..n] :: Hit(t, tag, includeSubTags, all))
  {
    assert before[..n + 1] == before[..n] + [before[n]];
    assert before[..n + 1][..n] == before[..n];
  }

  ghost predicate Hit(t: Tag?, tag: Tag, includeSubTags: bool, all: set<Tag>)
    requires Interned(all) && Known(all, t) && tag in all
  {
    t == tag || (includeSubTags && TagPath(tag) < TagPath(t))
  }

  ghost function Without(list: seq<Tag?>, tag: Tag, includeSubTags: bool, all: set<Tag>): seq<Tag?>
    requires Interned(all) && AllIn(all, list) && tag in all
  {
    if list == [] then []
    else
      var last := list[|list| - 1];
      Without(list[..|list| - 1], tag, includeSubTags, all) +
      if Hit(last, tag, includeSubTags, all) then [] else [last]
  }

  ghost function PathSet(all: set<Tag>, list: seq<Tag?>): set<Path>
    requires Interned(all) && AllIn(all, list)
  {
    set t | t in list :: TagPath(t)
  }

  lemma {:induction false} WithoutExactly(list: seq<Tag?>, tag: Tag, includeSubTags: bool, all: set<Tag>)
    requires Interned(all) && AllIn(all, list) && tag in all
    ensures forall t <- all ::
      t in Without(list, tag, includeSubTags, all) <==>
      t in list && t != tag && !(includeSubTags && TagPath(tag) < TagPath(t))
  {
    if list != [] {
      hide SiblingsDiffer;
      var front := list[..|list| - 1];
      assert list == front + [list[|list| - 1]];
      WithoutExactly(front, tag, includeSubTags, all);
    }
  }

  lemma NoImages(all: set<Tag>, from: Path, to: Path, keep: bool)
    requires Interned(all)
    ensures Images([], from, to, keep) == {} == SetPaths(all, {}) && !Touches([], from)
  {
  }

  lemma EnumerationPaths(all: set<Tag>, list: seq<Tag?>, tags: set<Tag?>)
    requires Interned(all) && (forall t <- tags :: t != null ==> t in all) && forall t :: t in list <==> t in tags
    ensures AllIn(all, list) && PathSet(all, list) == SetPaths(all, tags)
  {
  }

  lemma Untouched(all: set<Tag>, list: seq<Tag?>, from: Path, to: Path)
    requires Interned(all) && AllIn(all, list) && !Touches(PathsOf(all, list), from)
    ensures PathSet(all, list) == Images(PathsOf(all, list), from, to, true)
  {
    PathsAreSet(all, list);
  }

  lemma PathsAreSet(all: set<Tag>, list: seq<Tag?>)
    requires Interned(all) && AllIn(all, list)
    ensures forall p :: p in PathsOf(all, list) <==> p in PathSet(all, list)
  {
    var paths := PathsOf(all, list);
    forall t <- list
      ensures TagPath(t) in paths
    {
      var i :| 0 <= i < |list| && list[i] == t;
      assert paths[i] == TagPath(t);
    }
  }

  lemma NothingTouched(all: set<Tag>, tags: set<Tag?>, paths: seq<Path>, from: Path, to: Path)
    requires Interned(all) && (forall t <- tags :: t != null ==> t in all)
    requires SetPaths(all, tags) == Images(paths, from, to, false)
    ensures tags != {} <==> Touches(paths, from)
  {
    if tags != {} {
      var t :| t in tags;
      assert TagPath(t) in SetPaths(all, tags);
    }
    if Touches(paths, from) {
      var p :| p in paths && from <= p;
      assert Subst(p, from, to) in Images(paths, from, to, false);
    }
  }

  lemma UnionPaths(all: set<Tag>, tags: set<Tag?>, list: seq<Tag?>)
    requires Interned(all) && (forall t <- tags :: t != null ==> t in all) && AllIn(all, list)
    ensures SetPaths(all, tags + set t | t in list) == SetPaths(all, tags) + PathSet(all, list)
  {
    var other := set t | t in list;
    assert forall t :: t in tags + other <==> t in tags || t in list;
  }

  /** Where a path comes to when `from` is renamed to `to` and back. */
  lemma SubstBack(p: Path, from: Path, to: Path)
    ensures Subst(Subst(p, from, to), to, from) == if to <= p && !(from <= p) then from + p[|to|..] else p
  {
    if from <= p {
      assert (to + p[|from|..])[|to|..] == p[|from|..];
    }
  }

  /** So a tag that had the new name before has the old one afterwards. */
  lemma NewNameIsCarriedAway()
    ensures Subst(Subst(["b", "x"], ["a"], ["b"]), ["b"], ["a"]) == ["a", "x"]
  {
    SubstBack(["b", "x"], ["a"], ["b"]);
    assert ["b", "x"][|["b"]|..] == ["x"];
  }

  /** Whatever was below the new name, but not below the old one, is carried away; nothing else is. */
  lemma ImagesBack(paths: seq<Path>, between: seq<Path>, from: Path, to: Path)
    requires forall q :: q in between <==> q in Images(paths, from, to, true)
    ensures
      (forall q :: q in Images(between, to, from, true) <==> q in paths) <==> forall p <- paths :: to <= p ==> from <= p
  {
    hide Subst;
    var images := Images(between, to, from, true);
    if p :| p in paths && to <= p && !(from <= p) {
      if p in images {
        OnTheWay(paths, between, from, to, p);
      }
    } else {
      forall q
        ensures q in images <==> q in paths
      {
        if q in images {
          OnTheWay(paths, between, from, to, q);
        }
        if q in paths {
          SubstBack(q, from, to);
          assert Subst(q, from, to) in between;
        }
      }
    }
  }

  /** What comes out after both renamings is still there, or has been carried below the old name. */
  lemma OnTheWay(paths: seq<Path>, between: seq<Path>, from: Path, to: Path, q: Path)
    requires forall q :: q in between <==> q in Images(paths, from, to, true)
    requires q in Images(between, to, from, true)
    ensures (q in paths && (to <= q ==> from <= q)) || exists p :: p in paths && to <= p && !(from <= p) && from <= q
  {
    hide Subst;
    var m :| m in between && q == Subst(m, to, from);
    var p :| p in paths && m == Subst(p, from, to);
    SubstBack(p, from, to);
  }

  lemma NullHasEmptyPath(all: set<Tag>, list: seq<Tag?>)
    requires Interned(all) && AllIn(all, list) && null in list
    ensures [] in PathSet(all, list)
  {
    assert TagPath(null) in PathSet(all, list);
  }

  /** No path is empty after a renaming to a tag. */
  lemma StillNoneNull(all: set<Tag>, was: seq<Path>, list: seq<Tag?>, from: Path, to: Tag)
    requires Interned(all) && AllIn(all, list) && to in all && [] !in was
    requires PathSet(all, list) == Images(was, from, TagPath(to), true)
    ensures NoneNull(list)
  {
    if null in list {
      NullHasEmptyPath(all, list);
    }
  }

  lemma NoEmptyPath(all: set<Tag>, list: seq<Tag?>)
    requires Interned(all) && AllIn(all, list) && NoneNull(list)
    ensures [] !in PathsOf(all, list)
  {
    forall i | 0 <= i < |list|
      ensures PathsOf(all, list)[i] != []
    {
      assert list[i] in list;
    }
  }

  lemma MoreTagsSamePaths(before: set<Tag>, all: set<Tag>, list: seq<Tag?>)
    requires Interned(before) && Interned(all) && before <= all && AllIn(before, list)
    ensures AllIn(all, list) && PathsOf(before, list) == PathsOf(all, list)
  {
  }

  lemma SameSetSameTags(all: set<Tag>, a: seq<Tag?>, b: seq<Tag?>)
    requires Interned(all) && AllIn(all, a) && AllIn(all, b)
    ensures PathSet(all, a) == PathSet(all, b) <==> forall t :: t in a <==> t in b
  {
    if PathSet(all, a) == PathSet(all, b) {
      forall t
        ensures t in a <==> t in b
      {
        InPathSet(all, a, t, b);
        InPathSet(all, b, t, a);
      }
    }
  }

  lemma InPathSet(all: set<Tag>, a: seq<Tag?>, t: Tag?, b: seq<Tag?>)
    requires Interned(all) && AllIn(all, a) && AllIn(all, b) && PathSet(all, a) == PathSet(all, b)
    ensures t in a ==> t in b
  {
    if t in a {
      assert TagPath(t) in PathSet(all, b);
      var u :| u in b && TagPath(u) == TagPath(t);
      SamePathSameTag(all, u, t);
    }
  }
}

/** Interned tags (Tag.h, Tag.cpp) and their comparator (Comparators.cpp). */
module Tags {
  import opened Order
  import opened FullNames

  class Tag {
    const name: string
    const parent: Tag?
    const level: nat
    var children: seq<Tag>
    var tagId: int
    var fullName: string

    constructor (name: string, parent: Tag?, tagId: int)
      requires parent != null ==> Rooted(parent)
      ensures this.name == name && this.parent == parent && this.tagId == tagId && children == []
      ensures Rooted(this) && fullName == ""
    {
      this.name, this.parent, this.tagId := name, parent, tagId;
      level := if parent == null then 0 else parent.level + 1;
      children, fullName := [], "";
    }

    /** The full name, computed when it is first asked for. */
    method FullName(ghost all: set<Tag>) returns (full: string)
      requires Closed(all) && NamesKept(all) && this in all
      modifies all`fullName
      ensures NamesKept(all) && full == Join(TagPath(this))
      decreases level
    {
      if parent == null {
        return name;
      }
      if fullName == "" {
        var front := parent.FullName(all);
        fullName := front + [DELIMITER] + name;
        assert TagPath(this)[..|TagPath(this)| - 1] == TagPath(parent);
      }
      full := fullName;
    }

    /** `this` is a proper ancestor of `tag`. */
    method IsAncestorOf(tag: Tag, ghost all: set<Tag>) returns (yes: bool)
      requires Interned(all) && this in all && tag in all
      ensures yes == (TagPath(this) < TagPath(tag))
    {
      PathLength(this);
      PathLength(tag);
      if tag.level <= level {
        return false;
      }
      var t := tag;
      while t.level > level
        invariant t in all && level <= t.level && TagPath(t) <= TagPath(tag)
        decreases t.level
      {
        t := t.parent;
      }
      PathLength(t);
      if TagPath(this) < TagPath(tag) {
        SamePathSameTag(all, t, this);
      }
      yes := t == this;
    }
  }

  /** Levels count the way to a root. */
  ghost predicate Rooted(t: Tag)
    decreases t.level
  {
    if t.parent == null then t.level == 0 else t.level == t.parent.level + 1 && Rooted(t.parent)
  }

  /** The names from the root down to the tag; no tag has the empty path. */
  function TagPath(t: Tag?): Path
    requires t != null ==> Rooted(t)
    decreases if t == null then 0 else t.level + 1
  {
    if t == null then [] else TagPath(t.parent) + [t.name]
  }

  lemma {:induction false} PathLength(t: Tag)
    requires Rooted(t)
    ensures |TagPath(t)| == t.level + 1
    decreases t.level
  {
    if t.parent != null {
      PathLength(t.parent);
    }
  }

  ghost predicate Closed(all: set<Tag>)
  {
    forall t <- all :: Rooted(t) && (t.parent != null ==> t.parent in all)
  }

  /** A full name that has been kept is the right one. */
  ghost predicate NamesKept(all: set<Tag>)
    requires Closed(all)
    reads all`fullName
  {
    forall t <- all :: t.fullName == "" || t.fullName == Join(TagPath(t))
  }

  ghost predicate SiblingsDiffer(all: set<Tag>)
  {
    forall s <- all, t <- all :: s.parent == t.parent && s.name == t.name ==> s == t
  }

  /** A set of tags closed under parents in which siblings have different names. */
  ghost predicate Interned(all: set<Tag>)
  {
    Closed(all) && SiblingsDiffer(all)
  }

  ghost predicate Known(all: set<Tag>, t: Tag?) { t != null ==> t in all }

  /** A path names at most one tag. */
  lemma {:induction false} SamePathSameTag(all: set<Tag>, s: Tag?, t: Tag?)
    requires Interned(all) && Known(all, s) && Known(all, t)
    requires TagPath(s) == TagPath(t)
    ensures s == t
    decreases if s == null then 0 else s.level + 1
  {
    if s != null && t != null {
      var p, q := TagPath(s.parent), TagPath(t.parent);
      assert p == TagPath(s)[..|p|] && q == TagPath(t)[..|q|];
      assert s.name == TagPath(s)[|TagPath(s)| - 1] == t.name;
      SamePathSameTag(all, s.parent, t.parent);
    }
  }

  // ---------- the comparator ----------

  /** Climb until both tags hang under the same parent, then compare names. */
  method Less(tag0: Tag?, tag1: Tag?, ghost all: set<Tag>) returns (less: bool)
    requires Interned(all) && Known(all, tag0) && Known(all, tag1)
    ensures less == PathLess(TagPath(tag0), TagPath(tag1))
  {
    if tag0 == null {
      return tag1 != null;
    }
    if tag1 == null {
      return false;
    }
    PathLength(tag0);
    PathLength(tag1);
    var t0, t1 := tag0, tag1;
    if tag0.level > tag1.level {
      t0 := Climb(tag0, tag1.level, all);
      if t0 == tag1 {
        PrefixFirst(TagPath(tag1), TagPath(tag0));
        return false;
      }
    } else if tag0.level < tag1.level {
      t1 := Climb(tag1, tag0.level, all);
      if tag0 == t1 {
        PrefixFirst(TagPath(tag0), TagPath(tag1));
        return true;
      }
    }
    less := LessSameLevel(t0, t1, all);
    if t0 == t1 {
      PathTrichotomy(TagPath(tag0), TagPath(tag1));
    } else {
      PathLength(t0);
      PathLength(t1);
      SameLengthApart(all, t0, t1);
      ExtensionsOrdered(TagPath(t0), TagPath(t1), TagPath(tag0), TagPath(tag1));
    }
  }

  lemma SameLengthApart(all: set<Tag>, s: Tag, t: Tag)
    requires Interned(all) && s in all && t in all && s != t && s.level == t.level
    ensures !(TagPath(s) <= TagPath(t)) && !(TagPath(t) <= TagPath(s))
  {
    PathLength(s);
    PathLength(t);
    if TagPath(s) <= TagPath(t) || TagPath(t) <= TagPath(s) {
      SamePathSameTag(all, s, t);
    }
  }

  method Climb(tag: Tag, level: nat, ghost all: set<Tag>) returns (t: Tag)
    requires Interned(all) && tag in all && level <= tag.level
    ensures t in all && t.level == level && TagPath(t) <= TagPath(tag)
  {
    t := tag;
    while t.level > level
      invariant t in all && level <= t.level && TagPath(t) <= TagPath(tag)
      decreases t.level
    {
      t := t.parent;
    }
  }

  method LessSameLevel(tag0: Tag, tag1: Tag, ghost all: set<Tag>) returns (less: bool)
    requires Interned(all) && tag0 in all && tag1 in all && tag0.level == tag1.level
    ensures less == PathLess(TagPath(tag0), TagPath(tag1))
  {
    var t0, t1 := tag0, tag1;
    while t0.parent != t1.parent
      invariant t0 in all && t1 in all && t0.level == t1.level
      invariant TagPath(t0) <= TagPath(tag0) && TagPath(t1) <= TagPath(tag1)
      invariant t0 == t1 ==> tag0 == tag1
      invariant PathLess(TagPath(t0), TagPath(t1)) == PathLess(TagPath(tag0), TagPath(tag1))
      decreases t0.level
    {
      var p0, p1 := t0.parent, t1.parent;
      SameLengthApart(all, p0, p1);
      ExtensionsOrdered(TagPath(p0), TagPath(p1), TagPath(t0), TagPath(t1));
      t0, t1 := p0, p1;
    }
    less := StrLess(t0.name, t1.name);
    SiblingsOrdered(t0, t1);
  }

  lemma SiblingsOrdered(s: Tag, t: Tag)
    requires Rooted(s) && Rooted(t) && s.parent == t.parent
    ensures PathLess(TagPath(s), TagPath(t)) == StrLess(s.name, t.name)
  {
    var p := TagPath(s.parent);
    StrTrichotomy(s.name, t.name);
    if s.name == t.name {
      PathTrichotomy(TagPath(s), TagPath(t));
    } else {
      PathsDiverge(TagPath(s), TagPath(t), |p|);
    }
  }

  /** Tags under one parent are ordered by the first symbol in which their names differ. */
  lemma SiblingsDiverge(s: Tag, t: Tag, k: nat)
    requires Rooted(s) && Rooted(t) && s.parent == t.parent
    ensures DifferAt(s.name, t.name, k) ==> (PathLess(TagPath(s), TagPath(t)) <==> s.name[k] < t.name[k])
    ensures s.name < t.name ==> PathLess(TagPath(s), TagPath(t)) && !PathLess(TagPath(t), TagPath(s))
  {
    hide PathLess, StrLess, TagPath;
    SiblingsOrdered(s, t);
    SiblingsOrdered(t, s);
    if DifferAt(s.name, t.name, k) {
      StringsDiverge(s.name, t.name, k);
    } else if s.name < t.name {
      StringPrefixFirst(s.name, t.name);
    }
  }

  /** On interned tags the comparator's order is a strict total order, with "no tag" first. */
  lemma ComparatorIsStrictTotal(all: set<Tag>, s: Tag?, t: Tag?, u: Tag?)
    requires Interned(all) && Known(all, s) && Known(all, t) && Known(all, u)
    ensures !PathLess(TagPath(s), TagPath(s))
    ensures s != t ==> PathLess(TagPath(s), TagPath(t)) != PathLess(TagPath(t), TagPath(s))
    ensures PathLess(TagPath(s), TagPath(t)) && PathLess(TagPath(t), TagPath(u)) ==> PathLess(TagPath(s), TagPath(u))
    ensures s == null && t != null ==> PathLess(TagPath(s), TagPath(t))
  {
    PathTrichotomy(TagPath(s), TagPath(s));
    PathTrichotomy(TagPath(s), TagPath(t));
    if s != t && TagPath(s) == TagPath(t) {
      SamePathSameTag(all, s, t);
    }
    if PathLess(TagPath(s), TagPath(t)) && PathLess(TagPath(t), TagPath(u)) {
      PathTransitive(TagPath(s), TagPath(t), TagPath(u));
    }
  }
}

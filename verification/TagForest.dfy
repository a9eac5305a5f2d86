/** The registry of interned tags (the static part of Tag.cpp). */
module TagForests {
  import opened Order
  import opened Tags
  import opened FullNames

  lemma OneMore(all: set<Tag>, t: Tag)
    requires Closed(all) && NamesKept(all) && Rooted(t) && t.fullName == "" && t !in all && Known(all, t.parent)
    ensures Closed(all + {t}) && NamesKept(all + {t}) && forall s <- all + {t} :: s.parent != t
  {
  }

  class TagForest {
    var rootTags: seq<Tag>
    var tagsById: map<int, Tag>
    ghost var all: set<Tag>

    static ghost function One(t: Tag?): set<Tag> { if t == null then {} else {t} }

    ghost function ChildrenOf(parent: Tag?): seq<Tag>
      reads this`rootTags, One(parent)`children
    {
      if parent == null then rootTags else parent.children
    }

    /** The list under a parent holds exactly that parent's tags, each once, and no two of one name. */
    ghost predicate ListOk(parent: Tag?)
      reads this`rootTags, this`all, One(parent)`children
    {
      var list := ChildrenOf(parent);
      && (forall i :: 0 <= i < |list| ==> list[i] in all && list[i].parent == parent)
      && (forall i, j :: 0 <= i < j < |list| ==> list[i].name != list[j].name)
      && (forall t <- all :: t.parent == parent ==> t in list)
    }

    ghost predicate Valid()
      reads this, all`children, all`fullName
    {
      && Closed(all) && NamesKept(all) && (forall t <- all :: t.name != "")
      && ListOk(null) && (forall t <- all :: ListOk(t))
      && (forall id <- tagsById :: tagsById[id] in all)
    }

    constructor ()
      ensures Valid() && all == {} && tagsById == map[]
    {
      rootTags, tagsById, all := [], map[], {};
    }

    /** Unique names under every parent make all tags interned. */
    lemma ValidIsInterned()
      requires Valid()
      ensures Interned(all)
    {
      forall s <- all, t <- all | s.parent == t.parent && s.name == t.name
        ensures s == t
      {
        assert s.parent != null ==> s.parent in all;
        assert ListOk(s.parent);
        var list := ChildrenOf(s.parent);
        var i :| 0 <= i < |list| && list[i] == s;
        var j :| 0 <= j < |list| && list[j] == t;
      }
    }

    method Find(name: string, parent: Tag?) returns (t: Tag?)
      requires Valid() && Known(all, parent)
      ensures t != null ==> t in all && t.parent == parent && t.name == name
      ensures t == null ==> forall s <- all :: !(s.parent == parent && s.name == name)
    {
      hide NamesKept, Closed;
      var tags := if parent == null then rootTags else parent.children;
      assert ListOk(parent) && tags == ChildrenOf(parent);
      for i := 0 to |tags|
        invariant forall k :: 0 <= k < i ==> tags[k].name != name
      {
        if tags[i].name == name {
          return tags[i];
        }
      }
      assert forall s <- all :: s.parent == parent ==> s in tags;
      t := null;
    }

    /** The tag of that name under that parent, made only if there is none; an empty name gives no tag. */
    method GetTag(name: string, parent: Tag?, tagId: int) returns (t: Tag?)
      requires Valid() && Known(all, parent)
      modifies this, all`children
      ensures Valid()
      ensures name == "" ==> t == null && all == old(all) && tagsById == old(tagsById)
      ensures name != "" ==> t != null && t in all && t.parent == parent && t.name == name
      ensures t != null && t in old(all) ==> all == old(all) && tagsById == old(tagsById)
      ensures t != null && t !in old(all) ==>
        && fresh(t) && all == old(all) + {t} && t.tagId == tagId
        && tagsById == if tagId > 0 then old(tagsById)[tagId := t] else old(tagsById)
    {
      if name == "" {
        return null;
      }
      t := Find(name, parent);
      if t != null {
        return;
      }
      t := Create(name, parent, tagId);
    }

    method Create(name: string, parent: Tag?, tagId: int) returns (t: Tag)
      requires Valid() && Known(all, parent) && name != ""
      requires forall s <- all :: !(s.parent == parent && s.name == name)
      modifies this, all`children
      ensures Valid() && fresh(t) && all == old(all) + {t}
      ensures t.parent == parent && t.name == name && t.tagId == tagId
      ensures tagsById == if tagId > 0 then old(tagsById)[tagId := t] else old(tagsById)
    {
      hide ListOk, NamesKept;
      assert parent != null ==> Rooted(parent);
      t := new Tag(name, parent, tagId);
      Attach(t);
      if tagId > 0 {
        tagsById := tagsById[tagId := t];
      }
    }

    /** Append a new tag to the list of its parent. */
    method Attach(t: Tag)
      requires Valid() && Rooted(t) && t.name != "" && t !in all && t.children == [] && t.fullName == ""
      requires Known(all, t.parent)
      requires forall s <- all :: !(s.parent == t.parent && s.name == t.name)
      modifies this`rootTags, this`all, all`children
      ensures Valid() && all == old(all) + {t}
    {
      hide NamesKept, Closed, Rooted, TagPath;
      OneMore(all, t);
      ghost var before, list := all, ChildrenOf(t.parent);
      assert ListOk(t.parent);
      if t.parent == null {
        rootTags := rootTags + [t];
      } else {
        t.parent.children := t.parent.children + [t];
      }
      all := all + {t};
      assert ChildrenOf(t.parent) == list + [t];
      forall p: Tag? | p == null || p in before
        ensures ListOk(p)
      {
        assert old(ListOk(p));
        assert p != t.parent ==> ChildrenOf(p) == old(ChildrenOf(p));
      }
    }

    /** The tag a full name stands for. */
    method GetTagByFullName(fullName: string) returns (t: Tag?)
      requires Valid()
      modifies this, all`children
      ensures Valid() && old(all) <= all && fresh(all - old(all)) && Known(all, t)
      ensures TagPath(t) == Parse(fullName)
      decreases |fullName|
    {
      hide ListOk, NamesKept;
      StripShorter(fullName);
      var tag := Strip(fullName);
      var index := LastSlash(tag);
      if index < 0 {
        t := GetTag(tag, null, 0);
      } else {
        var lastName := Strip(tag[index + 1..]);
        var parent := GetTagByFullName(tag[..index]);
        t := GetTag(lastName, parent, 0);
      }
    }

    method FullNameOf(tag: Tag) returns (full: string)
      requires Valid() && tag in all
      modifies all`fullName
      ensures Valid() && full == Join(TagPath(tag))
    {
      full := tag.FullName(all);
    }

    /** The full name of a tag leads back to that very tag exactly when every name on its path is clean. */
    method ThereAndBack(tag: Tag) returns (t: Tag?)
      requires Valid() && tag in all
      modifies this, all`children, all`fullName
      ensures Valid() && old(all) <= all && fresh(all - old(all))
      ensures t == tag <==> AllClean(TagPath(tag))
    {
      hide ListOk, NamesKept;
      var full := FullNameOf(tag);
      t := GetTagByFullName(full);
      FullNameRoundTrip(TagPath(tag));
      ValidIsInterned();
      if TagPath(t) == TagPath(tag) {
        SamePathSameTag(all, t, tag);
      }
    }

    /** The tag that stands to the new parent as `tag` stands to the old one; none if it does not lie below it. */
    method CloneSubTag(tag: Tag, oldParent: Tag, newParent: Tag?) returns (t: Tag?)
      requires Valid() && tag in all && oldParent in all && Known(all, newParent)
      modifies this, all`children
      ensures Valid() && old(all) <= all && fresh(all - old(all)) && Known(all, t)
      ensures TagPath(oldParent) < TagPath(tag) ==>
        t != null && TagPath(t) == TagPath(newParent) + TagPath(tag)[|TagPath(oldParent)|..]
      ensures !(TagPath(oldParent) < TagPath(tag)) ==> t == null && all == old(all)
    {
      hide ListOk, NamesKept;
      var found, levels := NamesBelow(tag, oldParent);
      if !found || levels == [] {
        return null;
      }
      NamesNotEmpty(tag);
      assert forall i :: 0 <= i < |levels| ==> levels[i] == TagPath(tag)[|TagPath(oldParent)| + i];
      t := Descend(newParent, levels);
    }

    lemma {:induction false} NamesNotEmpty(t: Tag)
      requires Valid() && t in all
      ensures forall i :: 0 <= i < |TagPath(t)| ==> TagPath(t)[i] != ""
      decreases t.level
    {
      if t.parent != null {
        NamesNotEmpty(t.parent);
      }
    }

    /** The names between a tag and one of its ancestors, top first. */
    method NamesBelow(tag: Tag, ancestor: Tag) returns (found: bool, levels: Path)
      requires Valid() && tag in all && ancestor in all
      ensures found == (TagPath(ancestor) <= TagPath(tag))
      ensures found ==> TagPath(ancestor) + levels == TagPath(tag)
    {
      hide ListOk, NamesKept;
      ValidIsInterned();
      levels := [];
      var t: Tag? := tag;
      while t != ancestor
        invariant t in all && TagPath(t) + levels == TagPath(tag)
        invariant TagPath(ancestor) <= TagPath(tag) ==> TagPath(ancestor) <= TagPath(t)
        decreases t.level
      {
        levels := [t.name] + levels;
        if TagPath(ancestor) <= TagPath(t) && |TagPath(ancestor)| == |TagPath(t)| {
          SamePathSameTag(all, ancestor, t);
        }
        t := t.parent;
        if t == null {
          PathLength(ancestor);
          return false, levels;
        }
      }
      found := true;
    }

    method Descend(top: Tag?, levels: Path) returns (t: Tag?)
      requires Valid() && Known(all, top) && forall i :: 0 <= i < |levels| ==> levels[i] != ""
      modifies this, all`children
      ensures Valid() && old(all) <= all && fresh(all - old(all)) && Known(all, t)
      ensures TagPath(t) == TagPath(top) + levels
    {
      hide ListOk, NamesKept;
      t := top;
      for i := 0 to |levels|
        invariant Valid() && old(all) <= all && fresh(all - old(all)) && Known(all, t)
        invariant TagPath(t) == TagPath(top) + levels[..i]
      {
        t := GetTag(levels[i], t, 0);
        assert levels[..i + 1] == levels[..i] + [levels[i]];
      }
    }

    method GetTagById(id: int) returns (t: Tag?)
      requires Valid()
      ensures t == if id in tagsById then tagsById[id] else null
    {
      t := if id in tagsById then tagsById[id] else null;
    }

    /** A tag gets an id once. */
    method SetTagId(tag: Tag?, tagId: int)
      requires Valid() && Known(all, tag)
      modifies this`tagsById, all`tagId
      ensures Valid()
      ensures tag == null || old(tag.tagId) != 0 ==>
        tagsById == old(tagsById) && forall t <- all :: t.tagId == old(t.tagId)
      ensures tag != null && old(tag.tagId) == 0 ==>
        && tag.tagId == tagId && tagsById == old(tagsById)[tagId := tag]
        && forall t <- all :: t != tag ==> t.tagId == old(t.tagId)
    {
      hide ListOk, NamesKept, Closed;
      if tag == null || tag.tagId != 0 {
        return;
      }
      tag.tagId := tagId;
      tagsById := tagsById[tagId := tag];
    }
  }
}

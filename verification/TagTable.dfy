/** The Tags table and the traffic between it and the tag registry (BooksDB_BookTag.cpp). */
module TagTables {
  import opened Order
  import opened Tags
  import opened TagForests

  /** A row: a name under a parent row; parent 0 stands for none. */
  datatype Row = Row(name: string, parent: int)

  type Rows = map<int, Row>

  ghost predicate RowOk(rows: Rows, id: int)
    requires id in rows
  {
    id > 0 && rows[id].name != "" && (rows[id].parent == 0 || (rows[id].parent in rows && 0 < rows[id].parent < id))
  }

  /** Parents come before children, and (parent, name) is a key. */
  ghost predicate TableOk(rows: Rows)
  {
    && (forall id <- rows :: RowOk(rows, id))
    && (forall a <- rows, b <- rows :: rows[a] == rows[b] ==> a == b)
  }

  /** The path a row stands for. */
  ghost function RowPath(rows: Rows, id: int): Path
    requires TableOk(rows) && (id == 0 || id in rows)
    decreases if id > 0 then id else 0
  {
    if id == 0 then []
    else
      assert RowOk(rows, id);
      RowPath(rows, rows[id].parent) + [rows[id].name]
  }

  /** Different rows stand for different paths. */
  lemma {:induction false} RowPathInjective(rows: Rows, a: int, b: int)
    requires TableOk(rows) && (a == 0 || a in rows) && (b == 0 || b in rows)
    requires RowPath(rows, a) == RowPath(rows, b)
    ensures a == b
    decreases if a > 0 then a else 0
  {
    if a != 0 && b != 0 {
      assert RowOk(rows, a) && RowOk(rows, b);
      var p, q := RowPath(rows, rows[a].parent), RowPath(rows, rows[b].parent);
      assert p == RowPath(rows, a)[..|p|] && q == RowPath(rows, b)[..|q|];
      assert rows[a].name == RowPath(rows, a)[|p|] && rows[b].name == RowPath(rows, b)[|q|];
      RowPathInjective(rows, rows[a].parent, rows[b].parent);
    }
  }

  /** A new last row keeps the table in order and moves no path. */
  lemma {:induction false} RowAdded(rows: Rows, id: int, row: Row, other: int)
    requires TableOk(rows) && id > 0 && (forall k <- rows :: k < id)
    requires row.name != "" && (row.parent == 0 || row.parent in rows) && forall k <- rows :: rows[k] != row
    requires other == 0 || other in rows
    ensures TableOk(rows[id := row]) && RowPath(rows[id := row], other) == RowPath(rows, other)
    decreases if other > 0 then other else 0
  {
    TableStaysOk(rows, id, row);
    if other != 0 {
      assert RowOk(rows, other);
      RowAdded(rows, id, row, rows[other].parent);
    }
  }

  lemma TableStaysOk(rows: Rows, id: int, row: Row)
    requires TableOk(rows) && id > 0 && (forall k <- rows :: k < id)
    requires row.name != "" && (row.parent == 0 || row.parent in rows) && forall k <- rows :: rows[k] != row
    ensures TableOk(rows[id := row])
  {
    var rows' := rows[id := row];
    forall k <- rows'
      ensures RowOk(rows', k)
    {
      if k != id {
        assert RowOk(rows, k);
      }
      if row.parent != 0 {
        assert RowOk(rows, row.parent);
      }
    }
  }

  lemma OnlyRow(rows: Rows, id: int)
    requires TableOk(rows) && id in rows
    ensures forall k <- rows :: RowPath(rows, k) == RowPath(rows, id) ==> k == id
  {
    hide TableOk, RowPath;
    forall k <- rows | RowPath(rows, k) == RowPath(rows, id)
      ensures k == id
    {
      RowPathInjective(rows, k, id);
    }
  }

  /** A tag of the row's name under a tag of the parent row's path has the row's path. */
  lemma PathsAgree(rows: Rows, id: int, t: Tag)
    requires TableOk(rows) && id in rows && RowOk(rows, id) && Rooted(t) && t.name == rows[id].name
    requires (rows[id].parent == 0 <==> t.parent == null) && TagPath(t.parent) == RowPath(rows, rows[id].parent)
    ensures TagPath(t) == RowPath(rows, id)
  {
  }

  lemma NoPath(rows: Rows)
    requires TableOk(rows)
    ensures RowPath(rows, 0) == TagPath(null) == []
  {
  }

  /** Every tag that has an id is the tag of that row. */
  ghost predicate Synced(all: set<Tag>, rows: Rows)
    requires Closed(all) && TableOk(rows)
    reads all`tagId
  {
    forall t <- all :: t.tagId != 0 ==> t.tagId in rows && RowPath(rows, t.tagId) == TagPath(t)
  }

  class TagStore {
    var rows: Rows
    var largest: int  // the largest id in use; SQLite numbers the next row from it

    ghost predicate Valid()
      reads this
    {
      TableOk(rows) && largest >= 0 && (largest == 0 || largest in rows) && forall id <- rows :: id <= largest
    }

    constructor ()
      ensures Valid() && rows == map[]
    {
      rows, largest := map[], 0;
    }

    /** The row of that name under that parent, added if there is none. */
    method FindOrAdd(name: string, parent: int) returns (id: int)
      requires Valid() && name != "" && (parent == 0 || parent in rows)
      modifies this
      ensures Valid() && id in rows && rows[id] == Row(name, parent)
      ensures forall k <- old(rows) :: k in rows && RowPath(rows, k) == old(RowPath(rows, k))
      ensures RowPath(rows, id) == old(RowPath(rows, parent)) + [name]
    {
      if found :| found in rows && rows[found] == Row(name, parent) {
        return found;
      }
      id := largest + 1;
      RowAdded(rows, id, Row(name, parent), parent);
      forall k <- rows
        ensures RowPath(rows[id := Row(name, parent)], k) == RowPath(rows, k)
      {
        RowAdded(rows, id, Row(name, parent), k);
      }
      rows, largest := rows[id := Row(name, parent)], id;
    }

    /** The id of a tag; ancestors get theirs first. */
    method FindTagId(forest: TagForest, tag: Tag) returns (id: int)
      requires Valid() && forest.Valid() && tag in forest.all && Synced(forest.all, rows)
      modifies this, forest`tagsById, forest.all`tagId
      ensures Valid() && forest.Valid() && Synced(forest.all, rows)
      ensures id in rows && tag.tagId == id && RowPath(rows, id) == TagPath(tag)
      ensures forall k <- old(rows) :: k in rows && RowPath(rows, k) == old(RowPath(rows, k))
      ensures forall t <- forest.all :: old(t.tagId) != 0 || t.level > tag.level ==> t.tagId == old(t.tagId)
      decreases tag.level
    {
      hide TagForest.ListOk, NamesKept, SiblingsDiffer;
      if tag.tagId != 0 {
        return tag.tagId;
      }
      var parentId := 0;
      if tag.parent != null {
        parentId := FindTagId(forest, tag.parent);
        assert RowOk(rows, parentId);
      }
      id := FindOrAdd(tag.name, parentId);
      assert RowOk(rows, id);
      assert Synced(forest.all, rows);
      label synced:
      forest.SetTagId(tag, id);
      forall t <- forest.all | t.tagId != 0
        ensures t.tagId in rows && RowPath(rows, t.tagId) == TagPath(t)
      {
        if t != tag {
          assert t.tagId == old@synced(t.tagId);
        }
      }
    }

    // ---------- loading ----------

    ghost predicate Loaded(forest: TagForest, id: int)
      requires TableOk(rows) && id in rows && forest.Valid()
      reads this, forest, forest.all`children, forest.all`fullName
    {
      LeadsToRow(rows, forest.tagsById, id)
    }

    ghost predicate Compatible(forest: TagForest)
      requires TableOk(rows) && forest.Valid()
      reads this, forest, forest.all`children, forest.all`fullName
    {
      KnownByIdOnly(rows, forest.all, forest.tagsById)
    }

    /** One row, if its id is not known. */
    method LoadRow(forest: TagForest, id: int)
      requires Valid() && forest.Valid() && id in rows
      modifies forest, forest.all`children
      ensures Valid() && forest.Valid() && old(forest.all) <= forest.all && fresh(forest.all - old(forest.all))
      ensures RowStep(rows, id, old(forest.all), old(forest.tagsById), forest.all, forest.tagsById)
    {
      hide TagForest.ListOk, NamesKept, SiblingsDiffer, TagPath, RowPath, Rooted;
      var known := forest.GetTagById(id);
      if known != null {
        return;
      }
      var parent := forest.GetTagById(rows[id].parent);
      assert RowOk(rows, id);
      var t := forest.GetTag(rows[id].name, parent, id);
    }

    /** Rows in ascending order of their ids. Afterwards every id leads to the tag with its row's path if and only if
        the registry knew tags of the table only by their ids. */
    method LoadAllTagsById(forest: TagForest)
      requires Valid() && forest.Valid()
      modifies forest, forest.all`children
      ensures Valid() && forest.Valid()
      ensures old(forest.all) <= forest.all && fresh(forest.all - old(forest.all))
      ensures forall id <- old(forest.tagsById) ::
        id in forest.tagsById && forest.tagsById[id] == old(forest.tagsById[id])
      ensures (forall id <- rows :: Loaded(forest, id)) <==> old(Compatible(forest))
    {
      hide TagForest.ListOk, NamesKept, KnownByIdOnly, LeadsToRow, RowStep, OnlyAdded, LoadedBelow;
      ghost var all, before := forest.all, forest.tagsById;
      NothingAdded(rows, all, before);
      for id := 1 to largest + 1
        invariant Valid() && forest.Valid()
        invariant old(forest.all) <= forest.all && fresh(forest.all - old(forest.all))
        invariant OnlyAdded(rows, all, before, forest.tagsById)
        invariant KnownByIdOnly(rows, all, before) ==> LoadedBelow(rows, forest.all, forest.tagsById, id)
      {
        if id in rows {
          ghost var all', byId := forest.all, forest.tagsById;
          forest.ValidIsInterned();
          LoadRow(forest, id);
          forest.ValidIsInterned();
          StepAdds(rows, id, all, before, all', byId, forest.all, forest.tagsById);
          if KnownByIdOnly(rows, all, before) {
            StepLoads(rows, id, all', byId, forest.all, forest.tagsById);
          }
        } else {
          NoRow(rows, forest.all, forest.tagsById, id);
        }
      }
      forest.ValidIsInterned();
      LoadedExactly(rows, all, before, forest.all, forest.tagsById, largest + 1);
    }
  }

  // ---------- what loading does to a registry ----------

  ghost predicate AllRooted(byId: map<int, Tag>) { forall id <- byId :: Rooted(byId[id]) }

  /** The id leads to the tag with its row's path. */
  ghost predicate LeadsToRow(rows: Rows, byId: map<int, Tag>, id: int)
    requires TableOk(rows) && id in rows && AllRooted(byId)
  {
    id in byId && TagPath(byId[id]) == RowPath(rows, id)
  }

  /** The registry knows tags of the table only by their ids, and rows without a parent cannot end up under a tag with
      the id 0. An empty registry is one. */
  ghost predicate KnownByIdOnly(rows: Rows, all: set<Tag>, byId: map<int, Tag>)
    requires TableOk(rows) && AllRooted(byId) && Closed(all)
  {
    && (forall id <- rows :: id in byId ==> LeadsToRow(rows, byId, id))
    && (forall t <- all, id <- rows :: TagPath(t) == RowPath(rows, id) ==> id in byId && byId[id] == t)
    && (0 in byId ==> forall id <- rows :: rows[id].parent == 0 ==> id in byId)
  }

  lemma EmptyIsCompatible(rows: Rows)
    requires TableOk(rows)
    ensures KnownByIdOnly(rows, {}, map[])
  {
  }

  /** What one row does: nothing if its id is known; otherwise its name is looked up under the tag of its parent's id,
      or at the top when there is none, and only a new tag gets the id. */
  ghost predicate RowStep(rows: Rows, id: int, all: set<Tag>, byId: map<int, Tag>, all': set<Tag>, byId': map<int, Tag>)
    requires id in rows
  {
    if id in byId then all' == all && byId' == byId
    else
      exists t <- all' ::
        && t.name == rows[id].name
        && t.parent == (if rows[id].parent in byId then byId[rows[id].parent] else null)
        && if t in all then all' == all && byId' == byId else all' == all + {t} && byId' == byId[id := t]
  }

  ghost predicate LoadedBelow(rows: Rows, all: set<Tag>, byId: map<int, Tag>, limit: int)
    requires TableOk(rows) && AllRooted(byId) && Closed(all)
  {
    KnownByIdOnly(rows, all, byId) && forall k <- rows :: k < limit ==> LeadsToRow(rows, byId, k)
  }

  lemma NoRow(rows: Rows, all: set<Tag>, byId: map<int, Tag>, id: int)
    requires TableOk(rows) && AllRooted(byId) && Closed(all) && id !in rows
    ensures LoadedBelow(rows, all, byId, id) ==> LoadedBelow(rows, all, byId, id + 1)
  {
    hide KnownByIdOnly, LeadsToRow;
  }

  /** If all went well so far, the row's parent is there, and the row ends up in its place. */
  lemma StepLoads(rows: Rows, id: int, all: set<Tag>, byId: map<int, Tag>, all': set<Tag>, byId': map<int, Tag>)
    requires TableOk(rows) && id in rows && AllRooted(byId) && Interned(all) && AllRooted(byId') && Interned(all')
    requires LoadedBelow(rows, all, byId, id) && RowStep(rows, id, all, byId, all', byId')
    ensures LoadedBelow(rows, all', byId', id + 1)
  {
    hide TagPath, RowPath, SiblingsDiffer, Rooted;
    if id !in byId {
      assert RowOk(rows, id);
      var t :|
        && t in all' && t.name == rows[id].name
        && t.parent == (if rows[id].parent in byId then byId[rows[id].parent] else null)
        && if t in all then all' == all && byId' == byId else all' == all + {t} && byId' == byId[id := t];
      NoPath(rows);
      PathsAgree(rows, id, t);
      OnlyRow(rows, id);
    }
  }

  /** Ids keep their tags, those that are new lead to new tags, and rows without a parent go under the tag with the
      id 0 if there is one. */
  ghost predicate OnlyAdded(rows: Rows, all: set<Tag>, before: map<int, Tag>, after: map<int, Tag>)
  {
    && (forall id <- before :: id in after && after[id] == before[id])
    && (forall id <- after :: id in before || after[id] !in all)
    && (forall id <- after :: id in before || id > 0)
    && (0 in before ==> forall id <- after ::
          id !in before && id in rows && rows[id].parent == 0 ==> after[id].parent != null)
  }

  lemma NothingAdded(rows: Rows, all: set<Tag>, before: map<int, Tag>)
    requires TableOk(rows) && AllRooted(before) && Closed(all)
    ensures OnlyAdded(rows, all, before, before)
    ensures KnownByIdOnly(rows, all, before) ==> LoadedBelow(rows, all, before, 1)
  {
    assert forall k <- rows :: RowOk(rows, k);
  }

  lemma StepAdds(rows: Rows, id: int, start: set<Tag>, before: map<int, Tag>, all: set<Tag>, byId: map<int, Tag>,
                 all': set<Tag>, byId': map<int, Tag>)
    requires id in rows && id > 0 && start <= all && OnlyAdded(rows, start, before, byId)
    requires RowStep(rows, id, all, byId, all', byId')
    ensures OnlyAdded(rows, start, before, byId')
  {
  }

  /** Loading succeeds for all rows exactly when the registry knew tags of the table only by their ids. */
  lemma LoadedExactly(rows: Rows, all: set<Tag>, before: map<int, Tag>, all': set<Tag>, after: map<int, Tag>,
                      limit: int)
    requires TableOk(rows) && AllRooted(before) && AllRooted(after) && Closed(all) && Interned(all') && all <= all'
    requires OnlyAdded(rows, all, before, after) && forall id <- after :: after[id] in all'
    requires forall k <- rows :: k < limit
    requires KnownByIdOnly(rows, all, before) ==> LoadedBelow(rows, all', after, limit)
    ensures forall id <- before :: id in after && after[id] == before[id]
    ensures (forall id <- rows :: LeadsToRow(rows, after, id)) <==> KnownByIdOnly(rows, all, before)
  {
    hide TagPath, RowPath, SiblingsDiffer, Rooted;
    if forall id <- rows :: LeadsToRow(rows, after, id) {
      forall t <- all, id <- rows | TagPath(t) == RowPath(rows, id)
        ensures id in before && before[id] == t
      {
        SamePathSameTag(all', after[id], t);
      }
      forall id <- rows | 0 in before && rows[id].parent == 0
        ensures id in before
      {
        RootIsShort(rows, id, after[id]);
      }
    }
  }

  lemma RootIsShort(rows: Rows, id: int, t: Tag)
    requires TableOk(rows) && id in rows && rows[id].parent == 0 && Rooted(t) && TagPath(t) == RowPath(rows, id)
    ensures t.parent == null
  {
    PathLength(t);
  }

  /** So a tag that came into the registry by its name is not given the id of its row. */
  method NameHidesRow() returns (store: TagStore, forest: TagForest)
    ensures store.Valid() && forest.Valid() && !(forall id <- store.rows :: store.Loaded(forest, id))
  {
    hide TagForest.ListOk, NamesKept, SiblingsDiffer;
    store := new TagStore();
    forest := new TagForest();
    var id := store.FindOrAdd("a", 0);
    var t := forest.GetTag("a", null, 0);
    assert TagPath(t) == [] + ["a"];
    store.LoadAllTagsById(forest);
  }

  method SaveTags(store: TagStore, forest: TagForest, tags: seq<Tag>)
    requires store.Valid() && forest.Valid() && Synced(forest.all, store.rows)
    requires forall i :: 0 <= i < |tags| ==> tags[i] in forest.all
    modifies store, forest`tagsById, forest.all`tagId
    ensures store.Valid() && forest.Valid() && Synced(forest.all, store.rows)
    ensures forall i :: 0 <= i < |tags| ==> tags[i].tagId != 0
  {
    hide TagForest.ListOk, NamesKept, RowPath, TableOk;
    for i := 0 to |tags|
      invariant store.Valid() && forest.Valid() && Synced(forest.all, store.rows)
      invariant forall k :: 0 <= k < i ==> tags[k].tagId != 0
    {
      var id := store.FindTagId(forest, tags[i]);
      IdPositive(store.rows, id);
    }
  }

  method Reload(store: TagStore) returns (forest: TagForest)
    requires store.Valid()
    ensures fresh(forest) && fresh(forest.all) && forest.Valid() && forall id <- store.rows :: store.Loaded(forest, id)
  {
    hide TagForest.ListOk, NamesKept, RowPath, TableOk;
    forest := new TagForest();
    EmptyIsCompatible(store.rows);
    store.LoadAllTagsById(forest);
  }

  /** The tag's id leads to a tag of the same path. */
  ghost predicate Restored(t: Tag, reloaded: TagForest)
    requires Rooted(t) && reloaded.Valid()
    reads t`tagId, reloaded, reloaded.all`children, reloaded.all`fullName
  {
    var id := t.tagId;
    id in reloaded.tagsById && TagPath(reloaded.tagsById[id]) == TagPath(t)
  }

  lemma LoadedIsRestored(store: TagStore, all: set<Tag>, reloaded: TagForest, t: Tag)
    requires store.Valid() && Closed(all) && Synced(all, store.rows) && t in all && t.tagId != 0
    requires reloaded.Valid() && forall id <- store.rows :: store.Loaded(reloaded, id)
    ensures Restored(t, reloaded)
  {
    hide TagForest.ListOk, NamesKept, RowPath, TableOk;
    assert store.Loaded(reloaded, t.tagId);
  }

  lemma AllRestored(store: TagStore, all: set<Tag>, reloaded: TagForest, tags: seq<Tag>)
    requires store.Valid() && Closed(all) && Synced(all, store.rows)
    requires forall i :: 0 <= i < |tags| ==> tags[i] in all && tags[i].tagId != 0
    requires reloaded.Valid() && forall id <- store.rows :: store.Loaded(reloaded, id)
    ensures forall i :: 0 <= i < |tags| ==> Restored(tags[i], reloaded)
  {
    hide TagForest.ListOk, NamesKept, RowPath, TableOk, Restored, TagPath;
    forall i | 0 <= i < |tags|
      ensures Restored(tags[i], reloaded)
    {
      LoadedIsRestored(store, all, reloaded, tags[i]);
    }
  }

  /** Save any tags, then start with an empty registry and load the table: every id leads to the same path. */
  method SaveThenLoad(store: TagStore, forest: TagForest, tags: seq<Tag>) returns (reloaded: TagForest)
    requires store.Valid() && forest.Valid() && Synced(forest.all, store.rows)
    requires forall i :: 0 <= i < |tags| ==> tags[i] in forest.all
    modifies store, forest`tagsById, forest.all`tagId
    ensures reloaded.Valid() && store.Valid() && forest.Valid()
    ensures forall i :: 0 <= i < |tags| ==> Restored(tags[i], reloaded)
  {
    hide TagForest.ListOk, NamesKept, RowPath, TableOk, Restored, SiblingsDiffer, TagPath;
    SaveTags(store, forest, tags);
    reloaded := Reload(store);
    AllRestored(store, forest.all, reloaded, tags);
  }

  lemma IdPositive(rows: Rows, id: int)
    requires TableOk(rows) && id in rows
    ensures id != 0
  {
    assert RowOk(rows, id);
  }
}

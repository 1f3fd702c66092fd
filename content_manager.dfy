/** The content manager (DefaultContentManager.cs) and the collaborators it
    drives: the document session it saves to and queries (a unit of work
    with an identity map), its per-request cache of loaded items, and the
    id generator for new content items. Content items are objects whose
    flags and numbers the manager changes in place. */
module ContentManagement {
  import opened Common
  import opened ContentVersions

  /** A content item: one version row, as an object of the session. */
  class ContentItem {
    /** The storage row id; 0 until the item is first saved. */
    var Id: int
    var ContentItemId: int
    var Number: int
    var Latest: bool
    var Published: bool
    const ContentType: string

    /** A new, unsaved item of a content type. */
    constructor (contentType: string)
      ensures Id == 0 && ContentItemId == 0 && Number == 0 && !Latest && !Published && ContentType == contentType
    {
      Id := 0;
      ContentItemId := 0;
      Number := 0;
      Latest := false;
      Published := false;
      ContentType := contentType;
    }

    /** The instance the session materializes for a stored row. */
    constructor FromRow(id: int, row: Row)
      ensures Id == id && RowOf(this) == row
    {
      Id := id;
      ContentItemId := row.ContentItemId;
      Number := row.Number;
      Latest := row.Latest;
      Published := row.Published;
      ContentType := row.ContentType;
    }
  }

  /** The row an item would be stored as. */
  function RowOf(item: ContentItem): Row
    reads item`ContentItemId, item`Number, item`Latest, item`Published
  {
    Row(item.ContentItemId, item.Number, item.Latest, item.Published, item.ContentType)
  }

  /** The rows of a set of loaded instances, by row id. */
  function RowsOf(loaded: map<int, ContentItem>): map<int, Row>
    reads loaded.Values
  {
    map id | id in loaded :: RowOf(loaded[id])
  }

  /** The rows whose ids are in a set. */
  function Restrict(rows: map<int, Row>, ids: set<int>): map<int, Row>
  {
    map id | id in rows && id in ids :: rows[id]
  }

  /** Storage agrees with every row that is not enlisted. */
  ghost predicate SyncedRows(db: map<int, Row>, enlisted: set<int>, rows: map<int, Row>)
  {
    forall id :: id in rows && id !in enlisted ==> id in db && rows[id] == db[id]
  }

  /** Flushing changes what the session sees in no row, and leaves nothing unwritten. */
  lemma FlushKeepsView(db: map<int, Row>, enlisted: set<int>, rows: map<int, Row>)
    ensures (db + Restrict(rows, enlisted)) + rows == db + rows
    ensures SyncedRows(db, enlisted, rows) ==> SyncedRows(db + Restrict(rows, enlisted), {}, rows)
  {
  }

  /** With every unenlisted row in storage, flushing makes storage what the session sees. */
  lemma SyncedCommitted(db: map<int, Row>, enlisted: set<int>, rows: map<int, Row>)
    requires SyncedRows(db, enlisted, rows)
    ensures db + Restrict(rows, enlisted) == db + rows
  {
    var committed, seen := db + Restrict(rows, enlisted), db + rows;
    forall id | id in seen
      ensures id in committed
    {
      if id !in db {
        assert id in rows && id in enlisted;
      }
    }
    forall id | id in committed
      ensures committed[id] == seen[id]
    {
    }
  }

  /** Enlisting a row, new or loaded, with its current values. */
  lemma EnlistRow(db: map<int, Row>, enlisted: set<int>, rows: map<int, Row>, id: int, r: Row)
    ensures db + rows[id := r] == (db + rows)[id := r]
    ensures db + Restrict(rows[id := r], enlisted + {id}) == (db + Restrict(rows, enlisted))[id := r]
    ensures SyncedRows(db, enlisted, rows) ==> SyncedRows(db, enlisted + {id}, rows[id := r])
  {
  }

  /** Assigning a loaded row new values: the session sees them, and storage
      receives them when the row is enlisted. */
  lemma AssignRow(db: map<int, Row>, enlisted: set<int>, rows: map<int, Row>, id: int, r: Row)
    ensures db + rows[id := r] == (db + rows)[id := r]
    ensures id in enlisted ==> db + Restrict(rows[id := r], enlisted) == (db + Restrict(rows, enlisted))[id := r]
    ensures id in enlisted && SyncedRows(db, enlisted, rows) ==> SyncedRows(db, enlisted, rows[id := r])
    ensures SyncedRows(db, enlisted, rows) || SyncedRows(db, enlisted + {id}, rows) ==> SyncedRows(db, enlisted + {id}, rows[id := r])
  {
  }

  /** Loading a stored row into the session changes neither what it sees,
      nor what it writes, nor whether it is in step with storage. */
  lemma LoadKeepsView(db: map<int, Row>, enlisted: set<int>, rows: map<int, Row>, id: int)
    requires id in db && id !in rows && id !in enlisted
    ensures db + rows[id := db[id]] == db + rows
    ensures Restrict(rows[id := db[id]], enlisted) == Restrict(rows, enlisted)
    ensures SyncedRows(db, enlisted, rows) ==> SyncedRows(db, enlisted, rows[id := db[id]])
  {
  }

  /** Loading one more stored row, before or after the others. */
  lemma RestrictStep(db: map<int, Row>, ids: set<int>, id: int, rows: map<int, Row>)
    requires id in ids && id in db
    ensures Restrict(db, ids) + rows == Restrict(db, ids - {id}) + (if id in rows then rows else rows[id := db[id]])
  {
  }

  /** Loading stored rows changes neither what the session sees nor whether
      it is in step with storage. */
  lemma LoadAllKeepsView(db: map<int, Row>, rows: map<int, Row>, ids: set<int>)
    ensures db + (Restrict(db, ids) + rows) == db + rows
    ensures forall enlisted :: SyncedRows(db, enlisted, rows) ==> SyncedRows(db, enlisted, Restrict(db, ids) + rows)
  {
  }

  /** A set with no element restricts to nothing. */
  lemma EmptyRestrict(rows: map<int, Row>, ids: set<int>)
    requires forall id :: id !in ids
    ensures ids == {} && Restrict(rows, ids) == map[]
  {
    assert forall id :: id in ids <==> id in {};
    assert forall id :: id !in Restrict(rows, ids);
  }

  /** Adding the one missing key. */
  lemma KeysAdd<V>(m: map<int, V>, ids: set<int>, id: int, v: V)
    requires m.Keys == ids - {id} && id in ids
    ensures m[id := v].Keys == ids
  {
    assert forall k :: k in m[id := v].Keys <==> k in ids;
  }

  /** An entry added before a merge that does not touch its key. */
  lemma UpdateThenMerge<K, V>(m: map<K, V>, n: map<K, V>, k: K, v: V)
    requires k !in n
    ensures m[k := v] + n == m + n[k := v]
  {
  }

  /** A merge under an entry the merged map already agrees with. */
  lemma MergeThenUpdate<K, V>(n: map<K, V>, m: map<K, V>, k: K, v: V)
    requires k in m ==> m[k] == v
    ensures n + m[k := v] == n[k := v] + m
  {
  }

  /** A second assignment to the same key replaces the first. */
  lemma UpdateTwice<K, V>(m: map<K, V>, k: K, a: V, b: V)
    ensures m[k := a][k := b] == m[k := b]
  {
  }

  /** The document session (YesSql `ISession`): the rows in storage, the
      instances loaded in this session by row id (one per row), and the row
      ids enlisted by `Save`. Storage receives an enlisted instance's values
      when the session flushes, so changes made after `Save` are written too;
      changes to an instance that is not enlisted are never written. */
  class DocumentSession {
    var db: map<int, Row>
    var loaded: map<int, ContentItem>
    var enlisted: set<int>
    var nextRowId: int
    /** The current values of the loaded instances, by row id: what the
        session's change tracking sees. */
    ghost var tracked: map<int, Row>
    /** The instances this session has made or been given: a superset of
        the loaded ones. */
    ghost var Repr: set<ContentItem>

    constructor (db: map<int, Row>, nextRowId: int)
      requires 0 < nextRowId && forall id :: id in db ==> 0 < id < nextRowId
      ensures this.db == db && this.nextRowId == nextRowId && loaded == map[] && enlisted == {}
      ensures Valid() && Synced()
    {
      this.db := db;
      this.nextRowId := nextRowId;
      loaded := map[];
      enlisted := {};
      tracked := map[];
      Repr := {};
    }

    /** Each loaded instance carries its row id and its tracked values; only
        loaded instances are enlisted; row ids are positive and below the
        next one. */
    ghost predicate Valid()
      reads this, Repr
    {
      Tracks() && Bounded()
    }

    ghost predicate Tracks()
      reads `loaded, `tracked, `Repr, Repr
    {
      tracked.Keys == loaded.Keys &&
      forall id :: id in loaded ==> loaded[id] in Repr && loaded[id].Id == id && RowOf(loaded[id]) == tracked[id]
    }

    ghost predicate Bounded()
      reads `db, `loaded, `enlisted, `nextRowId
    {
      enlisted <= loaded.Keys && 0 < nextRowId &&
      (forall id :: id in db ==> 0 < id < nextRowId) &&
      (forall id :: id in loaded ==> 0 < id < nextRowId)
    }

    /** Every instance loaded in `before` is still loaded for its row. */
    ghost predicate Extends(before: map<int, ContentItem>)
      reads `loaded
    {
      forall id :: id in before ==> id in loaded && loaded[id] == before[id]
    }

    /** A loaded instance belongs to the session and the session sees its values. */
    lemma Sees(id: int)
      requires Valid() && id in loaded
      ensures loaded[id] in Repr && loaded[id].Id == id && View()[id] == RowOf(loaded[id])
    {
    }

    /** A loaded row that is not enlisted and differs from storage: storage
        keeps its stored values, and not every change will reach it. */
    lemma Unwritten(id: int)
      requires id in db && id in tracked && id !in enlisted && tracked[id] != db[id]
      ensures id in Committed() && Committed()[id] == db[id] && !Synced()
    {
    }

    /** The rows as this session sees them: a loaded instance's current
        values, otherwise storage. */
    ghost function View(): map<int, Row>
      reads `db, `tracked
    {
      db + tracked
    }

    /** The rows storage holds once the session is flushed. */
    ghost function Committed(): map<int, Row>
      reads `db, `tracked, `enlisted
    {
      db + Restrict(tracked, enlisted)
    }

    /** Every change made in this session will reach storage: a loaded
        instance that is not enlisted agrees with its stored row. */
    ghost predicate Synced()
      reads `db, `tracked, `enlisted
    {
      SyncedRows(db, enlisted, tracked)
    }

    /** Every change will reach storage once the row `id` is enlisted too:
        what an assignment to a loaded item leaves until the item is saved. */
    ghost predicate SyncedBut(id: int)
      reads `db, `tracked, `enlisted
    {
      SyncedRows(db, enlisted + {id}, tracked)
    }

    /** An item belongs to this session: unsaved, or the loaded instance of its row. */
    ghost predicate Attached(item: ContentItem)
      reads `loaded, item`Id
    {
      item.Id == 0 || (item.Id in loaded && loaded[item.Id] == item)
    }

    /** An unsaved item gets the next row id and is tracked. */
    method Track(item: ContentItem)
      requires Valid() && item.Id == 0
      modifies `loaded, `tracked, `Repr, `nextRowId, item`Id
      ensures Valid() && item.Id == old(nextRowId) && item.Id !in old(View())
      ensures loaded == old(loaded)[item.Id := item] && tracked == old(tracked)[item.Id := RowOf(item)]
      ensures nextRowId == old(nextRowId) + 1 && Repr == old(Repr) + {item}
    {
      Repr := Repr + {item};
      item.Id := nextRowId;
      nextRowId := nextRowId + 1;
      loaded := loaded[item.Id := item];
      tracked := tracked[item.Id := RowOf(item)];
    }

    /** `Save` of an unsaved item: it gets the next row id, is loaded and is
        enlisted. */
    method SaveNew(item: ContentItem)
      requires Valid() && item.Id == 0
      modifies `loaded, `tracked, `Repr, `nextRowId, `enlisted, item`Id
      ensures Valid() && item.Id == old(nextRowId) && item.Id !in old(View()) && item.Id !in old(loaded)
      ensures loaded == old(loaded)[item.Id := item] && nextRowId == old(nextRowId) + 1 && Repr == old(Repr) + {item}
      ensures enlisted == old(enlisted) + {item.Id}
      ensures View() == old(View())[item.Id := RowOf(item)]
      ensures Committed() == old(Committed())[item.Id := RowOf(item)]
      ensures old(Synced()) ==> Synced()
    {
      ghost var rows, r := tracked, RowOf(item);
      Track(item);
      EnlistRow(db, enlisted, rows, item.Id, r);
      enlisted := enlisted + {item.Id};
    }

    /** `Save` of a loaded item: it is enlisted, so storage receives its
        values at the next flush. */
    method Save(item: ContentItem)
      requires Valid() && item.Id in loaded && loaded[item.Id] == item
      modifies `enlisted
      ensures Valid() && enlisted == old(enlisted) + {item.Id}
      ensures View() == old(View())
      ensures Committed() == old(Committed())[item.Id := RowOf(item)]
      ensures old(Synced() || SyncedBut(item.Id)) ==> Synced()
    {
      ghost var rows, r := tracked, RowOf(item);
      Sees(item.Id);
      assert rows[item.Id] == r;
      assert rows[item.Id := r] == rows;
      EnlistRow(db, enlisted, rows, item.Id, r);
      enlisted := enlisted + {item.Id};
    }

    /** An assignment to an item's `Published`, seen by the session's change
        tracking when the item is loaded. */
    method SetPublished(item: ContentItem, value: bool)
      requires Valid() && Attached(item)
      modifies `tracked, item`Published
      ensures Valid() && item.Published == value
      ensures tracked == if item.Id == 0 then old(tracked) else old(tracked)[item.Id := RowOf(item)]
      ensures item.Id != 0 ==> View() == old(View())[item.Id := RowOf(item)]
      ensures item.Id in enlisted ==> Committed() == old(Committed())[item.Id := RowOf(item)] && (old(Synced()) ==> Synced())
      ensures item.Id == 0 && old(Synced()) ==> Synced()
      ensures old(Synced() || SyncedBut(item.Id)) ==> SyncedBut(item.Id)
    {
      item.Published := value;
      if item.Id != 0 {
        AssignRow(db, enlisted, tracked, item.Id, RowOf(item));
        tracked := tracked[item.Id := RowOf(item)];
      }
    }

    /** An assignment to an item's `Latest`. */
    method SetLatest(item: ContentItem, value: bool)
      requires Valid() && Attached(item)
      modifies `tracked, item`Latest
      ensures Valid() && item.Latest == value
      ensures tracked == if item.Id == 0 then old(tracked) else old(tracked)[item.Id := RowOf(item)]
      ensures item.Id != 0 ==> View() == old(View())[item.Id := RowOf(item)]
      ensures item.Id in enlisted ==> Committed() == old(Committed())[item.Id := RowOf(item)] && (old(Synced()) ==> Synced())
      ensures item.Id == 0 && old(Synced()) ==> Synced()
      ensures old(Synced() || SyncedBut(item.Id)) ==> SyncedBut(item.Id)
    {
      item.Latest := value;
      if item.Id != 0 {
        AssignRow(db, enlisted, tracked, item.Id, RowOf(item));
        tracked := tracked[item.Id := RowOf(item)];
      }
    }

    /** An assignment to an item's `Number`. */
    method SetNumber(item: ContentItem, value: int)
      requires Valid() && Attached(item)
      modifies `tracked, item`Number
      ensures Valid() && item.Number == value
      ensures tracked == if item.Id == 0 then old(tracked) else old(tracked)[item.Id := RowOf(item)]
      ensures item.Id != 0 ==> View() == old(View())[item.Id := RowOf(item)]
      ensures item.Id in enlisted ==> Committed() == old(Committed())[item.Id := RowOf(item)] && (old(Synced()) ==> Synced())
      ensures item.Id == 0 && old(Synced()) ==> Synced()
      ensures old(Synced() || SyncedBut(item.Id)) ==> SyncedBut(item.Id)
    {
      item.Number := value;
      if item.Id != 0 {
        AssignRow(db, enlisted, tracked, item.Id, RowOf(item));
        tracked := tracked[item.Id := RowOf(item)];
      }
    }

    /** Writing the unit of work: storage takes the enlisted instances' values. */
    method Flush()
      requires Valid()
      modifies `db, `enlisted
      ensures Valid() && db == old(Committed()) && enlisted == {}
      ensures View() == old(View())
      ensures old(Synced()) ==> Synced()
    {
      forall id | id in loaded
        ensures RowsOf(loaded)[id] == tracked[id]
      {
      }
      assert RowsOf(loaded) == tracked;
      FlushKeepsView(db, enlisted, tracked);
      db := db + Restrict(RowsOf(loaded), enlisted);
      enlisted := {};
    }

    /** The session's instance of a stored row: the loaded one, or a new one
        made from the row. */
    method Materialize(id: int) returns (item: ContentItem)
      requires Valid() && id in db
      modifies `loaded, `tracked, `Repr
      ensures Valid() && item.Id == id && loaded == old(loaded)[id := item]
      ensures id in old(loaded) ==> item == old(loaded)[id] && tracked == old(tracked)
      ensures id !in old(loaded) ==> fresh(item) && tracked == old(tracked)[id := db[id]]
      ensures forall o :: o in Repr ==> o in old(Repr) || fresh(o)
      ensures View() == old(View())
      ensures old(Synced()) ==> Synced()
    {
      if id in loaded {
        item := loaded[id];
      } else {
        LoadKeepsView(db, enlisted, tracked, id);
        item := new ContentItem.FromRow(id, db[id]);
        Repr := Repr + {item};
        loaded := loaded[id := item];
        tracked := tracked[id := db[id]];
      }
    }

    /** `GetAsync<ContentItem>(id)`: the session's instance of a row by row
        id, or null when the session sees no such row. */
    method Get(id: int) returns (item: ContentItem?)
      requires Valid()
      modifies `loaded, `tracked, `Repr
      ensures Valid() && (item == null <==> id !in View())
      ensures item == null ==> loaded == old(loaded)
      ensures item != null ==> item.Id == id && loaded == old(loaded)[id := item]
      ensures item != null && id in old(loaded) ==> item == old(loaded)[id]
      ensures item != null && id !in old(loaded) ==> fresh(item)
      ensures forall o :: o in Repr ==> o in old(Repr) || fresh(o)
      ensures Extends(old(loaded)) && View() == old(View())
      ensures old(Synced()) ==> Synced()
    {
      if id in loaded {
        item := loaded[id];
      } else if id in db {
        item := Materialize(id);
      } else {
        item := null;
      }
    }

    /** `QueryAsync<ContentItem, ContentItemIndex>(...).FirstOrDefault()`:
        the session is flushed, then some row matching the query, as the
        session's instance, or null when none matches. Which matching row
        comes first is up to storage. */
    method Query(q: RowQuery) returns (item: ContentItem?)
      requires Valid()
      modifies `db, `enlisted, `loaded, `tracked, `Repr
      ensures Valid() && enlisted == {} && db == old(Committed())
      ensures item == null <==> forall id :: id in old(Committed()) ==> !Matches(q, old(Committed())[id])
      ensures item != null ==> item.Id in old(Committed()) && Matches(q, old(Committed())[item.Id]) &&
                               loaded == old(loaded)[item.Id := item]
      ensures item != null && item.Id in old(loaded) ==> item == old(loaded)[item.Id]
      ensures item != null && item.Id !in old(loaded) ==> fresh(item)
      ensures item == null ==> loaded == old(loaded)
      ensures forall o :: o in Repr ==> o in old(Repr) || fresh(o)
      ensures View() == old(View())
      ensures old(Synced()) ==> Synced()
    {
      Flush();
      if exists id :: id in db && Matches(q, db[id]) {
        var id :| id in db && Matches(q, db[id]);
        item := Materialize(id);
      } else {
        item := null;
      }
    }

    /** The session's instances of a set of stored rows, by row id: the
        loaded ones, and new ones made from the rows of the others. */
    method MaterializeAll(ids: set<int>) returns (items: map<int, ContentItem>)
      requires Valid() && ids <= db.Keys
      modifies `loaded, `tracked, `Repr
      ensures Valid()
      ensures items.Keys == ids && loaded == old(loaded) + items == items + old(loaded)
      ensures tracked == Restrict(db, ids) + old(tracked)
      ensures forall o :: o in Repr ==> o in old(Repr) || fresh(o)
      decreases |ids|
    {
      if exists id :: id in ids {
        var id :| id in ids;
        ghost var rows := tracked;
        var item := Materialize(id);
        ghost var middle := Repr;
        items := MaterializeAll(ids - {id});
        RestrictStep(db, ids, id, rows);
        UpdateThenMerge(old(loaded), items, id, item);
        MergeThenUpdate(items, old(loaded), id, item);
        KeysAdd(items, ids, id, item);
        items := items[id := item];
      } else {
        items := map[];
        EmptyRestrict(db, ids);
      }
    }

    /** `QueryAsync<ContentItem, ContentItemIndex>(...).List()`: the session
        is flushed, then the session's instances of all rows matching the
        query, by row id (the order of the list is left to storage). */
    method QueryAll(q: RowQuery) returns (items: map<int, ContentItem>)
      requires Valid()
      modifies `db, `enlisted, `loaded, `tracked, `Repr
      ensures Valid() && enlisted == {} && db == old(Committed())
      ensures forall id :: id in items <==> id in db && Matches(q, db[id])
      ensures loaded == old(loaded) + items == items + old(loaded)
      ensures forall o :: o in Repr ==> o in old(Repr) || fresh(o)
      ensures View() == old(View())
      ensures old(Synced()) ==> Synced()
    {
      Flush();
      var ids := set id | id in db && Matches(q, db[id]);
      ghost var rows := tracked;
      items := MaterializeAll(ids);
      LoadAllKeepsView(db, rows, ids);
    }
  }

  /** The three maps of `DefaultContentManagerSession`, the manager's
      per-request cache of the items it loaded or created: by row id, by
      content item id and version number, and the published item by content
      item id. The class is not part of this model's source files; it is
      reconstructed from its calls, with `Store` overwriting an entry of the
      same key. */
  class DefaultContentManagerSession {
    var itemByVersionId: map<int, ContentItem>
    var itemByContentItemId: map<(int, int), ContentItem>
    var publishedItemsById: map<int, ContentItem>
    /** The row ids of the items cached by version and as published. */
    ghost var versionRows: map<(int, int), int>
    ghost var publishedRows: map<int, int>

    constructor ()
      ensures itemByVersionId == map[] && itemByContentItemId == map[] && publishedItemsById == map[]
      ensures Within(map[])
    {
      itemByVersionId := map[];
      itemByContentItemId := map[];
      publishedItemsById := map[];
      versionRows := map[];
      publishedRows := map[];
    }

    /** Every cached item is the session's instance of its row. */
    ghost predicate Within(loaded: map<int, ContentItem>)
      reads this
    {
      (forall id :: id in itemByVersionId ==> id in loaded && loaded[id] == itemByVersionId[id]) &&
      (forall k :: k in itemByContentItemId ==>
         k in versionRows && versionRows[k] in loaded && loaded[versionRows[k]] == itemByContentItemId[k]) &&
      (forall c :: c in publishedItemsById ==>
         c in publishedRows && publishedRows[c] in loaded && loaded[publishedRows[c]] == publishedItemsById[c])
    }

    /** Loading more instances keeps every cached item loaded. */
    lemma WithinGrows(loaded: map<int, ContentItem>, loaded': map<int, ContentItem>)
      requires Within(loaded)
      requires forall id :: id in loaded ==> id in loaded' && loaded'[id] == loaded[id]
      ensures Within(loaded')
    {
      forall k | k in itemByContentItemId
        ensures versionRows[k] in loaded' && loaded'[versionRows[k]] == itemByContentItemId[k]
      {
        var id := versionRows[k];
        assert id in loaded;
      }
      forall c | c in publishedItemsById
        ensures publishedRows[c] in loaded' && loaded'[publishedRows[c]] == publishedItemsById[c]
      {
        var id := publishedRows[c];
        assert id in loaded;
      }
    }

    /** Loading one more instance keeps every cached item loaded. */
    lemma WithinAdd(loaded: map<int, ContentItem>, id: int, item: ContentItem)
      requires Within(loaded) && id !in loaded
      ensures Within(loaded[id := item])
    {
      WithinGrows(loaded, loaded[id := item]);
    }

    /** `Store`: the item is cached by row id and by version, and as the
        published item of its content item when it is published. Storing
        a loaded instance keeps every cached item loaded (`loaded` is the
        session's instances). */
    method Store(item: ContentItem, ghost loaded: map<int, ContentItem>)
      modifies this
      ensures itemByVersionId == old(itemByVersionId)[item.Id := item]
      ensures itemByContentItemId == old(itemByContentItemId)[(item.ContentItemId, item.Number) := item]
      ensures publishedItemsById == if item.Published then old(publishedItemsById)[item.ContentItemId := item] else old(publishedItemsById)
      ensures old(Within(loaded)) && item.Id in loaded && loaded[item.Id] == item ==> Within(loaded)
    {
      itemByVersionId := itemByVersionId[item.Id := item];
      itemByContentItemId := itemByContentItemId[(item.ContentItemId, item.Number) := item];
      versionRows := versionRows[(item.ContentItemId, item.Number) := item.Id];
      if item.Published {
        publishedItemsById := publishedItemsById[item.ContentItemId := item];
        publishedRows := publishedRows[item.ContentItemId := item.Id];
      }
    }

    /** The cached item a lookup mode recalls before asking storage, if any:
        by row id, by version number, or the published item. */
    ghost function Cached(contentItemId: int, mode: Mode): Option<ContentItem>
      reads this
    {
      match mode
      case ByVersionRecord(id) => if id in itemByVersionId then Some(itemByVersionId[id]) else None
      case ByNumber(number) =>
        if (contentItemId, number) in itemByContentItemId then Some(itemByContentItemId[(contentItemId, number)]) else None
      case PublishedMode => if contentItemId in publishedItemsById then Some(publishedItemsById[contentItemId]) else None
      case _ => None
    }

    /** The item a lookup recalls is the session's instance of some row. */
    lemma CachedLoaded(loaded: map<int, ContentItem>, contentItemId: int, mode: Mode) returns (id: int)
      requires Within(loaded) && Cached(contentItemId, mode).Some?
      ensures id in loaded && loaded[id] == Cached(contentItemId, mode).value
    {
      match mode
      case ByVersionRecord(r) => id := r;
      case ByNumber(n) => id := versionRows[(contentItemId, n)];
      case PublishedMode => id := publishedRows[contentItemId];
    }

    method RecallVersionId(id: int) returns (found: bool, item: ContentItem?)
      ensures found == (Cached(0, ByVersionRecord(id)).Some?) && (found ==> item == Cached(0, ByVersionRecord(id)).value)
    {
      found := id in itemByVersionId;
      item := if found then itemByVersionId[id] else null;
    }

    method RecallContentItemId(contentItemId: int, number: int) returns (found: bool, item: ContentItem?)
      ensures found == (Cached(contentItemId, ByNumber(number)).Some?) && (found ==> item == Cached(contentItemId, ByNumber(number)).value)
    {
      found := (contentItemId, number) in itemByContentItemId;
      item := if found then itemByContentItemId[(contentItemId, number)] else null;
    }

    method RecallPublishedItemId(contentItemId: int) returns (found: bool, item: ContentItem?)
      ensures found == (Cached(contentItemId, PublishedMode).Some?) && (found ==> item == Cached(contentItemId, PublishedMode).value)
    {
      found := contentItemId in publishedItemsById;
      item := if found then publishedItemsById[contentItemId] else null;
    }
  }

  /** `LinearBlockIdGenerator`, reduced to a counter: each id it hands out is
      above every id handed out before. */
  class LinearBlockIdGenerator {
    var next: int

    constructor (next: int)
      ensures this.next == next
    {
      this.next := next;
    }

    method GetNextId() returns (id: int)
      modifies this
      ensures id == old(next) && next == id + 1
    {
      id := next;
      next := next + 1;
    }
  }
}

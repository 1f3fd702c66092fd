/** The value side of the versioned content store (DefaultContentManager.cs):
    stored version rows, the version options a lookup takes, the storage
    queries the manager issues, the handler phases, and the invariant that
    each content item has at most one latest and one published row. */
module ContentVersions {
  import opened Common

  /** A stored version row, as its index sees it. */
  datatype Row = Row(ContentItemId: int, Number: int, Latest: bool, Published: bool, ContentType: string)

  /** `VersionOptions`: which version of an item a lookup wants. The class
      is not part of this model's source files; its fields are the ones
      `GetAsync` and `Create` read. */
  datatype VersionOptions = VersionOptions(
    VersionRecordId: int,
    VersionNumber: int,
    IsLatest: bool,
    IsDraft: bool,
    IsDraftRequired: bool,
    IsPublished: bool)

  /** The named options: `VersionOptions.Published`, `Latest`, `Draft`,
      `DraftRequired`, `Number(n)` and `VersionRecord(id)`. */
  const PublishedOptions := VersionOptions(0, 0, false, false, false, true)
  const LatestOptions := VersionOptions(0, 0, true, false, false, false)
  const DraftOptions := VersionOptions(0, 0, false, true, false, false)
  const DraftRequiredOptions := VersionOptions(0, 0, false, true, true, false)

  function NumberOptions(number: int): VersionOptions
  {
    VersionOptions(0, number, false, false, false, false)
  }

  function VersionRecordOptions(id: int): VersionOptions
  {
    VersionOptions(id, 0, false, false, false, false)
  }

  /** The lookup modes of `GetAsync`, in the order its branches test them. */
  datatype Mode =
    | ByVersionRecord(id: int)   // an exact row id
    | ByNumber(number: int)      // an exact version number
    | LatestMode                 // the latest row, draft or published
    | DraftMode                  // the latest row if it is a draft
    | DraftRequiredMode          // the latest row, to be copied if published
    | PublishedMode              // the published row
    | NoMode                     // no option set: nothing is looked up

  /** The branch `GetAsync` takes for a set of options: the first one whose
      test holds. */
  function ModeOf(options: VersionOptions): (m: Mode)
    ensures m.ByVersionRecord? <==> options.VersionRecordId != 0
    ensures m.ByNumber? <==> options.VersionRecordId == 0 && options.VersionNumber != 0
    ensures m.PublishedMode? ==> options.IsPublished && !options.IsDraft && !options.IsDraftRequired
    ensures m.NoMode? ==> !options.IsDraftRequired
  {
    if options.VersionRecordId != 0 then ByVersionRecord(options.VersionRecordId)
    else if options.VersionNumber != 0 then ByNumber(options.VersionNumber)
    else if options.IsLatest then LatestMode
    else if options.IsDraft && !options.IsDraftRequired then DraftMode
    else if options.IsDraft || options.IsDraftRequired then DraftRequiredMode
    else if options.IsPublished then PublishedMode
    else NoMode
  }

  /** The named options select the modes their names promise. */
  lemma NamedOptionsModes(number: int, id: int)
    ensures ModeOf(PublishedOptions) == PublishedMode
    ensures ModeOf(LatestOptions) == LatestMode
    ensures ModeOf(DraftOptions) == DraftMode
    ensures ModeOf(DraftRequiredOptions) == DraftRequiredMode && DraftRequiredOptions.IsDraftRequired
    ensures number != 0 ==> ModeOf(NumberOptions(number)) == ByNumber(number)
    ensures id != 0 ==> ModeOf(VersionRecordOptions(id)) == ByVersionRecord(id)
  {
  }

  /** The index queries the manager issues. */
  datatype RowQuery =
    | NumberQuery(contentItemId: int, number: int)
    | LatestQuery(contentItemId: int)
    | DraftQuery(contentItemId: int)
    | PublishedQuery(contentItemId: int)
    | ActiveQuery(contentItemId: int)

  predicate Matches(q: RowQuery, r: Row)
  {
    match q
    case NumberQuery(cid, number) => r.ContentItemId == cid && r.Number == number
    case LatestQuery(cid) => r.ContentItemId == cid && r.Latest
    case DraftQuery(cid) => r.ContentItemId == cid && !r.Published && r.Latest
    case PublishedQuery(cid) => r.ContentItemId == cid && r.Published
    case ActiveQuery(cid) => r.ContentItemId == cid && (r.Published || r.Latest)
  }

  /** The storage query a mode issues, when it issues one. */
  function QueryOf(contentItemId: int, mode: Mode): (q: RowQuery)
    requires !mode.ByVersionRecord? && !mode.NoMode?
    ensures forall r :: Matches(q, r) ==> r.ContentItemId == contentItemId
    ensures mode == DraftRequiredMode || mode == LatestMode ==> forall r :: Matches(q, r) <==> r.ContentItemId == contentItemId && r.Latest
  {
    match mode
    case ByNumber(number) => NumberQuery(contentItemId, number)
    case LatestMode => LatestQuery(contentItemId)
    case DraftMode => DraftQuery(contentItemId)
    case DraftRequiredMode => LatestQuery(contentItemId)
    case PublishedMode => PublishedQuery(contentItemId)
  }

  /** At most one latest and at most one published row per content item. */
  ghost predicate UniqueFlags(rows: map<int, Row>)
  {
    (forall a, b ::
      (a in rows && b in rows && rows[a].Latest && rows[b].Latest && rows[a].ContentItemId == rows[b].ContentItemId) ==> a == b) &&
    (forall a, b ::
      (a in rows && b in rows && rows[a].Published && rows[b].Published && rows[a].ContentItemId == rows[b].ContentItemId) ==> a == b)
  }

  /** Whether `id` is the published row of `cid`, or `None` when there is none. */
  ghost predicate PublishedRowOf(rows: map<int, Row>, cid: int, id: Option<int>)
  {
    match id
    case Some(p) => p in rows && rows[p].Published && rows[p].ContentItemId == cid
    case None => forall k :: k in rows ==> !(rows[k].Published && rows[k].ContentItemId == cid)
  }

  /** The rows after a publish: the previous published row (if any) loses its
      flag, then the item's row gains it. */
  function AfterPublish(rows: map<int, Row>, previous: Option<int>, itemId: int, item: Row): map<int, Row>
    requires previous.Some? ==> previous.value in rows
  {
    var demoted := if previous.Some? then rows[previous.value := rows[previous.value].(Published := false)] else rows;
    demoted[itemId := item.(Published := true)]
  }

  /** Publishing keeps the flags unique, when the row demoted is the item's
      published row and the item's row is the stored one. */
  lemma PublishKeepsFlagsUnique(rows: map<int, Row>, previous: Option<int>, itemId: int, item: Row)
    requires UniqueFlags(rows) && itemId in rows && rows[itemId] == item
    requires PublishedRowOf(rows, item.ContentItemId, previous)
    ensures previous.Some? ==> previous.value in rows
    ensures UniqueFlags(AfterPublish(rows, previous, itemId, item))
  {
    var after := AfterPublish(rows, previous, itemId, item);
    forall a, b | a in after && b in after && after[a].Published && after[b].Published &&
                  after[a].ContentItemId == after[b].ContentItemId
      ensures a == b
    {
      if a != itemId && b != itemId {
        assert rows[a].Published && rows[b].Published;
      }
    }
    forall a, b | a in after && b in after && after[a].Latest && after[b].Latest &&
                  after[a].ContentItemId == after[b].ContentItemId
      ensures a == b
    {
      assert rows[a].Latest && rows[b].Latest;
    }
  }

  /** Whether `id` is the latest row of `cid`, or `None` when there is none. */
  ghost predicate LatestRowOf(rows: map<int, Row>, cid: int, id: Option<int>)
  {
    match id
    case Some(l) => l in rows && rows[l].Latest && rows[l].ContentItemId == cid
    case None => forall k :: k in rows ==> !(rows[k].Latest && rows[k].ContentItemId == cid)
  }

  /** The rows after the previous latest row (if any) loses its flag. */
  function WithoutLatest(rows: map<int, Row>, latest: Option<int>): map<int, Row>
    requires latest.Some? ==> latest.value in rows
  {
    if latest.Some? then rows[latest.value := rows[latest.value].(Latest := false)] else rows
  }

  /** Demoting the latest row keeps the flags unique. */
  lemma WithoutLatestKeepsFlagsUnique(rows: map<int, Row>, latest: Option<int>)
    requires UniqueFlags(rows) && (latest.Some? ==> latest.value in rows)
    ensures UniqueFlags(WithoutLatest(rows, latest))
  {
    if latest.Some? {
      ClearingKeepsFlagsUnique(rows, latest.value, rows[latest.value].(Latest := false));
    }
  }

  /** The rows after a new version: the previous latest row (if any) loses
      its flag and the new row is added. */
  function AfterNewVersion(rows: map<int, Row>, latest: Option<int>, newId: int, newRow: Row): map<int, Row>
    requires latest.Some? ==> latest.value in rows
  {
    WithoutLatest(rows, latest)[newId := newRow]
  }

  /** A new unpublished latest version keeps the flags unique, when the row
      demoted is the item's latest row. */
  lemma NewVersionKeepsFlagsUnique(rows: map<int, Row>, latest: Option<int>, newId: int, newRow: Row)
    requires UniqueFlags(rows) && newId !in rows && !newRow.Published
    requires LatestRowOf(rows, newRow.ContentItemId, latest)
    ensures latest.Some? ==> latest.value in rows
    ensures UniqueFlags(AfterNewVersion(rows, latest, newId, newRow))
  {
    var after := AfterNewVersion(rows, latest, newId, newRow);
    forall a, b | a in after && b in after && after[a].Latest && after[b].Latest &&
                  after[a].ContentItemId == after[b].ContentItemId
      ensures a == b
    {
      if a != newId && b != newId {
        assert rows[a].Latest && rows[b].Latest;
      }
    }
    forall a, b | a in after && b in after && after[a].Published && after[b].Published &&
                  after[a].ContentItemId == after[b].ContentItemId
      ensures a == b
    {
      assert rows[a].Published && rows[b].Published;
    }
  }

  /** Clearing flags never breaks uniqueness. */
  lemma ClearingKeepsFlagsUnique(rows: map<int, Row>, id: int, r: Row)
    requires UniqueFlags(rows) && id in rows
    requires r.ContentItemId == rows[id].ContentItemId
    requires (r.Latest ==> rows[id].Latest) && (r.Published ==> rows[id].Published)
    ensures UniqueFlags(rows[id := r])
  {
    var after := rows[id := r];
    forall a, b | a in after && b in after && after[a].Latest && after[b].Latest &&
                  after[a].ContentItemId == after[b].ContentItemId
      ensures a == b
    {
      assert rows[a].Latest && rows[b].Latest;
    }
    forall a, b | a in after && b in after && after[a].Published && after[b].Published &&
                  after[a].ContentItemId == after[b].ContentItemId
      ensures a == b
    {
      assert rows[a].Published && rows[b].Published;
    }
  }

  /** The row `Create` stores for an item: a first version (number 0)
      becomes version 1, latest and published; an explicit version number
      replaces the number; a draft is not published. Nothing else changes,
      every created row has a version number, and creating again changes
      nothing. */
  function CreatedRow(r: Row, options: VersionOptions): (c: Row)
    ensures c.ContentItemId == r.ContentItemId && c.ContentType == r.ContentType
    ensures c.Number == if options.VersionNumber != 0 then options.VersionNumber else if r.Number == 0 then 1 else r.Number
    ensures c.Number != 0
    ensures c.Latest <==> r.Latest || r.Number == 0
    ensures c.Published <==> !options.IsDraft && (r.Published || r.Number == 0)
  {
    var first := if r.Number == 0 then r.(Number := 1, Latest := true, Published := true) else r;
    var numbered := if options.VersionNumber != 0 then first.(Number := options.VersionNumber) else first;
    if options.IsDraft then numbered.(Published := false) else numbered
  }

  /** Creating a created row again changes nothing. */
  lemma CreateIdempotent(r: Row, options: VersionOptions)
    ensures CreatedRow(CreatedRow(r, options), options) == CreatedRow(r, options)
  {
  }

  /** A row for a content item no other row belongs to keeps the flags unique. */
  lemma FreshItemKeepsFlagsUnique(rows: map<int, Row>, id: int, r: Row)
    requires UniqueFlags(rows)
    requires forall k :: k in rows && k != id ==> rows[k].ContentItemId != r.ContentItemId
    ensures UniqueFlags(rows[id := r])
  {
    var after := rows[id := r];
    forall a, b | a in after && b in after && after[a].Latest && after[b].Latest &&
                  after[a].ContentItemId == after[b].ContentItemId
      ensures a == b
    {
      if a != id && b != id {
        assert rows[a].Latest && rows[b].Latest;
      }
    }
    forall a, b | a in after && b in after && after[a].Published && after[b].Published &&
                  after[a].ContentItemId == after[b].ContentItemId
      ensures a == b
    {
      if a != id && b != id {
        assert rows[a].Published && rows[b].Published;
      }
    }
  }

  /** A query that can match only a latest (or only a published) row of one
      item matches at most one row when the flags are unique. */
  lemma UniqueMatch(rows: map<int, Row>, q: RowQuery, a: int, b: int)
    requires UniqueFlags(rows) && !q.NumberQuery? && !q.ActiveQuery?
    requires a in rows && b in rows && Matches(q, rows[a]) && Matches(q, rows[b])
    ensures a == b
  {
  }

  /** No row matches the query. */
  ghost predicate NoMatch(rows: map<int, Row>, q: RowQuery)
  {
    forall id :: id in rows ==> !Matches(q, rows[id])
  }

  /** The rows a removal deactivates: those of the item that are published or latest. */
  function ActiveIds(rows: map<int, Row>, contentItemId: int): set<int>
  {
    set id | id in rows && Matches(ActiveQuery(contentItemId), rows[id])
  }

  /** The rows after the listed ones lose both flags. */
  function Deactivated(rows: map<int, Row>, ids: set<int>): map<int, Row>
  {
    map id | id in rows :: if id in ids then rows[id].(Latest := false, Published := false) else rows[id]
  }

  /** Rows that lost both flags exactly where the active query matched are
      the removal's rows. */
  lemma RemovedRows(rows: map<int, Row>, contentItemId: int, ids: set<int>, after: map<int, Row>)
    requires forall id :: id in rows ==> (id in ids <==> Matches(ActiveQuery(contentItemId), rows[id]))
    requires forall id :: id in after <==> id in rows
    requires forall id :: id in rows ==>
               after[id] == if id in ids then rows[id].(Latest := false, Published := false) else rows[id]
    ensures after == Deactivated(rows, ActiveIds(rows, contentItemId))
  {
    var removed := Deactivated(rows, ActiveIds(rows, contentItemId));
    assert forall id :: id in after <==> id in removed;
    forall id | id in after
      ensures after[id] == removed[id]
    {
    }
  }

  /** Removing an item deletes no row, leaves none of its rows latest or
      published, changes nothing else, and keeps the flags unique. */
  lemma RemoveDeactivatesItem(rows: map<int, Row>, contentItemId: int)
    ensures Deactivated(rows, ActiveIds(rows, contentItemId)).Keys == rows.Keys
    ensures forall id :: id in rows && rows[id].ContentItemId == contentItemId ==>
              var r := Deactivated(rows, ActiveIds(rows, contentItemId))[id];
              !r.Latest && !r.Published && r.Number == rows[id].Number && r.ContentItemId == contentItemId
    ensures forall id :: id in rows && !Matches(ActiveQuery(contentItemId), rows[id]) ==>
              Deactivated(rows, ActiveIds(rows, contentItemId))[id] == rows[id]
    ensures UniqueFlags(rows) ==> UniqueFlags(Deactivated(rows, ActiveIds(rows, contentItemId)))
  {
    var after := Deactivated(rows, ActiveIds(rows, contentItemId));
    if UniqueFlags(rows) {
      forall a, b | a in after && b in after && after[a].Latest && after[b].Latest &&
                    after[a].ContentItemId == after[b].ContentItemId
        ensures a == b
      {
        assert rows[a].Latest && rows[b].Latest;
      }
      forall a, b | a in after && b in after && after[a].Published && after[b].Published &&
                    after[a].ContentItemId == after[b].ContentItemId
        ensures a == b
      {
        assert rows[a].Published && rows[b].Published;
      }
    }
  }

  /** The lifecycle phases handlers run in, in pairs around each change. */
  datatype Phase =
    | Activating | Activated | Initializing | Initialized
    | Loading | Loaded | Creating | Created
    | Publishing | PublishedPhase | Unpublishing | Unpublished
    | Versioning | Versioned | Removing | Removed

  /** A content handler, reduced to what the manager reacts to: its
      `Publishing` sees an item, its previous published row and the `Cancel`
      flag of the context all handlers share, and leaves that flag set or
      cleared. */
  datatype ContentHandler = ContentHandler(Publishing: (Row, Option<Row>, bool) -> bool)

  /** The shared `Cancel` flag after the handlers ran in order from `flag`,
      each one seeing what the ones before it left. */
  function RunPublishing(handlers: seq<ContentHandler>, item: Row, previous: Option<Row>, flag: bool): bool
  {
    if handlers == [] then flag
    else RunPublishing(handlers[1..], item, previous, handlers[0].Publishing(item, previous, flag))
  }

  /** The context's `Cancel` flag as line 229 reads it: unset when the
      context is made, then passed through every handler once. */
  function Cancelled(handlers: seq<ContentHandler>, item: Row, previous: Option<Row>): bool
  {
    RunPublishing(handlers, item, previous, false)
  }

  /** Running the handlers in two batches is running them all in order. */
  lemma {:induction false} RunPublishingAppend(hs: seq<ContentHandler>, more: seq<ContentHandler>, item: Row, previous: Option<Row>, flag: bool)
    ensures RunPublishing(hs + more, item, previous, flag) ==
            RunPublishing(more, item, previous, RunPublishing(hs, item, previous, flag))
  {
    if hs == [] {
      assert hs + more == more;
    } else {
      assert (hs + more)[0] == hs[0] && (hs + more)[1..] == hs[1..] + more;
      RunPublishingAppend(hs[1..], more, item, previous, hs[0].Publishing(item, previous, flag));
    }
  }

  /** The last handler to run decides: whatever the earlier ones left, the
      flag read at line 229 is what the last one sets, so a later handler
      can clear a `Cancel` an earlier one set. */
  lemma CancelledByLast(handlers: seq<ContentHandler>, last: ContentHandler, item: Row, previous: Option<Row>)
    ensures Cancelled(handlers + [last], item, previous) ==
            last.Publishing(item, previous, Cancelled(handlers, item, previous))
  {
    RunPublishingAppend(handlers, [last], item, previous, false);
  }

  /** When no handler clears a set flag, publishing is cancelled exactly
      when some handler sets the flag on its own. */
  lemma {:induction false} CancelledBySetters(handlers: seq<ContentHandler>, item: Row, previous: Option<Row>, flag: bool)
    requires forall k :: 0 <= k < |handlers| ==> handlers[k].Publishing(item, previous, true)
    ensures RunPublishing(handlers, item, previous, flag) <==>
            flag || exists k :: 0 <= k < |handlers| && handlers[k].Publishing(item, previous, false)
  {
    if handlers != [] {
      var next := handlers[0].Publishing(item, previous, flag);
      CancelledBySetters(handlers[1..], item, previous, next);
      assert forall k :: 1 <= k < |handlers| ==> handlers[k] == handlers[1..][k - 1];
      assert forall k :: 0 <= k < |handlers| - 1 ==> handlers[1..][k] == handlers[k + 1];
    }
  }

}

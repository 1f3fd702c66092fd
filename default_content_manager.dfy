/** `DefaultContentManager` (DefaultContentManager.cs): creates, looks up,
    versions, publishes, unpublishes and removes content items over a
    document session, keeping a per-request cache of the items it loaded and
    running the content handlers' phases around each change. */
module ContentManagers {
  import opened Common
  import opened ContentVersions
  import opened ContentManagement

  class DefaultContentManager {
    const session: DocumentSession
    /** `_contentManagerSession`. */
    const cache: DefaultContentManagerSession
    const idGenerator: LinearBlockIdGenerator
    const Handlers: seq<ContentHandler>
    /** The handler phases run so far, in order. */
    var phases: seq<Phase>

    /** The session is well formed and every cached item is the session's
        instance of its row. */
    ghost predicate Valid()
      reads session, session.Repr, cache
    {
      session.Valid() && cache.Within(session.loaded)
    }

    /** Every change made so far will reach storage, and each content item
        has at most one latest and one published row as the session sees
        them. */
    ghost predicate Consistent()
      reads session
    {
      session.Synced() && UniqueFlags(session.View())
    }

    constructor (session: DocumentSession, handlers: seq<ContentHandler>, idGenerator: LinearBlockIdGenerator)
      requires session.Valid()
      ensures this.session == session && Handlers == handlers && this.idGenerator == idGenerator
      ensures fresh(cache) && phases == []
      ensures Valid()
    {
      this.session := session;
      Handlers := handlers;
      this.idGenerator := idGenerator;
      cache := new DefaultContentManagerSession();
      phases := [];
    }

    /** `New`: an unsaved item of the content type with the next content
        item id; the activation and initialization phases run around it. */
    method New(contentType: string) returns (item: ContentItem)
      modifies idGenerator, `phases
      ensures fresh(item) && item.Id == 0 && item.ContentType == contentType
      ensures item.ContentItemId == old(idGenerator.next) && idGenerator.next == old(idGenerator.next) + 1
      ensures item.Number == 0 && !item.Latest && !item.Published
      ensures phases == old(phases) + [Activating, Activated, Initializing, Initialized]
    {
      phases := phases + [Activating];
      item := new ContentItem(contentType);
      item.ContentItemId := idGenerator.GetNextId();
      phases := phases + [Activated, Initializing, Initialized];
    }

    /** `QueryAsync<ContentItem, ContentItemIndex>(...).FirstOrDefault()`
        as the manager relies on it: when every change will reach storage,
        the item found matches the query as the session sees the rows, and
        null means no row matches. */
    method FirstOrDefault(q: RowQuery) returns (item: ContentItem?)
      requires Valid()
      modifies session`db, session`enlisted, session`loaded, session`tracked, session`Repr
      ensures Valid() && session.enlisted == {} && session.View() == old(session.View())
      ensures old(session.Synced()) ==> session.Synced() && (item == null <==> NoMatch(old(session.View()), q))
      ensures item != null ==> item.Id in session.loaded && session.loaded[item.Id] == item
      ensures item != null && old(session.Synced()) ==> Matches(q, session.View()[item.Id])
      ensures item == null ==> session.loaded == old(session.loaded)
      ensures item != null ==> session.loaded == old(session.loaded)[item.Id := item] &&
                               (item.Id in old(session.loaded) ==> item == old(session.loaded)[item.Id]) &&
                               (item.Id !in old(session.loaded) ==> fresh(item))
      ensures item != null ==> item in old(session.Repr) || fresh(item)
      ensures forall o :: o in session.Repr ==> o in old(session.Repr) || fresh(o)
      ensures session.Extends(old(session.loaded))
    {
      if session.Synced() {
        SyncedCommitted(session.db, session.enlisted, session.tracked);
      }
      ghost var before := session.loaded;
      item := session.Query(q);
      if item != null && item.Id in old(session.loaded) {
        ghost var id := item.Id;
        assert old(session.loaded[id] in session.Repr);
      }
      cache.WithinGrows(before, session.loaded);
    }

    /** The first half of `GetAsync`: the cache when the mode consults it,
        otherwise storage. `recalled` when the cache answered. */
    method Lookup(contentItemId: int, mode: Mode) returns (item: ContentItem?, recalled: bool)
      requires Valid()
      modifies session`db, session`enlisted, session`loaded, session`tracked, session`Repr
      ensures Valid() && session.View() == old(session.View()) && (old(session.Synced()) ==> session.Synced())
      ensures forall o :: o in session.Repr ==> o in old(session.Repr) || fresh(o)
      ensures session.Extends(old(session.loaded))
      ensures recalled <==> (mode.ByVersionRecord? || mode.ByNumber? || mode.PublishedMode?) &&
                            old(cache.Cached(contentItemId, mode)).Some?
      ensures recalled ==> item == old(cache.Cached(contentItemId, mode)).value && unchanged(session)
      ensures mode.NoMode? ==> item == null && unchanged(session)
      ensures !recalled && mode.ByVersionRecord? ==> (item == null <==> mode.id !in old(session.View()))
      ensures !recalled && !mode.ByVersionRecord? && !mode.NoMode? ==>
                session.enlisted == {} &&
                (old(session.Synced()) ==> (item == null <==> NoMatch(old(session.View()), QueryOf(contentItemId, mode))))
      ensures item != null ==> item.Id in session.loaded && session.loaded[item.Id] == item
      ensures !recalled && item != null && !mode.ByVersionRecord? && old(session.Synced()) ==>
                Matches(QueryOf(contentItemId, mode), session.View()[item.Id])
    {
      recalled := false;
      match mode
      case ByVersionRecord(id) =>
        recalled, item := cache.RecallVersionId(id);
        if recalled {
          ghost var row := cache.CachedLoaded(session.loaded, contentItemId, mode);
        }
        if !recalled {
          ghost var before := session.loaded;
          item := session.Get(id);
          cache.WithinGrows(before, session.loaded);
        }
      case ByNumber(number) =>
        recalled, item := cache.RecallContentItemId(contentItemId, number);
        if recalled {
          ghost var row := cache.CachedLoaded(session.loaded, contentItemId, mode);
        }
        if !recalled {
          item := FirstOrDefault(QueryOf(contentItemId, mode));
        }
      case PublishedMode =>
        recalled, item := cache.RecallPublishedItemId(contentItemId);
        if recalled {
          ghost var row := cache.CachedLoaded(session.loaded, contentItemId, mode);
        }
        if !recalled {
          item := FirstOrDefault(QueryOf(contentItemId, mode));
        }
      case NoMode =>
        item := null;
      case _ =>
        item := FirstOrDefault(QueryOf(contentItemId, mode));
    }
    /** Lines 169-189 of `GetAsync`: an item already cached by row id is
        returned as the cached instance, which is the same one, without the
        load phases; otherwise the item is stored in the cache before the
        `Loading` and `Loaded` phases run. */
    method LoadOrRecall(contentItem: ContentItem) returns (item: ContentItem)
      requires Valid() && contentItem.Id in session.loaded && session.loaded[contentItem.Id] == contentItem
      modifies cache, `phases
      ensures Valid() && item == contentItem
      ensures contentItem.Id in cache.itemByVersionId && cache.itemByVersionId[contentItem.Id] == contentItem
      ensures phases == old(phases) + if contentItem.Id in old(cache.itemByVersionId) then [] else [Loading, Loaded]
      ensures contentItem.Id in old(cache.itemByVersionId) ==> unchanged(cache)
    {
      var found, recalled := cache.RecallVersionId(contentItem.Id);
      if !found {
        cache.Store(contentItem, session.loaded);
        phases := phases + [Loading, Loaded];
        item := contentItem;
      } else {
        item := recalled;
      }
    }
    /** Lines 290-301 of `BuildNewVersionAsync`: the existing item when it
        is the latest version, otherwise the latest version in storage. */
    method FindLatest(existing: ContentItem) returns (latest: ContentItem?)
      requires Valid() && existing.Id in session.loaded && session.loaded[existing.Id] == existing
      modifies session`db, session`enlisted, session`loaded, session`tracked, session`Repr
      ensures Valid() && session.View() == old(session.View()) && (old(session.Synced()) ==> session.Synced())
      ensures existing.Id in session.loaded && session.loaded[existing.Id] == existing
      ensures existing.Latest ==> latest == existing && unchanged(session)
      ensures latest != null ==> latest.Id in session.loaded && session.loaded[latest.Id] == latest
      ensures latest != null ==> latest in old(session.Repr) || fresh(latest)
      ensures forall o :: o in session.Repr ==> o in old(session.Repr) || fresh(o)
      ensures latest != null ==> latest.Id in session.View() && RowOf(latest) == session.View()[latest.Id]
      ensures old(Consistent()) ==>
                LatestRowOf(old(session.View()), existing.ContentItemId, if latest == null then None else Some(latest.Id))
    {
      if existing.Latest {
        latest := existing;
        session.Sees(existing.Id);
      } else {
        latest := FirstOrDefault(LatestQuery(existing.ContentItemId));
      }
      if latest != null {
        session.Sees(latest.Id);
      }
    }

    /** Lines 286 and 303-314 of `BuildNewVersionAsync`: a new item made
        the latest version of a content item, with a version number. */
    method NewVersion(contentType: string, contentItemId: int, number: int) returns (building: ContentItem)
      modifies idGenerator, `phases
      ensures fresh(building) && building.Id == 0 && building.ContentType == contentType
      ensures building.ContentItemId == contentItemId && building.Number == number && building.Latest && !building.Published
      ensures idGenerator.next == old(idGenerator.next) + 1
      ensures phases == old(phases) + [Activating, Activated, Initializing, Initialized]
    {
      building := New(contentType);
      building.Number := number;
      building.ContentItemId := contentItemId;
      building.Latest := true;
    }

    /** Lines 290-307 of `BuildNewVersionAsync`: the latest version found
        stops being latest. */
    method DemoteLatest(existing: ContentItem) returns (latest: ContentItem?, ghost latestId: Option<int>)
      requires Valid() && existing.Id in session.loaded && session.loaded[existing.Id] == existing
      modifies session`db, session`enlisted, session`loaded, session`tracked, session`Repr, session.Repr`Latest
      ensures Valid() && existing.Id in session.loaded && session.loaded[existing.Id] == existing
      ensures forall o :: o in session.Repr ==> o in old(session.Repr) || fresh(o)
      ensures latestId == if latest == null then None else Some(latest.Id)
      ensures latest != null ==> latest.Id in old(session.View()) && latest.Number == old(session.View())[latest.Id].Number
      ensures session.View() == WithoutLatest(old(session.View()), latestId)
      ensures old(existing.Latest) ==> latest == existing && session.enlisted == old(session.enlisted)
      ensures old(Consistent()) ==> LatestRowOf(old(session.View()), existing.ContentItemId, latestId) && UniqueFlags(session.View())
      ensures old(session.Synced()) && old(existing.Latest) && existing.Id in old(session.enlisted) ==> session.Synced()
    {
      latest := FindLatest(existing);
      if latest != null {
        assert RowOf(latest).Number == old(session.View())[latest.Id].Number;
        latestId := Some(latest.Id);
        session.SetLatest(latest, false);
        if old(Consistent()) {
          WithoutLatestKeepsFlagsUnique(old(session.View()), latestId);
        }
      } else {
        latestId := None;
      }
    }

    /** `BuildNewVersionAsync`: a new, unsaved item for the next version of
        the existing item's content item. The latest version (if any) stops
        being latest and the new item gets its number plus one (or 1), the
        same content item id and the latest flag. Its one caller passes an
        item it has just saved. */
    method BuildNewVersionAsync(existing: ContentItem) returns (building: ContentItem, ghost latestId: Option<int>)
      requires Valid() && existing.Id in session.loaded && session.loaded[existing.Id] == existing
      modifies idGenerator, `phases, session`db, session`enlisted, session`loaded, session`tracked, session`Repr, session.Repr`Latest
      ensures Valid() && existing.Id in session.loaded && session.loaded[existing.Id] == existing
      ensures fresh(building) && building.Id == 0 && building.ContentType == existing.ContentType
      ensures building.ContentItemId == old(existing.ContentItemId) && building.Latest && !building.Published
      ensures latestId.Some? ==> latestId.value in old(session.View()) &&
                                 building.Number == old(session.View())[latestId.value].Number + 1
      ensures latestId.None? ==> building.Number == 1
      ensures session.View() == WithoutLatest(old(session.View()), latestId)
      ensures old(existing.Latest) ==> latestId == Some(existing.Id) && session.enlisted == old(session.enlisted)
      ensures old(Consistent()) ==> LatestRowOf(old(session.View()), building.ContentItemId, latestId) && UniqueFlags(session.View())
      ensures old(session.Synced()) && old(existing.Latest) && existing.Id in old(session.enlisted) ==> session.Synced()
      ensures phases == old(phases) + [Activating, Activated, Initializing, Initialized] + [Versioning, Versioned]
    {
      // The source calls `New` before the query; neither reads what the other changes.
      var latest;
      latest, latestId := DemoteLatest(existing);
      building := NewVersion(existing.ContentType, existing.ContentItemId, if latest == null then 1 else latest.Number + 1);
      phases := phases + [Versioning, Versioned];
    }

    /** `_session.Save` of an unsaved item, which the cache may then hold. */
    method SaveNewItem(item: ContentItem)
      requires Valid() && item.Id == 0
      modifies session`enlisted, session`loaded, session`tracked, session`Repr, session`nextRowId, item`Id
      ensures Valid() && item.Id in session.loaded && session.loaded[item.Id] == item && item.Id !in old(session.View())
      ensures item.Id == old(session.nextRowId) && item.Id in session.enlisted
      ensures RowOf(item) == old(RowOf(item)) && session.View() == old(session.View())[item.Id := RowOf(item)]
      ensures old(session.Synced()) ==> session.Synced()
    {
      cache.WithinAdd(session.loaded, session.nextRowId, item);
      session.SaveNew(item);
    }

    /** Lines 199-203 of `GetAsync`: the new version built for a saved
        item, saved under a new row id. */
    method SaveNewVersion(existing: ContentItem) returns (result: ContentItem, ghost latestId: Option<int>)
      requires Valid() && existing.Id in session.loaded && session.loaded[existing.Id] == existing
      modifies idGenerator, `phases, session`db, session`enlisted, session`loaded, session`tracked, session`Repr, session`nextRowId
      modifies session.Repr`Latest
      ensures Valid() && result.Id in session.loaded && session.loaded[result.Id] == result
      ensures fresh(result) && result.Id !in old(session.View()) && result.ContentType == existing.ContentType
      ensures result.ContentItemId == old(existing.ContentItemId) && result.Latest && !result.Published
      ensures latestId.Some? ==> latestId.value in old(session.View())
      ensures result.Number == if latestId.Some? then old(session.View())[latestId.value].Number + 1 else 1
      ensures old(Consistent()) ==> LatestRowOf(old(session.View()), result.ContentItemId, latestId)
      ensures session.View() == AfterNewVersion(old(session.View()), latestId, result.Id, RowOf(result))
      ensures phases == old(phases) + [Activating, Activated, Initializing, Initialized] + [Versioning, Versioned]
      ensures old(existing.Latest) ==> latestId == Some(existing.Id)
      ensures old(Consistent()) && old(existing.Latest) && existing.Id in old(session.enlisted) ==> Consistent()
    {
      ghost var rows := session.View();
      result, latestId := BuildNewVersionAsync(existing);
      ghost var number := result.Number;
      SaveNewItem(result);
      assert result.Number == number;
      if old(Consistent()) && old(existing.Latest) {
        NewVersionKeepsFlagsUnique(rows, latestId, result.Id, RowOf(result));
      }
    }

    /** Lines 195-203 of `GetAsync`: a published item is saved and replaced
        by a new version of it, which is saved too. The new version's number
        is one more than the item's latest row's (or 1). */
    method NewDraft(contentItem: ContentItem) returns (result: ContentItem, ghost latestId: Option<int>)
      requires Valid() && contentItem.Id in session.loaded && session.loaded[contentItem.Id] == contentItem
      modifies idGenerator, `phases, session`db, session`enlisted, session`loaded, session`tracked, session`Repr, session`nextRowId
      modifies session.Repr`Latest
      ensures Valid() && result.Id in session.loaded && session.loaded[result.Id] == result
      ensures fresh(result) && result.Id !in old(session.View()) && result.ContentType == contentItem.ContentType
      ensures result.ContentItemId == old(contentItem.ContentItemId) && result.Latest && !result.Published
      ensures latestId.Some? ==> latestId.value in old(session.View())
      ensures result.Number == if latestId.Some? then old(session.View())[latestId.value].Number + 1 else 1
      ensures old(Consistent()) ==> LatestRowOf(old(session.View()), result.ContentItemId, latestId)
      ensures session.View() == AfterNewVersion(old(session.View()), latestId, result.Id, RowOf(result))
      ensures phases == old(phases) + [Activating, Activated, Initializing, Initialized] + [Versioning, Versioned]
      ensures old(contentItem.Latest) ==> latestId == Some(contentItem.Id)
      ensures old(Consistent()) && old(contentItem.Latest) ==> Consistent()
    {
      session.Save(contentItem);
      result, latestId := SaveNewVersion(contentItem);
    }

    /** Lines 191-204 of `GetAsync`, for draft-required options: a published
        item is replaced by a new version; an unpublished one is saved as it is. */
    method RequireDraft(contentItem: ContentItem) returns (result: ContentItem, ghost latestId: Option<int>)
      requires Valid() && contentItem.Id in session.loaded && session.loaded[contentItem.Id] == contentItem
      modifies idGenerator, `phases, session`db, session`enlisted, session`loaded, session`tracked, session`Repr, session`nextRowId
      modifies session.Repr`Latest
      ensures Valid() && result.Id in session.loaded && session.loaded[result.Id] == result
      ensures !old(contentItem.Published) ==>
                result == contentItem && session.View() == old(session.View()) && phases == old(phases) &&
                session.enlisted == old(session.enlisted) + {contentItem.Id}
      ensures old(contentItem.Published) ==>
                fresh(result) && result.Id !in old(session.View()) && result.ContentType == contentItem.ContentType &&
                result.ContentItemId == old(contentItem.ContentItemId) && result.Latest && !result.Published &&
                (latestId.Some? ==> latestId.value in old(session.View())) &&
                result.Number == (if latestId.Some? then old(session.View())[latestId.value].Number + 1 else 1) &&
                (old(Consistent()) ==> LatestRowOf(old(session.View()), result.ContentItemId, latestId)) &&
                session.View() == AfterNewVersion(old(session.View()), latestId, result.Id, RowOf(result)) &&
                phases == old(phases) + [Activating, Activated, Initializing, Initialized] + [Versioning, Versioned] &&
                (old(contentItem.Latest) ==> latestId == Some(contentItem.Id))
      ensures old(Consistent()) && old(contentItem.Latest) ==> Consistent()
    {
      if contentItem.Published {
        result, latestId := NewDraft(contentItem);
      } else {
        result, latestId := contentItem, None;
        session.Save(contentItem);
      }
    }

    /** `GetAsync(contentItemId, options)`: the version the options select,
        or null. An item the cache answers for is returned as it is. Any
        other item found is cached and loaded, and under draft-required
        options replaced by a draft. `thrown` when draft-required options
        find no item: the source then dereferences the null item. */
    method GetAsync(contentItemId: int, options: VersionOptions)
      returns (item: ContentItem?, thrown: bool, ghost recalled: bool, ghost fetched: Option<int>)
      requires Valid()
      modifies idGenerator, `phases, cache, session`db, session`enlisted, session`loaded, session`tracked, session`Repr
      modifies session`nextRowId, session.Repr`Latest
      ensures Valid() && (item != null ==> item.Id in session.loaded && session.loaded[item.Id] == item)
      ensures var mode := ModeOf(options);
              recalled <==> (mode.ByVersionRecord? || mode.ByNumber? || mode.PublishedMode?) &&
                            old(cache.Cached(contentItemId, mode)).Some?
      ensures recalled ==> item == old(cache.Cached(contentItemId, ModeOf(options))).value && unchanged(session) &&
                           !thrown && phases == old(phases)
      ensures thrown <==> !recalled && item == null && options.IsDraftRequired
      ensures !options.IsDraftRequired ==> session.View() == old(session.View()) && (old(session.Synced()) ==> session.Synced())
      ensures !options.IsDraftRequired ==> session.Extends(old(session.loaded))
      ensures !options.IsDraftRequired ==> forall o :: o in session.Repr ==> o in old(session.Repr) || fresh(o)
      ensures var mode := ModeOf(options);
              !recalled && !mode.ByVersionRecord? && !mode.NoMode? && !options.IsDraftRequired ==> session.enlisted == {}
      ensures !recalled && ModeOf(options).ByVersionRecord? ==> (item == null <==> options.VersionRecordId !in old(session.View()))
      ensures var mode := ModeOf(options);
              !recalled && !mode.ByVersionRecord? && !mode.NoMode? && old(session.Synced()) ==>
                (item == null <==> NoMatch(old(session.View()), QueryOf(contentItemId, mode)))
      ensures var mode := ModeOf(options);
              !recalled && !mode.ByVersionRecord? && !mode.NoMode? && old(session.Synced()) &&
              item != null && !options.IsDraftRequired ==>
                session.View() == old(session.View()) && Matches(QueryOf(contentItemId, mode), session.View()[item.Id])
      ensures ModeOf(options) == DraftRequiredMode && old(Consistent()) && item != null ==>
                Consistent() && item.Id in session.View() &&
                session.View()[item.Id].ContentItemId == contentItemId &&
                session.View()[item.Id].Latest && !session.View()[item.Id].Published
      ensures fetched.Some? ==> !recalled && fetched.value in old(session.View()) && fetched.value in cache.itemByVersionId
      ensures !recalled && item != null ==> fetched.Some?
      ensures ModeOf(options) == DraftRequiredMode && old(Consistent()) && item != null ==>
                fetched.Some? && LatestRowOf(old(session.View()), contentItemId, fetched) &&
                var row := old(session.View())[fetched.value];
                var loads := if fetched.value in old(cache.itemByVersionId) then [] else [Loading, Loaded];
                (!row.Published ==>
                   item.Id == fetched.value && session.View() == old(session.View()) && phases == old(phases) + loads) &&
                (row.Published ==>
                   fresh(item) && item.Number == row.Number + 1 &&
                   session.View() == AfterNewVersion(old(session.View()), fetched, item.Id, RowOf(item)) &&
                   phases == old(phases) + loads + [Activating, Activated, Initializing, Initialized] + [Versioning, Versioned])
    {
      var mode := ModeOf(options);
      var cached;
      fetched := None;
      item, cached := Lookup(contentItemId, mode);
      recalled, thrown := cached, false;
      if cached {
        return;
      }
      if item == null {
        thrown := options.IsDraftRequired;
        return;
      }
      fetched := Some(item.Id);
      item := LoadOrRecall(item);
      if options.IsDraftRequired {
        session.Sees(item.Id);
        ghost var latestId;
        item, latestId := RequireDraft(item);
      }
    }

    /** `GetAsync(contentItemId)`: the published version, or null. */
    method GetPublishedAsync(contentItemId: int) returns (item: ContentItem?, ghost recalled: bool)
      requires Valid()
      modifies idGenerator, `phases, cache, session`db, session`enlisted, session`loaded, session`tracked, session`Repr
      modifies session`nextRowId, session.Repr`Latest
      ensures Valid() && (item != null ==> item.Id in session.loaded && session.loaded[item.Id] == item)
      ensures recalled <==> old(cache.Cached(contentItemId, PublishedMode)).Some?
      ensures recalled ==> item == old(cache.Cached(contentItemId, PublishedMode)).value && unchanged(session)
      ensures session.View() == old(session.View()) && session.Extends(old(session.loaded))
      ensures !recalled ==> session.enlisted == {}
      ensures forall o :: o in session.Repr ==> o in old(session.Repr) || fresh(o)
      ensures !recalled && old(session.Synced()) ==>
                session.Synced() && session.View() == old(session.View()) &&
                (item == null <==> NoMatch(old(session.View()), PublishedQuery(contentItemId))) &&
                (item != null ==> session.View()[item.Id].ContentItemId == contentItemId && session.View()[item.Id].Published)
    {
      NamedOptionsModes(0, 0);
      var thrown;
      ghost var fetched;
      item, thrown, recalled, fetched := GetAsync(contentItemId, PublishedOptions);
    }

    /** Lines 233-237 of `PublishAsync`: the previous published version is
        saved and loses its flag. `UnpublishAsync` does the same to the
        version it unpublishes, clearing the flag before the save, which
        ends in the same state. */
    method Unflag(previous: ContentItem)
      requires Valid() && previous.Id in session.loaded && session.loaded[previous.Id] == previous
      modifies session`enlisted, session`tracked, previous`Published
      ensures Valid() && session.loaded == old(session.loaded) && session.Repr == old(session.Repr)
      ensures session.nextRowId == old(session.nextRowId) && previous.Id in old(session.View())
      ensures session.View() == old(session.View())[previous.Id := old(session.View())[previous.Id].(Published := false)]
      ensures old(session.Synced()) ==> session.Synced()
    {
      session.Sees(previous.Id);
      ghost var row := RowOf(previous);
      session.Save(previous);
      session.SetPublished(previous, false);
      assert RowOf(previous) == row.(Published := false);
    }

    /** Lines 239-241 of `PublishAsync` for a loaded item: it gains the
        published flag and is saved. */
    method FlagLoaded(contentItem: ContentItem)
      requires Valid() && contentItem.Id in session.loaded && session.loaded[contentItem.Id] == contentItem
      modifies session`enlisted, session`tracked, contentItem`Published
      ensures Valid() && session.loaded == old(session.loaded) && contentItem.Published
      ensures session.View() == old(session.View())[contentItem.Id := old(RowOf(contentItem)).(Published := true)]
      ensures old(session.Synced()) ==> session.Synced()
    {
      ghost var row := RowOf(contentItem);
      session.SetPublished(contentItem, true);
      assert RowOf(contentItem) == row.(Published := true);
      session.Save(contentItem);
    }

    /** Lines 239-241 of `PublishAsync` for an unsaved item: it gains the
        published flag and is saved under the next row id. */
    method FlagNew(contentItem: ContentItem)
      requires Valid() && contentItem.Id == 0
      modifies session`enlisted, session`loaded, session`tracked, session`Repr, session`nextRowId
      modifies contentItem`Published, contentItem`Id
      ensures Valid() && contentItem.Id in session.loaded && session.loaded[contentItem.Id] == contentItem
      ensures contentItem.Published && contentItem.Id == old(session.nextRowId) && contentItem.Id !in old(session.View())
      ensures session.View() == old(session.View())[contentItem.Id := old(RowOf(contentItem)).(Published := true)]
      ensures old(session.Synced()) ==> session.Synced()
    {
      ghost var row := RowOf(contentItem);
      cache.WithinAdd(session.loaded, session.nextRowId, contentItem);
      session.SetPublished(contentItem, true);
      assert RowOf(contentItem) == row.(Published := true);
      session.SaveNew(contentItem);
    }

    /** Lines 233-242 of `PublishAsync`: the previous published version (if
        any) is saved and loses its flag, then the item gains it and is saved. */
    method Promote(contentItem: ContentItem, previous: ContentItem?)
      requires Valid() && session.Attached(contentItem)
      requires previous != null ==> previous.Id in session.loaded && session.loaded[previous.Id] == previous
      modifies session`enlisted, session`loaded, session`tracked, session`Repr, session`nextRowId
      modifies session.Repr`Published, contentItem`Published, contentItem`Id
      ensures Valid() && contentItem.Id in session.loaded && session.loaded[contentItem.Id] == contentItem
      ensures contentItem.Published && (old(contentItem.Id) != 0 ==> contentItem.Id == old(contentItem.Id))
      ensures old(contentItem.Id) == 0 ==> contentItem.Id == old(session.nextRowId) && contentItem.Id !in old(session.View())
      ensures previous != null ==> previous.Id in old(session.View())
      ensures session.View() == AfterPublish(old(session.View()), if previous == null then None else Some(previous.Id),
                                             contentItem.Id, old(RowOf(contentItem)))
      ensures old(session.Synced()) ==> session.Synced()
      ensures old(Consistent()) && old(contentItem.Id) != 0 &&
              PublishedRowOf(old(session.View()), contentItem.ContentItemId, if previous == null then None else Some(previous.Id)) ==>
                Consistent()
    {
      ghost var rows, row := session.View(), RowOf(contentItem);
      ghost var previousId := if previous == null then None else Some(previous.Id);
      if previous != null {
        session.Sees(previous.Id);
        Unflag(previous);
      }
      if contentItem.Id == 0 {
        FlagNew(contentItem);
      } else {
        FlagLoaded(contentItem);
      }
      if old(Consistent()) && old(contentItem.Id) != 0 && PublishedRowOf(rows, contentItem.ContentItemId, previousId) {
        session.Sees(contentItem.Id);
        PublishKeepsFlagsUnique(rows, previousId, contentItem.Id, row);
      }
    }

    /** Lines 218-221 of `PublishAsync`: the published version of the
        item's content item, which the query loads. */
    method FindPublished(contentItem: ContentItem) returns (previous: ContentItem?, ghost previousId: Option<int>)
      requires Valid() && session.Attached(contentItem)
      modifies session`db, session`enlisted, session`loaded, session`tracked, session`Repr
      ensures Valid() && session.Attached(contentItem) && session.View() == old(session.View())
      ensures previousId == if previous == null then None else Some(previous.Id)
      ensures previous != null ==> previous.Id in session.loaded && session.loaded[previous.Id] == previous &&
                                   previous in session.Repr && RowOf(previous) == session.View()[previous.Id]
      ensures forall o :: o in session.Repr ==> o in old(session.Repr) || fresh(o)
      ensures old(session.Synced()) ==>
                session.Synced() && PublishedRowOf(old(session.View()), contentItem.ContentItemId, previousId)
    {
      previous := FirstOrDefault(PublishedQuery(contentItem.ContentItemId));
      previousId := if previous == null then None else Some(previous.Id);
      if previous != null {
        session.Sees(previous.Id);
      }
    }

    /** `PublishAsync`: an unpublished item becomes the published version of
        its content item, unless a handler cancels. The published version
        found by the query (if any) loses its flag; both are saved. The
        `Publishing` phase sees the item and that previous version. */
    method PublishAsync(contentItem: ContentItem) returns (ghost previousId: Option<int>, ghost cancelled: bool)
      requires Valid() && session.Attached(contentItem)
      modifies `phases, session`db, session`enlisted, session`loaded, session`tracked, session`Repr, session`nextRowId
      modifies session.Repr`Published, contentItem`Published, contentItem`Id
      ensures Valid() && session.Attached(contentItem)
      ensures old(contentItem.Published) ==> unchanged(session) && unchanged(contentItem) && phases == old(phases)
      ensures !old(contentItem.Published) ==>
                phases == old(phases) + [Publishing] + (if cancelled then [] else [PublishedPhase])
      ensures !old(contentItem.Published) && old(session.Synced()) ==>
                session.Synced() && PublishedRowOf(old(session.View()), contentItem.ContentItemId, previousId) &&
                cancelled == Cancelled(Handlers, old(RowOf(contentItem)),
                                       if previousId.None? then None else Some(old(session.View())[previousId.value]))
      ensures !old(contentItem.Published) && cancelled ==>
                session.View() == old(session.View()) && RowOf(contentItem) == old(RowOf(contentItem))
      ensures !old(contentItem.Published) && !cancelled && old(session.Synced()) ==>
                contentItem.Published && contentItem.Id in session.View() &&
                session.View() == AfterPublish(old(session.View()), previousId, contentItem.Id, old(RowOf(contentItem)))
      ensures old(Consistent()) && old(contentItem.Id) != 0 ==> Consistent()
    {
      previousId, cancelled := None, false;
      if contentItem.Published {
        return;
      }
      ghost var row, consistent := RowOf(contentItem), Consistent() && contentItem.Id != 0;
      var previous;
      previous, previousId := FindPublished(contentItem);
      assert RowOf(contentItem) == row;
      if consistent {
        assert Consistent();
      }
      var cancel := Cancelled(Handlers, RowOf(contentItem), if previous == null then None else Some(RowOf(previous)));
      cancelled := cancel;
      phases := phases + [Publishing];
      if cancel {
        return;
      }
      Promote(contentItem, previous);
      phases := phases + [PublishedPhase];
    }

    /** Lines 249-263 of `UnpublishAsync`: the item itself when it is
        published, otherwise its published version as `GetAsync` finds it. */
    method PublishedVersion(contentItem: ContentItem) returns (publishedItem: ContentItem?, ghost recalled: bool)
      requires Valid() && contentItem.Id in session.loaded && session.loaded[contentItem.Id] == contentItem
      modifies idGenerator, `phases, cache, session`db, session`enlisted, session`loaded, session`tracked, session`Repr
      modifies session`nextRowId, session.Repr`Latest
      ensures Valid() && contentItem.Id in session.loaded && session.loaded[contentItem.Id] == contentItem
      ensures publishedItem != null ==> publishedItem.Id in session.loaded && session.loaded[publishedItem.Id] == publishedItem
      ensures forall o :: o in session.Repr ==> o in old(session.Repr) || fresh(o)
      ensures session.View() == old(session.View()) && (old(session.Synced()) ==> session.Synced())
      ensures old(contentItem.Published) ==> publishedItem == contentItem && unchanged(session) && phases == old(phases) && !recalled
      ensures !old(contentItem.Published) ==> (recalled <==> old(cache.Cached(contentItem.ContentItemId, PublishedMode)).Some?)
      ensures !old(contentItem.Published) && !recalled ==> session.enlisted == {}
      ensures !old(contentItem.Published) && !recalled && old(session.Synced()) ==>
                (publishedItem == null <==> NoMatch(old(session.View()), PublishedQuery(contentItem.ContentItemId))) &&
                (publishedItem != null ==> Matches(PublishedQuery(contentItem.ContentItemId), session.View()[publishedItem.Id]))
    {
      if contentItem.Published {
        publishedItem, recalled := contentItem, false;
      } else {
        ghost var id := contentItem.Id;
        publishedItem, recalled := GetPublishedAsync(contentItem.ContentItemId);
        assert id in old(session.loaded) && session.loaded[id] == old(session.loaded)[id];
      }
    }

    /** Lines 268-281 of `UnpublishAsync` with line 279 corrected to save
        `publishedItem`, the version unpublished, rather than the item
        passed in (see `ClearPublishedAsWritten` for the code as written):
        the version loses its flag and is saved, between the `Unpublishing`
        and `Unpublished` phases. */
    method ClearPublished(publishedItem: ContentItem)
      requires Valid() && publishedItem.Id in session.loaded && session.loaded[publishedItem.Id] == publishedItem
      modifies `phases, session`enlisted, session`tracked, publishedItem`Published
      ensures Valid() && session.loaded == old(session.loaded) && !publishedItem.Published
      ensures publishedItem.Id in old(session.View()) &&
              session.View() == old(session.View())[publishedItem.Id := old(session.View())[publishedItem.Id].(Published := false)]
      ensures old(session.Synced()) ==> session.Synced()
      ensures old(Consistent()) ==> Consistent()
      ensures phases == old(phases) + [Unpublishing, Unpublished]
    {
      phases := phases + [Unpublishing];
      session.Sees(publishedItem.Id);
      ghost var rows := session.View();
      Unflag(publishedItem);
      if old(Consistent()) {
        ClearingKeepsFlagsUnique(rows, publishedItem.Id, rows[publishedItem.Id].(Published := false));
      }
      phases := phases + [Unpublished];
    }

    /** Lines 275-279 of `UnpublishAsync` as written: the version loses its
        flag but the item passed in is the one saved. When the two differ
        and the version is not enlisted, storage keeps the version's row
        as it was. */
    method UnflagSavingOther(publishedItem: ContentItem, contentItem: ContentItem)
      requires Valid() && publishedItem.Id in session.loaded && session.loaded[publishedItem.Id] == publishedItem
      requires contentItem.Id in session.loaded && session.loaded[contentItem.Id] == contentItem
      modifies session`enlisted, session`tracked, publishedItem`Published
      ensures Valid() && session.loaded == old(session.loaded) && !publishedItem.Published
      ensures publishedItem.Id in old(session.View()) &&
              session.View() == old(session.View())[publishedItem.Id := old(session.View())[publishedItem.Id].(Published := false)]
      ensures session.enlisted == old(session.enlisted) + {contentItem.Id}
      ensures publishedItem == contentItem && old(session.Synced()) ==> session.Synced()
      ensures publishedItem != contentItem && publishedItem.Id !in old(session.enlisted) &&
              old(session.Synced()) && old(publishedItem.Published) ==>
                publishedItem.Id !in session.enlisted && publishedItem.Id in session.Committed() &&
                session.Committed()[publishedItem.Id] == old(session.View())[publishedItem.Id] &&
                session.Committed()[publishedItem.Id].Published && !session.Synced()
    {
      session.Sees(publishedItem.Id);
      session.Sees(contentItem.Id);
      ghost var row, synced := RowOf(publishedItem), session.Synced();
      session.SetPublished(publishedItem, false);
      assert RowOf(publishedItem) == row.(Published := false);
      session.Save(contentItem);
      if publishedItem != contentItem && publishedItem.Id !in old(session.enlisted) && synced && row.Published {
        session.Unwritten(publishedItem.Id);
      }
    }

    /** Lines 268-281 of `UnpublishAsync` as written: `UnflagSavingOther`
        between the `Unpublishing` and `Unpublished` phases. */
    method ClearPublishedAsWritten(publishedItem: ContentItem, contentItem: ContentItem)
      requires Valid() && publishedItem.Id in session.loaded && session.loaded[publishedItem.Id] == publishedItem
      requires contentItem.Id in session.loaded && session.loaded[contentItem.Id] == contentItem
      modifies `phases, session`enlisted, session`tracked, publishedItem`Published
      ensures Valid() && session.loaded == old(session.loaded) && !publishedItem.Published
      ensures publishedItem.Id in old(session.View()) &&
              session.View() == old(session.View())[publishedItem.Id := old(session.View())[publishedItem.Id].(Published := false)]
      ensures session.enlisted == old(session.enlisted) + {contentItem.Id}
      ensures publishedItem == contentItem && old(session.Synced()) ==> session.Synced()
      ensures publishedItem != contentItem && publishedItem.Id !in old(session.enlisted) &&
              old(session.Synced()) && old(publishedItem.Published) ==>
                publishedItem.Id !in session.enlisted && publishedItem.Id in session.Committed() &&
                session.Committed()[publishedItem.Id] == old(session.View())[publishedItem.Id] &&
                session.Committed()[publishedItem.Id].Published && !session.Synced()
      ensures phases == old(phases) + [Unpublishing, Unpublished]
    {
      phases := phases + [Unpublishing];
      UnflagSavingOther(publishedItem, contentItem);
      phases := phases + [Unpublished];
    }

    /** `UnpublishAsync` with line 279 saving the version it unpublishes:
        the published version (the item itself or the one found) loses its
        flag and is saved, between the `Unpublishing` and `Unpublished`
        phases; without one nothing changes. */
    method UnpublishAsync(contentItem: ContentItem) returns (ghost publishedItem: ContentItem?, ghost recalled: bool)
      requires Valid() && contentItem.Id in session.loaded && session.loaded[contentItem.Id] == contentItem
      modifies idGenerator, `phases, cache, session`db, session`enlisted, session`loaded, session`tracked, session`Repr
      modifies session`nextRowId, session.Repr`Latest, session.Repr`Published
      ensures Valid() && contentItem.Id in session.loaded && session.loaded[contentItem.Id] == contentItem
      ensures old(contentItem.Published) ==> publishedItem == contentItem && phases == old(phases) + [Unpublishing, Unpublished]
      ensures publishedItem == null ==> session.View() == old(session.View())
      ensures publishedItem != null ==>
                publishedItem.Id in old(session.View()) && !publishedItem.Published &&
                session.View() == old(session.View())[publishedItem.Id := old(session.View())[publishedItem.Id].(Published := false)] &&
                |phases| >= 2 && phases[|phases| - 2..] == [Unpublishing, Unpublished]
      ensures !old(contentItem.Published) && !recalled && old(session.Synced()) ==>
                (publishedItem == null <==> NoMatch(old(session.View()), PublishedQuery(old(contentItem.ContentItemId))))
      ensures old(session.Synced()) ==> session.Synced()
      ensures old(Consistent()) ==> Consistent()
    {
      var found;
      found, recalled := PublishedVersion(contentItem);
      publishedItem := found;
      if found == null {
        return;
      }
      session.Sees(found.Id);
      ClearPublished(found);
    }

    /** `UnpublishAsync` as written: line 279 saves the item passed in
        rather than the version it unpublished. When that version is
        another one, found by the query, the cleared flag never reaches
        storage: storage keeps it published while the session shows it
        unpublished. */
    method UnpublishAsyncAsWritten(contentItem: ContentItem) returns (ghost publishedItem: ContentItem?, ghost recalled: bool)
      requires Valid() && contentItem.Id in session.loaded && session.loaded[contentItem.Id] == contentItem
      modifies idGenerator, `phases, cache, session`db, session`enlisted, session`loaded, session`tracked, session`Repr
      modifies session`nextRowId, session.Repr`Latest, session.Repr`Published
      ensures Valid() && contentItem.Id in session.loaded && session.loaded[contentItem.Id] == contentItem
      ensures old(contentItem.Published) ==> publishedItem == contentItem && phases == old(phases) + [Unpublishing, Unpublished]
      ensures publishedItem == null ==> session.View() == old(session.View())
      ensures publishedItem != null ==>
                publishedItem.Id in old(session.View()) && !publishedItem.Published &&
                session.View() == old(session.View())[publishedItem.Id := old(session.View())[publishedItem.Id].(Published := false)] &&
                contentItem.Id in session.enlisted &&
                |phases| >= 2 && phases[|phases| - 2..] == [Unpublishing, Unpublished]
      ensures !old(contentItem.Published) && !recalled && old(session.Synced()) ==>
                (publishedItem == null <==> NoMatch(old(session.View()), PublishedQuery(old(contentItem.ContentItemId))))
      ensures old(contentItem.Published) && old(session.Synced()) ==> session.Synced()
      ensures !old(contentItem.Published) && publishedItem != null && !recalled && old(session.Synced()) ==>
                publishedItem != contentItem && publishedItem.Id !in session.enlisted && publishedItem.Id in session.Committed() &&
                session.Committed()[publishedItem.Id] == old(session.View())[publishedItem.Id] &&
                session.Committed()[publishedItem.Id].Published && !session.Synced()
    {
      var found;
      found, recalled := PublishedVersion(contentItem);
      publishedItem := found;
      if found == null {
        return;
      }
      session.Sees(found.Id);
      session.Sees(contentItem.Id);
      ClearPublishedAsWritten(found, contentItem);
    }

    /** Lines 336-341 of `Create`: an item without a version number
        becomes version 1, latest and published. */
    method FirstVersion(contentItem: ContentItem)
      requires Valid() && session.Attached(contentItem)
      modifies session`tracked, contentItem`Number, contentItem`Latest, contentItem`Published
      ensures Valid() && session.Attached(contentItem)
      ensures RowOf(contentItem) == old(RowOf(contentItem)).(Number := 1, Latest := true, Published := true)
      ensures contentItem.Id != 0 ==> session.View() == old(session.View())[contentItem.Id := RowOf(contentItem)]
      ensures contentItem.Id == 0 ==> session.View() == old(session.View()) && (old(session.Synced()) ==> session.Synced())
      ensures old(session.Synced() || session.SyncedBut(contentItem.Id)) ==> session.SyncedBut(contentItem.Id)
    {
      ghost var rows := session.View();
      session.SetNumber(contentItem, 1);
      ghost var numbered := RowOf(contentItem);
      session.SetLatest(contentItem, true);
      ghost var latest := RowOf(contentItem);
      if contentItem.Id != 0 {
        UpdateTwice(rows, contentItem.Id, numbered, latest);
      }
      session.SetPublished(contentItem, true);
      if contentItem.Id != 0 {
        UpdateTwice(rows, contentItem.Id, latest, RowOf(contentItem));
      }
    }

    /** Lines 336-353 of `Create`: the item's number and flags as
        `CreatedRow` gives them, assigned through the session. */
    method ApplyCreateOptions(contentItem: ContentItem, options: VersionOptions)
      requires Valid() && session.Attached(contentItem)
      modifies session`tracked, contentItem`Number, contentItem`Latest, contentItem`Published
      ensures Valid() && session.Attached(contentItem)
      ensures RowOf(contentItem) == CreatedRow(old(RowOf(contentItem)), options)
      ensures contentItem.Id != 0 ==> session.View() == old(session.View())[contentItem.Id := RowOf(contentItem)]
      ensures contentItem.Id == 0 ==> session.View() == old(session.View()) && (old(session.Synced()) ==> session.Synced())
      ensures old(session.Synced() || session.SyncedBut(contentItem.Id)) ==> session.SyncedBut(contentItem.Id)
    {
      ghost var rows := session.View();
      if contentItem.Number == 0 {
        FirstVersion(contentItem);
      } else if contentItem.Id != 0 {
        session.Sees(contentItem.Id);
        assert rows[contentItem.Id := RowOf(contentItem)] == rows;
      }
      ghost var first := RowOf(contentItem);
      ApplyVersionOptions(contentItem, options);
      if contentItem.Id != 0 {
        UpdateTwice(rows, contentItem.Id, first, RowOf(contentItem));
      }
    }

    /** Lines 343-353 of `Create`: an explicit version number replaces the
        item's number; a draft is not published. */
    method ApplyVersionOptions(contentItem: ContentItem, options: VersionOptions)
      requires Valid() && session.Attached(contentItem)
      modifies session`tracked, contentItem`Number, contentItem`Published
      ensures Valid() && session.Attached(contentItem)
      ensures var number := if options.VersionNumber != 0 then old(RowOf(contentItem)).(Number := options.VersionNumber)
                            else old(RowOf(contentItem));
              RowOf(contentItem) == if options.IsDraft then number.(Published := false) else number
      ensures contentItem.Id != 0 ==> session.View() == old(session.View())[contentItem.Id := RowOf(contentItem)]
      ensures contentItem.Id == 0 ==> session.View() == old(session.View()) && (old(session.Synced()) ==> session.Synced())
      ensures old(session.Synced() || session.SyncedBut(contentItem.Id)) ==> session.SyncedBut(contentItem.Id)
    {
      ghost var rows := session.View();
      if contentItem.Id != 0 {
        session.Sees(contentItem.Id);
        assert rows[contentItem.Id := RowOf(contentItem)] == rows;
      }
      if options.VersionNumber != 0 {
        session.SetNumber(contentItem, options.VersionNumber);
      }
      ghost var numbered := RowOf(contentItem);
      if options.IsDraft {
        session.SetPublished(contentItem, false);
        if contentItem.Id != 0 {
          UpdateTwice(rows, contentItem.Id, numbered, RowOf(contentItem));
        }
      }
    }

    /** Lines 374-375 of `Create`: the item is saved, then cached. */
    method SaveAndCache(contentItem: ContentItem)
      requires Valid() && session.Attached(contentItem)
      modifies cache, session`enlisted, session`loaded, session`tracked, session`Repr, session`nextRowId, contentItem`Id
      ensures Valid() && contentItem.Id in session.loaded && session.loaded[contentItem.Id] == contentItem
      ensures old(contentItem.Id) != 0 ==> contentItem.Id == old(contentItem.Id) && session.View() == old(session.View())
      ensures old(contentItem.Id) == 0 ==>
                contentItem.Id == old(session.nextRowId) && contentItem.Id !in old(session.View()) &&
                session.View() == old(session.View())[contentItem.Id := RowOf(contentItem)]
      ensures RowOf(contentItem) == old(RowOf(contentItem)) && contentItem.Id in session.enlisted
      ensures old(session.Synced()) || (old(contentItem.Id) != 0 && old(session.SyncedBut(contentItem.Id))) ==> session.Synced()
      ensures contentItem.Id in cache.itemByVersionId && cache.itemByVersionId[contentItem.Id] == contentItem
    {
      if contentItem.Id == 0 {
        SaveNewItem(contentItem);
      } else {
        session.Save(contentItem);
      }
      cache.Store(contentItem, session.loaded);
    }

    /** `Create(contentItem, options)`: the item takes its created number
        and flags, the creation phases run (and the publication phases for
        published options), and the item is saved and cached. */
    method CreateWithOptions(contentItem: ContentItem, options: VersionOptions)
      requires Valid() && session.Attached(contentItem)
      modifies `phases, cache, session`enlisted, session`loaded, session`tracked, session`Repr, session`nextRowId
      modifies contentItem`Number, contentItem`Latest, contentItem`Published, contentItem`Id
      ensures Valid() && contentItem.Id in session.loaded && session.loaded[contentItem.Id] == contentItem
      ensures old(contentItem.Id) != 0 ==> contentItem.Id == old(contentItem.Id)
      ensures old(contentItem.Id) == 0 ==> contentItem.Id == old(session.nextRowId) && contentItem.Id !in old(session.View())
      ensures RowOf(contentItem) == CreatedRow(old(RowOf(contentItem)), options)
      ensures session.View() == old(session.View())[contentItem.Id := RowOf(contentItem)]
      ensures contentItem.Id in session.enlisted && (old(session.Synced()) ==> session.Synced())
      ensures contentItem.Id in cache.itemByVersionId && cache.itemByVersionId[contentItem.Id] == contentItem
      ensures old(Consistent()) && old(contentItem.Id) == 0 &&
              (forall id :: id in old(session.View()) ==> old(session.View())[id].ContentItemId != contentItem.ContentItemId) ==>
                Consistent()
      ensures phases == old(phases) + [Creating, Created] + if options.IsPublished then [Publishing, PublishedPhase] else []
    {
      ghost var rows := session.View();
      ApplyCreateOptions(contentItem, options);
      phases := phases + [Creating, Created];
      if options.IsPublished {
        phases := phases + [Publishing, PublishedPhase];
      }
      SaveAndCache(contentItem);
      if old(Consistent()) && old(contentItem.Id) == 0 &&
         forall id :: id in rows ==> rows[id].ContentItemId != contentItem.ContentItemId {
        FreshItemKeepsFlagsUnique(rows, contentItem.Id, RowOf(contentItem));
      }
    }

    /** `Create(contentItem)`: created with the published options. */
    method Create(contentItem: ContentItem)
      requires Valid() && session.Attached(contentItem)
      modifies `phases, cache, session`enlisted, session`loaded, session`tracked, session`Repr, session`nextRowId
      modifies contentItem`Number, contentItem`Latest, contentItem`Published, contentItem`Id
      ensures Valid() && contentItem.Id in session.loaded && session.loaded[contentItem.Id] == contentItem
      ensures RowOf(contentItem) == CreatedRow(old(RowOf(contentItem)), PublishedOptions)
      ensures old(contentItem.Number) == 0 ==> contentItem.Number == 1 && contentItem.Latest && contentItem.Published
      ensures session.View() == old(session.View())[contentItem.Id := RowOf(contentItem)]
      ensures old(session.Synced()) ==> session.Synced()
      ensures phases == old(phases) + [Creating, Created, Publishing, PublishedPhase]
    {
      CreateWithOptions(contentItem, PublishedOptions);
    }

    /** Lines 402-406 of `RemoveAsync`: a version loses both flags and is saved. */
    method Deactivate(version: ContentItem)
      requires Valid() && version.Id in session.loaded && session.loaded[version.Id] == version
      modifies session`enlisted, session`tracked, version`Published, version`Latest
      ensures Valid() && session.loaded == old(session.loaded) && session.Repr == old(session.Repr)
      ensures version.Id in old(session.View()) &&
              session.View() == old(session.View())[version.Id := old(session.View())[version.Id].(Latest := false, Published := false)]
      ensures old(session.Synced()) ==> session.Synced()
    {
      session.Sees(version.Id);
      ghost var row, rows := RowOf(version), session.View();
      session.SetPublished(version, false);
      ghost var cleared := RowOf(version);
      session.SetLatest(version, false);
      UpdateTwice(rows, version.Id, cleared, RowOf(version));
      assert RowOf(version) == row.(Latest := false, Published := false);
      session.Save(version);
    }

    /** After the versions in `done` were deactivated: the loaded items and the
        rows they show are those of `rows`, with both flags cleared on `done`. */
    ghost predicate DeactivatedSoFar(versions: map<int, ContentItem>, rows: map<int, Row>, done: set<int>)
      reads this, session, session.Repr, cache
    {
      Valid() &&
      (forall id :: id in versions ==> id in session.loaded && session.loaded[id] == versions[id]) &&
      (forall id :: id in session.View() <==> id in rows) &&
      (forall id :: id in rows ==>
         session.View()[id] == if id in done then rows[id].(Latest := false, Published := false) else rows[id])
    }

    /** One turn of the loop of lines 400-407. */
    method DeactivateNext(versions: map<int, ContentItem>, ghost rows: map<int, Row>, ghost done: set<int>, id: int)
      requires DeactivatedSoFar(versions, rows, done) && id in versions && id !in done
      modifies session`enlisted, session`tracked, session.Repr`Published, session.Repr`Latest
      ensures DeactivatedSoFar(versions, rows, done + {id})
      ensures session.loaded == old(session.loaded) && session.Repr == old(session.Repr)
      ensures old(session.Synced()) ==> session.Synced()
    {
      session.Sees(id);
      Deactivate(versions[id]);
    }

    /** Lines 400-407 of `RemoveAsync`: each version listed loses both
        flags and is saved, in any order. */
    method DeactivateAll(versions: map<int, ContentItem>)
      requires Valid()
      requires forall id :: id in versions ==> id in session.loaded && session.loaded[id] == versions[id]
      modifies session`enlisted, session`tracked, session.Repr`Published, session.Repr`Latest
      ensures Valid() && session.loaded == old(session.loaded) && session.Repr == old(session.Repr)
      ensures forall id :: id in session.View() <==> id in old(session.View())
      ensures forall id :: id in old(session.View()) ==>
                session.View()[id] == if id in versions then old(session.View())[id].(Latest := false, Published := false)
                                      else old(session.View())[id]
      ensures old(session.Synced()) ==> session.Synced()
    {
      ghost var rows := session.View();
      var todo := versions.Keys;
      ghost var done: set<int> := {};
      while exists id :: id in todo
        invariant DeactivatedSoFar(versions, rows, done)
        invariant session.loaded == old(session.loaded) && session.Repr == old(session.Repr)
        invariant forall id :: id in versions ==> (id in todo <==> id !in done)
        invariant forall id :: id in todo || id in done ==> id in versions
        invariant old(session.Synced()) ==> session.Synced()
        decreases |todo|
      {
        var id :| id in todo;
        DeactivateNext(versions, rows, done, id);
        todo := todo - {id};
        done := done + {id};
      }
    }

    /** Lines 393-396 of `RemoveAsync`: the published or latest versions of
        a content item, as storage lists them once flushed. */
    method ActiveVersions(contentItemId: int) returns (versions: map<int, ContentItem>)
      requires Valid()
      modifies session`db, session`enlisted, session`loaded, session`tracked, session`Repr
      ensures Valid() && session.View() == old(session.View()) && (old(session.Synced()) ==> session.Synced())
      ensures forall id :: id in versions ==> id in session.loaded && session.loaded[id] == versions[id]
      ensures forall o :: o in session.Repr ==> o in old(session.Repr) || fresh(o)
      ensures old(session.Synced()) ==>
                forall id :: id in session.View() ==> (id in versions <==> Matches(ActiveQuery(contentItemId), session.View()[id]))
    {
      if session.Synced() {
        SyncedCommitted(session.db, session.enlisted, session.tracked);
      }
      ghost var before := session.loaded;
      versions := session.QueryAll(ActiveQuery(contentItemId));
      cache.WithinGrows(before, session.loaded);
    }

    /** Lines 393-406 of `RemoveAsync`: every published or latest version
        of a content item, as the query finds them, loses both flags and is
        saved. No row is deleted. */
    method DeactivateItem(contentItemId: int)
      requires Valid()
      modifies session`db, session`enlisted, session`loaded, session`tracked, session`Repr
      modifies session.Repr`Published, session.Repr`Latest
      ensures Valid()
      ensures old(session.Synced()) ==>
                session.Synced() && session.View() == Deactivated(old(session.View()), ActiveIds(old(session.View()), contentItemId))
      ensures old(Consistent()) ==> Consistent()
    {
      var activeVersions := ActiveVersions(contentItemId);
      ghost var rows := session.View();
      DeactivateAll(activeVersions);
      if old(session.Synced()) {
        RemovedRows(rows, contentItemId, activeVersions.Keys, session.View());
        RemoveDeactivatesItem(rows, contentItemId);
      }
    }

    /** `RemoveAsync`: the item's content item is deactivated between the
        `Removing` and `Removed` phases. The source queries before the
        `Removing` phase; the query changes no phase. */
    method RemoveAsync(contentItem: ContentItem)
      requires Valid()
      modifies `phases, session`db, session`enlisted, session`loaded, session`tracked, session`Repr
      modifies session.Repr`Published, session.Repr`Latest
      ensures Valid() && phases == old(phases) + [Removing, Removed]
      ensures old(session.Synced()) ==>
                session.Synced() &&
                session.View() == Deactivated(old(session.View()), ActiveIds(old(session.View()), contentItem.ContentItemId))
      ensures old(Consistent()) ==> Consistent()
    {
      phases := phases + [Removing];
      DeactivateItem(contentItem.ContentItemId);
      phases := phases + [Removed];
    }
  }
}

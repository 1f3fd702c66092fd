/** A driver's shape result (ShapeResult.cs): the placement found for the
    shape type decides whether the shape is built at all, which group it
    belongs to, how its metadata is rewritten (prefix, display type, source,
    tab, type, alternates, wrappers, processing and cache settings) and
    where in the shape tree it is added. Placement parsing (group, tab,
    position, zones, layout zone) and the shape builder are inputs. */
module Shapes {
  import opened Common

  /** A placement as resolved for one shape: the parsed parts are given. */
  datatype PlacementInfo = PlacementInfo(
    Location: Option<string>,
    Source: Option<string>,
    ShapeType: Option<string>,
    Alternates: seq<string>,
    Wrappers: seq<string>,
    Group: Option<string>,       // GetGroup()
    Tab: Option<string>,         // GetTab()
    Position: Option<string>,    // GetPosition()
    Zones: seq<string>,          // GetZones()
    IsLayoutZone: bool)          // IsLayoutZone()

  /** The callbacks a shape result carries, by identity. */
  type ProcessingCallback = nat
  type CacheCallbackId = nat

  /** The metadata of a built shape, updated in place. */
  class ShapeMetadata {
    var Type: string
    var Prefix: Option<string>
    var DisplayType: Option<string>
    var PlacementSource: Option<string>
    var Tab: Option<string>
    var Alternates: seq<string>
    var Wrappers: seq<string>
    var Processing: seq<ProcessingCallback>
    var CacheId: Option<string>

    constructor (shapeType: string)
      ensures Type == shapeType && Prefix == None && DisplayType == None && PlacementSource == None && Tab == None
      ensures Alternates == [] && Wrappers == [] && Processing == [] && CacheId == None
    {
      Type := shapeType;
      Prefix, DisplayType, PlacementSource, Tab := None, None, None, None;
      Alternates, Wrappers, Processing := [], [], [];
      CacheId := None;
    }

    /** `OnProcessing`: one more processing callback. */
    method OnProcessing(processing: ProcessingCallback)
      modifies this
      ensures Processing == old(Processing) + [processing]
      ensures Type == old(Type) && Prefix == old(Prefix) && DisplayType == old(DisplayType)
      ensures PlacementSource == old(PlacementSource) && Tab == old(Tab)
      ensures Alternates == old(Alternates) && Wrappers == old(Wrappers) && CacheId == old(CacheId)
    {
      Processing := Processing + [processing];
    }

    /** The placement's shape type, alternates and wrappers: a named shape
        type replaces the type and clears the existing alternates and
        wrappers; the placement's alternates and wrappers are then appended
        in order. */
    method Rewrite(shapeType: Option<string>, alternates: seq<string>, wrappers: seq<string>)
      modifies this
      ensures Type == (if IsNullOrEmpty(shapeType) then old(Type) else shapeType.value)
      ensures Alternates == Rewritten(old(Alternates), shapeType, alternates)
      ensures Wrappers == Rewritten(old(Wrappers), shapeType, wrappers)
      ensures Prefix == old(Prefix) && DisplayType == old(DisplayType) && PlacementSource == old(PlacementSource)
      ensures Tab == old(Tab) && Processing == old(Processing) && CacheId == old(CacheId)
    {
      // A specific shape type drops all previous alternates and wrappers.
      if !IsNullOrEmpty(shapeType) {
        Type := shapeType.value;
        Alternates := [];
        Wrappers := [];
      }

      ghost var baseAlternates := Alternates;
      var i := 0;
      while i < |alternates|
        invariant 0 <= i <= |alternates|
        invariant Alternates == baseAlternates + alternates[..i]
        invariant Type == (if IsNullOrEmpty(shapeType) then old(Type) else shapeType.value)
        invariant Wrappers == if IsNullOrEmpty(shapeType) then old(Wrappers) else []
        invariant Prefix == old(Prefix) && DisplayType == old(DisplayType) && PlacementSource == old(PlacementSource)
        invariant Tab == old(Tab) && Processing == old(Processing) && CacheId == old(CacheId)
      {
        Alternates := Alternates + [alternates[i]];
        i := i + 1;
      }

      ghost var baseWrappers := Wrappers;
      i := 0;
      while i < |wrappers|
        invariant 0 <= i <= |wrappers|
        invariant Wrappers == baseWrappers + wrappers[..i]
        invariant Type == (if IsNullOrEmpty(shapeType) then old(Type) else shapeType.value)
        invariant Alternates == Rewritten(old(Alternates), shapeType, alternates)
        invariant Prefix == old(Prefix) && DisplayType == old(DisplayType) && PlacementSource == old(PlacementSource)
        invariant Tab == old(Tab) && Processing == old(Processing) && CacheId == old(CacheId)
      {
        Wrappers := Wrappers + [wrappers[i]];
        i := i + 1;
      }
    }

    /** `Cache(cacheId)`: the shape is cached under that id; the returned
        cache context is identified by the id. */
    method Cache(cacheId: string) returns (cacheContext: string)
      modifies this
      ensures CacheId == Some(cacheId) && cacheContext == cacheId
      ensures Type == old(Type) && Prefix == old(Prefix) && DisplayType == old(DisplayType)
      ensures PlacementSource == old(PlacementSource) && Tab == old(Tab)
      ensures Alternates == old(Alternates) && Wrappers == old(Wrappers) && Processing == old(Processing)
    {
      CacheId := Some(cacheId);
      cacheContext := cacheId;
    }
  }

  /** A shape: only its metadata matters here. */
  class Shape {
    const Metadata: ShapeMetadata

    constructor (metadata: ShapeMetadata)
      ensures Metadata == metadata
    {
      Metadata := metadata;
    }
  }

  /** The shape builder of a result: invoking it yields its shape, or null;
      the calls are counted, since building is what placement may avoid. */
  class ShapeBuilder {
    const result: Shape?
    var calls: nat

    constructor (result: Shape?)
      ensures this.result == result && calls == 0
    {
      this.result := result;
      calls := 0;
    }

    method Build() returns (shape: Shape?)
      modifies this
      ensures shape == result && calls == old(calls) + 1
    {
      calls := calls + 1;
      shape := result;
    }
  }

  /** The cache callback of a result: the cache contexts it was invoked with. */
  class CacheCallback {
    var invocations: seq<string>

    constructor ()
      ensures invocations == []
    {
      invocations := [];
    }

    method Invoke(cacheContext: string)
      modifies this
      ensures invocations == old(invocations) + [cacheContext]
    {
      invocations := invocations + [cacheContext];
    }
  }

  /** Where a shape is added: the context's shape or the layout, then a zone
      per name. A zone is identified by its path: asking a shape for the same
      zone twice yields the same zone. */
  datatype Root = ContextShape | Layout
  datatype ZonePath = ZonePath(root: Root, zones: seq<string>)

  /** An added shape and the position it was given, if any. */
  datatype Item = Item(shape: Shape, position: Option<string>)

  /** The shapes added to each zone, in order. */
  class ShapeTree {
    var Items: map<ZonePath, seq<Item>>

    constructor ()
      ensures Items == map[]
    {
      Items := map[];
    }

    ghost function ItemsAt(path: ZonePath): seq<Item>
      reads this
    {
      if path in Items then Items[path] else []
    }

    /** `parentShape.Add(shape)` and `parentShape.Add(shape, position)`. */
    method Add(path: ZonePath, shape: Shape, position: Option<string>)
      modifies this
      ensures Items == old(Items)[path := old(ItemsAt(path)) + [Item(shape, position)]]
    {
      var existing := if path in Items then Items[path] else [];
      Items := Items[path := existing + [Item(shape, position)]];
    }
  }

  /** Display contexts carry a display type; editor contexts do not. */
  datatype ContextKind = Display(DisplayType: Option<string>) | Editor

  /** The build context: its group, kind, shape tree and placement resolution
      (`FindPlacement(shapeType, differentiator, defaultLocation)`). */
  class BuildShapeContext {
    const GroupId: Option<string>
    const Kind: ContextKind
    const Tree: ShapeTree
    const FindPlacement: (string, Option<string>, Option<string>) -> PlacementInfo

    constructor (groupId: Option<string>, kind: ContextKind, tree: ShapeTree,
                 findPlacement: (string, Option<string>, Option<string>) -> PlacementInfo)
      ensures GroupId == groupId && Kind == kind && Tree == tree && FindPlacement == findPlacement
    {
      GroupId, Kind, Tree, FindPlacement := groupId, kind, tree, findPlacement;
    }
  }

  /** A placement location that hides the shape: null, empty or "-". */
  predicate Hidden(location: Option<string>)
  {
    IsNullOrEmpty(location) || location == Some("-")
  }

  /** The context's group and the placement's group agree, ignoring case,
      null reading as "". */
  predicate InGroup(contextGroupId: Option<string>, groupId: Option<string>)
  {
    EqualsIgnoreCase(OrEmpty(contextGroupId), OrEmpty(groupId))
  }

  function OrEmpty(s: Option<string>): string
  {
    if s.Some? then s.value else ""
  }

  /** Whether the placement lets the shape be built: visible, and in the
      context's group. */
  predicate Admitted(placement: PlacementInfo, contextGroupId: Option<string>)
  {
    !Hidden(placement.Location) && InGroup(contextGroupId, placement.Group)
  }

  /** The alternates (or wrappers) after a placement is applied: the
      placement's own appended, the existing ones dropped first when the
      placement names a shape type. */
  function Rewritten(existing: seq<string>, shapeType: Option<string>, added: seq<string>): seq<string>
  {
    (if IsNullOrEmpty(shapeType) then existing else []) + added
  }

  /** Re-applying a placement leaves alternates (or wrappers) as they are
      exactly when it names a shape type or adds none; otherwise they
      accumulate. */
  lemma RewrittenIdempotent(existing: seq<string>, shapeType: Option<string>, added: seq<string>)
    ensures Rewritten(Rewritten(existing, shapeType, added), shapeType, added) == Rewritten(existing, shapeType, added)
            <==> !IsNullOrEmpty(shapeType) || added == []
  {
    if IsNullOrEmpty(shapeType) && added != [] {
      assert |Rewritten(Rewritten(existing, shapeType, added), shapeType, added)| == |existing| + 2 * |added|;
    }
  }

  /** With a shape type the result does not depend on the existing list;
      without one the existing list is kept as a prefix. */
  lemma RewrittenShape(existing: seq<string>, shapeType: Option<string>, added: seq<string>)
    ensures !IsNullOrEmpty(shapeType) ==> Rewritten(existing, shapeType, added) == added
    ensures IsNullOrEmpty(shapeType) ==> var r := Rewritten(existing, shapeType, added);
              |r| == |existing| + |added| && r[..|existing|] == existing && r[|existing|..] == added
  {
  }

  /** The zone a placement adds the shape to. */
  function Target(placement: PlacementInfo): ZonePath
  {
    ZonePath(if placement.IsLayoutZone then Layout else ContextShape, placement.Zones)
  }

  /** The position passed when adding: only a non-empty one. */
  function PositionOf(placement: PlacementInfo): (r: Option<string>)
    ensures r.Some? <==> !IsNullOrEmpty(placement.Position)
    ensures r.Some? ==> r == placement.Position
  {
    if IsNullOrEmpty(placement.Position) then None else placement.Position
  }

  /** The shape a placement adds to: the layout for a layout zone, otherwise
      the context's shape, then one zone per name, in order. */
  method ParentShape(placement: PlacementInfo) returns (parentShape: ZonePath)
    ensures parentShape == Target(placement)
  {
    parentShape := ZonePath(ContextShape, []);
    if placement.IsLayoutZone {
      parentShape := ZonePath(Layout, []);
    }

    var zones := placement.Zones;
    var i := 0;
    while i < |zones|
      invariant 0 <= i <= |zones|
      invariant parentShape == ZonePath(Target(placement).root, zones[..i])
    {
      parentShape := ZonePath(parentShape.root, parentShape.zones + [zones[i]]);
      i := i + 1;
    }
    assert zones[..i] == zones;
  }

  class ShapeResult {
    var defaultLocation: Option<string>
    var differentiator: Option<string>
    var prefix: Option<string>
    var cacheId: Option<string>
    const shapeType: string
    const shapeBuilder: ShapeBuilder
    const processing: Option<ProcessingCallback>
    var cache: CacheCallback?
    var groupId: Option<string>

    /** Both constructors: the shape type, the builder and an optional
        processing callback; every other setting starts null. */
    constructor (shapeType: string, shapeBuilder: ShapeBuilder, processing: Option<ProcessingCallback>)
      ensures this.shapeType == shapeType && this.shapeBuilder == shapeBuilder && this.processing == processing
      ensures defaultLocation == None && differentiator == None && prefix == None && cacheId == None
      ensures cache == null && groupId == None
    {
      this.shapeType := shapeType;
      this.shapeBuilder := shapeBuilder;
      this.processing := processing;
      defaultLocation, differentiator, prefix, cacheId := None, None, None, None;
      cache := null;
      groupId := None;
    }

    /** The objects applying this result may change. */
    ghost function ApplyFrame(context: BuildShapeContext): set<object>
      reads this
    {
      {this, shapeBuilder, context.Tree} +
      (if cache != null then {cache as object} else {}) +
      (if shapeBuilder.result != null then {shapeBuilder.result.Metadata as object} else {})
    }

    /** The metadata a built shape receives: the result's prefix, the display
        type, the placement's source and tab, the processing callback if any,
        the cache id when one is set and a callback was given, and the
        placement's shape type, alternates and wrappers. */
    twostate predicate Decorated(metadata: ShapeMetadata, placement: PlacementInfo, displayType: Option<string>)
      reads this, metadata
    {
      metadata.Prefix == prefix &&
      metadata.DisplayType == displayType &&
      metadata.PlacementSource == placement.Source &&
      metadata.Tab == placement.Tab &&
      metadata.Processing == old(metadata.Processing) + (if processing.Some? then [processing.value] else []) &&
      metadata.CacheId == (if !IsNullOrEmpty(cacheId) && cache != null then cacheId else old(metadata.CacheId)) &&
      metadata.Type == (if IsNullOrEmpty(placement.ShapeType) then old(metadata.Type) else placement.ShapeType.value) &&
      metadata.Alternates == Rewritten(old(metadata.Alternates), placement.ShapeType, placement.Alternates) &&
      metadata.Wrappers == Rewritten(old(metadata.Wrappers), placement.ShapeType, placement.Wrappers)
    }

    /** The cache callback is invoked, with the cache id, only when the id is
        non-empty and a callback was given. */
    twostate predicate CacheInvoked(callback: CacheCallback?, built: bool)
      reads this, callback
    {
      callback != null ==>
        callback.invocations == old(callback.invocations) + (if built && !IsNullOrEmpty(cacheId) then [cacheId.value] else [])
    }

    /** The metadata of the new shape. */
    method Decorate(newShapeMetadata: ShapeMetadata, placement: PlacementInfo, displayType: Option<string>)
      modifies newShapeMetadata, if cache != null then {cache} else {}
      ensures Decorated(newShapeMetadata, placement, displayType)
      ensures CacheInvoked(cache, true)
    {
      newShapeMetadata.Prefix := prefix;
      newShapeMetadata.DisplayType := displayType;
      newShapeMetadata.PlacementSource := placement.Source;
      newShapeMetadata.Tab := placement.Tab;

      // The processing callback delays costly initialization that caching can avoid.
      if processing.Some? {
        newShapeMetadata.OnProcessing(processing.value);
      }

      if !IsNullOrEmpty(cacheId) && cache != null {
        var cacheContext := newShapeMetadata.Cache(cacheId.value);
        cache.Invoke(cacheContext);
      }

      newShapeMetadata.Rewrite(placement.ShapeType, placement.Alternates, placement.Wrappers);
    }

    /** `Apply(BuildDisplayContext)` and `Apply(BuildEditorContext)`, with
        `ApplyImplementation` inlined: the display type is the context's for a
        display and null for an editor. The placement decides whether the
        builder runs, the group is the placement's, and a built shape is
        decorated and added to the placement's zone, at its position if one
        is given. */
    method Apply(context: BuildShapeContext)
      modifies ApplyFrame(context)
      ensures defaultLocation == old(defaultLocation) && differentiator == old(differentiator)
      ensures prefix == old(prefix) && cacheId == old(cacheId) && cache == old(cache)
      ensures var placement := context.FindPlacement(shapeType, differentiator, defaultLocation);
              groupId == if Hidden(placement.Location) then old(groupId) else placement.Group
      ensures var placement := context.FindPlacement(shapeType, differentiator, defaultLocation);
              shapeBuilder.calls == old(shapeBuilder.calls) + if Admitted(placement, context.GroupId) then 1 else 0
      ensures var placement := context.FindPlacement(shapeType, differentiator, defaultLocation);
              var built := Admitted(placement, context.GroupId) && shapeBuilder.result != null;
              CacheInvoked(cache, built) &&
              if built then
                Decorated(shapeBuilder.result.Metadata, placement, if context.Kind.Display? then context.Kind.DisplayType else None) &&
                context.Tree.Items == old(context.Tree.Items)[Target(placement) :=
                  old(context.Tree.ItemsAt(Target(placement))) + [Item(shapeBuilder.result, PositionOf(placement))]]
              else
                context.Tree.Items == old(context.Tree.Items) &&
                (shapeBuilder.result != null ==> unchanged(shapeBuilder.result.Metadata))
    {
      var displayType := if context.Kind.Display? then context.Kind.DisplayType else None;
      var placement := context.FindPlacement(shapeType, differentiator, defaultLocation);
      if IsNullOrEmpty(placement.Location) || placement.Location == Some("-") {
        return;
      }

      // The placement's group, when it names one, overrides the result's.
      groupId := placement.Group;

      if !EqualsIgnoreCase(OrEmpty(context.GroupId), OrEmpty(groupId)) {
        return;
      }

      var newShape := shapeBuilder.Build();

      // A builder that yields no shape leaves the tree as it is.
      if newShape == null {
        return;
      }

      Place(context, newShape, placement, displayType);
    }

    /** The rest of `ApplyImplementation`: the new shape is decorated, then
        added to the placement's zone, at its position if one is given. */
    method Place(context: BuildShapeContext, newShape: Shape, placement: PlacementInfo, displayType: Option<string>)
      modifies newShape.Metadata, context.Tree, if cache != null then {cache} else {}
      ensures Decorated(newShape.Metadata, placement, displayType) && CacheInvoked(cache, true)
      ensures context.Tree.Items == old(context.Tree.Items)[Target(placement) :=
                old(context.Tree.ItemsAt(Target(placement))) + [Item(newShape, PositionOf(placement))]]
    {
      Decorate(newShape.Metadata, placement, displayType);

      var parentShape := ParentShape(placement);
      var position := placement.Position;

      if IsNullOrEmpty(position) {
        context.Tree.Add(parentShape, newShape, None);
      } else {
        context.Tree.Add(parentShape, newShape, position);
      }
    }

    /** The fluent setters: each records its value and returns the result itself. */
    method Prefix(prefix: Option<string>) returns (r: ShapeResult)
      modifies this
      ensures r == this && this.prefix == prefix
      ensures defaultLocation == old(defaultLocation) && differentiator == old(differentiator)
      ensures cacheId == old(cacheId) && cache == old(cache) && groupId == old(groupId)
    {
      this.prefix := prefix;
      return this;
    }

    method Location(zone: Option<string>) returns (r: ShapeResult)
      modifies this
      ensures r == this && GetLocation() == zone
      ensures prefix == old(prefix) && differentiator == old(differentiator)
      ensures cacheId == old(cacheId) && cache == old(cache) && groupId == old(groupId)
    {
      defaultLocation := zone;
      return this;
    }

    method Differentiator(differentiator: Option<string>) returns (r: ShapeResult)
      modifies this
      ensures r == this && GetDifferentiator() == differentiator
      ensures prefix == old(prefix) && defaultLocation == old(defaultLocation)
      ensures cacheId == old(cacheId) && cache == old(cache) && groupId == old(groupId)
    {
      this.differentiator := differentiator;
      return this;
    }

    method OnGroup(groupId: Option<string>) returns (r: ShapeResult)
      modifies this
      ensures r == this && GetGroup() == groupId
      ensures prefix == old(prefix) && defaultLocation == old(defaultLocation) && differentiator == old(differentiator)
      ensures cacheId == old(cacheId) && cache == old(cache)
    {
      this.groupId := groupId;
      return this;
    }

    /** `Cache(cacheId, cache = null)`: the callback defaults to none. */
    method Cache(cacheId: Option<string>, cache: CacheCallback?) returns (r: ShapeResult)
      modifies this
      ensures r == this && this.cacheId == cacheId && this.cache == cache
      ensures prefix == old(prefix) && defaultLocation == old(defaultLocation)
      ensures differentiator == old(differentiator) && groupId == old(groupId)
    {
      this.cacheId := cacheId;
      this.cache := cache;
      return this;
    }

    function GetDifferentiator(): Option<string>
      reads this
    {
      differentiator
    }

    function GetGroup(): Option<string>
      reads this
    {
      groupId
    }

    function GetLocation(): Option<string>
      reads this
    {
      defaultLocation
    }

    function GetShapeType(): string
    {
      shapeType
    }
  }
}

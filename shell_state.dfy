/** The shell state manager (ShellStateManager.cs): the enable and install
    state of every feature of a tenant, kept in one `ShellState` document.
    The document is loaded lazily from the document session and cached; a
    feature entry missing from it is created on demand; every state change is
    saved. The session is reduced to the one document a query returns and the
    list of documents passed to `Save`. */
module ShellStates {
  import opened Common

  /** `ShellFeatureState.State`. The enumeration is not part of this model's
      source files; it is reconstructed with its default value first. */
  datatype State = Undefined | Rising | Up | Falling | Down

  /** The state of one feature. */
  class ShellFeatureState {
    const Name: string
    var EnableState: State
    var InstallState: State

    /** `new ShellFeatureState() { Name = name }`: both states take their default. */
    constructor (name: string)
      ensures Name == name && EnableState == Undefined && InstallState == Undefined
    {
      Name := name;
      EnableState := Undefined;
      InstallState := Undefined;
    }
  }

  /** The shell state document: its list of feature states. */
  class ShellState {
    var Features: seq<ShellFeatureState>

    constructor ()
      ensures Features == []
    {
      Features := [];
    }
  }

  /** The warnings the manager logs when the caller's view of a feature's
      state disagrees with the stored one: feature name, prior stored state,
      expected state. */
  datatype Warning =
    | EnableStateMismatch(name: string, prior: State, expected: State)
    | InstallStateMismatch(name: string, prior: State, expected: State)

  /** The index of the first feature state with that name (`FirstOrDefault`). */
  function FirstWithName(features: seq<ShellFeatureState>, name: string): (r: Option<nat>)
    ensures r.Some? ==> r.value < |features| && features[r.value].Name == name &&
                        forall k :: 0 <= k < r.value ==> features[k].Name != name
    ensures r.None? ==> forall k :: 0 <= k < |features| ==> features[k].Name != name
  {
    if features == [] then None
    else if features[0].Name == name then Some(0)
    else match FirstWithName(features[1..], name)
      case None => None
      case Some(k) => Some(k + 1)
  }

  /** Appending a feature state changes the first match only when there was none. */
  lemma {:induction false} FirstWithNameAppend(features: seq<ShellFeatureState>, f: ShellFeatureState, name: string)
    ensures FirstWithName(features + [f], name) ==
            if FirstWithName(features, name).Some? then FirstWithName(features, name)
            else if f.Name == name then Some(|features|) else None
  {
    if features != [] {
      assert (features + [f])[1..] == features[1..] + [f];
      FirstWithNameAppend(features[1..], f, name);
    }
  }

  /** `entry` is what get-or-create yields for `name` on `before`, and `after`
      the resulting list: the first entry with that name and the list as it
      was, or a new entry with that name appended. */
  ghost predicate Located(before: seq<ShellFeatureState>, name: string, entry: ShellFeatureState, after: seq<ShellFeatureState>)
  {
    entry.Name == name &&
    match FirstWithName(before, name)
    case Some(k) => entry == before[k] && after == before
    case None => after == before + [entry]
  }

  /** Get-or-create is idempotent: a second lookup of the same name yields the
      same entry and adds nothing, so a name gains at most one entry. */
  lemma LocatedTwice(before: seq<ShellFeatureState>, name: string, first: ShellFeatureState, middle: seq<ShellFeatureState>,
                     second: ShellFeatureState, after: seq<ShellFeatureState>)
    requires Located(before, name, first, middle) && Located(middle, name, second, after)
    ensures second == first && after == middle
  {
    if FirstWithName(before, name).None? {
      FirstWithNameAppend(before, first, name);
    }
  }

  class ShellStateManager {
    /** `_shellState`: the cached document, null until first loaded. */
    var shellState: ShellState?
    /** What `QueryAsync<ShellState>().FirstOrDefault()` returns. */
    var stored: ShellState?
    /** The documents passed to `ISession.Save`, in order. */
    var saved: seq<ShellState>
    /** The warnings logged. */
    var warnings: seq<Warning>

    /** Once loaded, the cached document is the stored one. */
    ghost predicate Valid()
      reads this
    {
      shellState != null ==> shellState == stored
    }

    /** The document `GetShellStateAsync` would return now, when there is one. */
    ghost function CurrentDocument(): ShellState?
      reads this
    {
      if shellState != null then shellState else stored
    }

    /** The document `GetShellStateAsync` would return now and its feature states. */
    ghost function Footprint(): set<object>
      reads this, shellState, stored
    {
      (if CurrentDocument() != null then {CurrentDocument() as object} else {}) + set f | f in CurrentFeatures() :: f as object
    }

    /** The feature list `GetShellStateAsync` would return now (an absent
        document reads as an empty one). */
    ghost function CurrentFeatures(): seq<ShellFeatureState>
      reads this, shellState, stored
    {
      if shellState != null then shellState.Features else if stored != null then stored.Features else []
    }

    constructor (stored: ShellState?)
      ensures this.stored == stored && shellState == null && saved == [] && warnings == []
      ensures Valid()
    {
      this.stored := stored;
      shellState := null;
      saved := [];
      warnings := [];
    }

    /** `UpdateShellState`: the document is saved; from then on a query returns it. */
    method UpdateShellState()
      requires shellState != null
      modifies this
      ensures saved == old(saved) + [shellState] && stored == shellState
      ensures shellState == old(shellState) && warnings == old(warnings)
    {
      saved := saved + [shellState];
      stored := shellState;
    }

    /** `GetShellStateAsync`: the cached document; otherwise the stored one;
        otherwise a new empty document, which is saved. */
    method GetShellStateAsync() returns (state: ShellState)
      requires Valid()
      modifies this
      ensures Valid() && state == shellState && warnings == old(warnings)
      ensures old(shellState) != null ==> state == old(shellState) && saved == old(saved) && stored == old(stored)
      ensures old(shellState) == null && old(stored) != null ==> state == old(stored) && saved == old(saved) && stored == old(stored)
      ensures old(shellState) == null && old(stored) == null ==>
                fresh(state) && state.Features == [] && saved == old(saved) + [state]
      ensures state.Features == old(CurrentFeatures())
    {
      if shellState != null {
        return shellState;
      }

      shellState := stored;

      if shellState == null {
        shellState := new ShellState();
        UpdateShellState();
      }

      return shellState;
    }

    /** `GetOrCreateFeatureState`: the first feature state with that name;
        otherwise a new one with that name, appended to the document. */
    method GetOrCreateFeatureState(name: string) returns (featureState: ShellFeatureState)
      requires Valid()
      modifies this, CurrentDocument()
      ensures Valid() && shellState != null && warnings == old(warnings)
      ensures featureState.Name == name && (featureState in old(CurrentFeatures()) || fresh(featureState))
      ensures Located(old(CurrentFeatures()), name, featureState, shellState.Features)
      ensures FirstWithName(shellState.Features, name).Some? && shellState.Features[FirstWithName(shellState.Features, name).value] == featureState
      ensures featureState !in old(CurrentFeatures()) ==> featureState.EnableState == Undefined && featureState.InstallState == Undefined
      ensures if old(CurrentDocument()) == null then fresh(shellState) else shellState == old(CurrentDocument())
      ensures saved == old(saved) + if old(CurrentDocument()) == null then [shellState] else []
    {
      var state := GetShellStateAsync();
      var found := FirstWithName(state.Features, name);
      match found
      case Some(k) =>
        featureState := state.Features[k];
      case None =>
        featureState := new ShellFeatureState(name);
        FirstWithNameAppend(shellState.Features, featureState, name);
        shellState.Features := shellState.Features + [featureState];
    }


    /** `UpdateEnabledState`: the stored entry for the feature (found or
        created) and the caller's `featureState` both take `value`; a stored
        state other than the one the caller expected is logged as a warning
        and changes nothing else; the document is saved. */
    method UpdateEnabledState(featureState: ShellFeatureState, value: State) returns (ghost entry: ShellFeatureState)
      requires Valid()
      modifies this, featureState, CurrentDocument(), CurrentFeatures()
      ensures Valid() && shellState != null && stored == shellState
      ensures entry.Name == featureState.Name
      ensures entry.EnableState == value && featureState.EnableState == value
      ensures featureState.InstallState == old(featureState.InstallState)
      ensures Located(old(CurrentFeatures()), featureState.Name, entry, shellState.Features)
      ensures entry in old(CurrentFeatures()) || fresh(entry)
      ensures if entry in old(CurrentFeatures()) then entry.InstallState == old(entry.InstallState) else entry.InstallState == Undefined
      ensures forall f :: f in old(CurrentFeatures()) && f != entry && f != featureState ==>
                f.EnableState == old(f.EnableState) && f.InstallState == old(f.InstallState)
      ensures var prior := if entry in old(CurrentFeatures()) then old(entry.EnableState) else Undefined;
              var expected := old(featureState.EnableState);
              warnings == old(warnings) + if prior != expected then [EnableStateMismatch(featureState.Name, prior, expected)] else []
      ensures saved == old(saved) + (if old(CurrentDocument()) == null then [shellState, shellState] else [shellState])
    {
      ghost var before := CurrentFeatures();
      var previousFeatureState := GetOrCreateFeatureState(featureState.Name);
      assert previousFeatureState in before || fresh(previousFeatureState);
      if previousFeatureState.EnableState != featureState.EnableState {
        warnings := warnings + [EnableStateMismatch(featureState.Name, previousFeatureState.EnableState, featureState.EnableState)];
      }

      previousFeatureState.EnableState := value;
      featureState.EnableState := value;
      entry := previousFeatureState;

      UpdateShellState();
    }

    /** `UpdateInstalledState`: as `UpdateEnabledState`, for the install state. */
    method UpdateInstalledState(featureState: ShellFeatureState, value: State) returns (ghost entry: ShellFeatureState)
      requires Valid()
      modifies this, featureState, CurrentDocument(), CurrentFeatures()
      ensures Valid() && shellState != null && stored == shellState
      ensures entry.Name == featureState.Name
      ensures entry.InstallState == value && featureState.InstallState == value
      ensures featureState.EnableState == old(featureState.EnableState)
      ensures Located(old(CurrentFeatures()), featureState.Name, entry, shellState.Features)
      ensures entry in old(CurrentFeatures()) || fresh(entry)
      ensures if entry in old(CurrentFeatures()) then entry.EnableState == old(entry.EnableState) else entry.EnableState == Undefined
      ensures forall f :: f in old(CurrentFeatures()) && f != entry && f != featureState ==>
                f.EnableState == old(f.EnableState) && f.InstallState == old(f.InstallState)
      ensures var prior := if entry in old(CurrentFeatures()) then old(entry.InstallState) else Undefined;
              var expected := old(featureState.InstallState);
              warnings == old(warnings) + if prior != expected then [InstallStateMismatch(featureState.Name, prior, expected)] else []
      ensures saved == old(saved) + (if old(CurrentDocument()) == null then [shellState, shellState] else [shellState])
    {
      ghost var before := CurrentFeatures();
      var previousFeatureState := GetOrCreateFeatureState(featureState.Name);
      assert previousFeatureState in before || fresh(previousFeatureState);
      if previousFeatureState.InstallState != featureState.InstallState {
        warnings := warnings + [InstallStateMismatch(featureState.Name, previousFeatureState.InstallState, featureState.InstallState)];
      }

      previousFeatureState.InstallState := value;
      featureState.InstallState := value;
      entry := previousFeatureState;

      UpdateShellState();
    }
  }
}

/** The engine's configuration: a base file with overrides laid over it. */
module ConfigLayers {
  import opened Options
  import opened TomlTables

  /** What reading one file gives. */
  datatype Reading = Absent | Unusable | Parsed(table: Tab)

  datatype ConfigFile = ConfigFile(path: string, reading: Reading)

  /** A file that could be read, and its table. */
  datatype Layer = Layer(path: string, table: Tab)

  datatype Loaded<C> = Loaded(config: C, applied: seq<string>)

  /** The files that can be used, in order. */
  function Usable(files: seq<ConfigFile>): seq<Layer> {
    if files == [] then []
    else
      var last := files[|files| - 1];
      var before := Usable(files[..|files| - 1]);
      if last.reading.Parsed? then before + [Layer(last.path, last.reading.table)] else before
  }

  function Paths(layers: seq<Layer>): seq<string> {
    if layers == [] then [] else Paths(layers[..|layers| - 1]) + [layers[|layers| - 1].path]
  }

  /** The layers merged in order onto an empty table. */
  function Stack(layers: seq<Layer>): Tab {
    if layers == [] then map[] else Merge(Stack(layers[..|layers| - 1]), layers[|layers| - 1].table)
  }

  function Files(base: Option<ConfigFile>, overlays: seq<ConfigFile>): seq<ConfigFile> {
    (if base.Some? then [base.value] else []) + overlays
  }

  lemma UsableSnoc(files: seq<ConfigFile>, f: ConfigFile)
    ensures Usable(files + [f]) == if f.reading.Parsed? then Usable(files) + [Layer(f.path, f.reading.table)] else Usable(files)
  {
    assert (files + [f])[..|files|] == files;
  }

  lemma StackSnoc(layers: seq<Layer>, l: Layer)
    ensures Stack(layers + [l]) == Merge(Stack(layers), l.table)
    ensures Paths(layers + [l]) == Paths(layers) + [l.path]
  {
    assert (layers + [l])[..|layers|] == layers;
  }

  lemma FilesSnoc(base: Option<ConfigFile>, overlays: seq<ConfigFile>, i: nat)
    requires i < |overlays|
    ensures Files(base, overlays[..i + 1]) == Files(base, overlays[..i]) + [overlays[i]]
  {
    assert overlays[..i + 1] == overlays[..i] + [overlays[i]];
  }

  /** Lay one more file over what is merged so far; an unusable one is skipped. */
  method Apply(merged: Tab, applied: seq<string>, file: ConfigFile, ghost files: seq<ConfigFile>)
    returns (merged': Tab, applied': seq<string>)
    requires merged == Stack(Usable(files)) && applied == Paths(Usable(files))
    ensures merged' == Stack(Usable(files + [file])) && applied' == Paths(Usable(files + [file]))
  {
    merged', applied' := merged, applied;
    UsableSnoc(files, file);
    if file.reading.Parsed? {
      merged' := MergeTables(merged, file.reading.table);
      applied' := applied + [file.path];
      StackSnoc(Usable(files), Layer(file.path, file.reading.table));
    }
  }

  // ---- which layer a value comes from ----

  /** Layer i sets the leaf, and no later layer touches its path. */
  predicate LastDefiner(layers: seq<Layer>, path: Path, i: nat, leaf: Scalar)
    requires i < |layers|
  {
    && Look(layers[i].table, path) == Some(Leaf(leaf))
    && forall j :: i < j < |layers| ==> !Touches(Table(layers[j].table), path)
  }

  /** Some layer is the last to define the path. */
  predicate Defined(layers: seq<Layer>, path: Path, leaf: Scalar) {
    exists i: nat :: i < |layers| && LastDefiner(layers, path, i, leaf)
  }

  lemma TouchedByDefinition(layers: seq<Layer>, l: Layer, path: Path, leaf: Scalar)
    requires Touches(Table(l.table), path)
    ensures Defined(layers + [l], path, leaf) == (Look(l.table, path) == Some(Leaf(leaf)))
  {
    var n := |layers|;
    if Look(l.table, path) == Some(Leaf(leaf)) {
      assert LastDefiner(layers + [l], path, n, leaf);
    }
  }

  lemma UntouchedByDefinition(layers: seq<Layer>, l: Layer, path: Path, leaf: Scalar)
    requires !Touches(Table(l.table), path)
    ensures Defined(layers + [l], path, leaf) == Defined(layers, path, leaf)
  {
    Untouched(Table(l.table), path);
    var all := layers + [l];
    assert !LastDefiner(all, path, |layers|, leaf);
    forall i: nat | i < |layers|
      ensures LastDefiner(all, path, i, leaf) == LastDefiner(layers, path, i, leaf)
    {
      assert forall j :: i < j < |layers| ==> all[j] == layers[j];
      assert all[|layers|] == l;
    }
  }

  /** A path leads to a leaf exactly if that leaf was set by a layer that no later one touches there. */
  lemma {:induction false} LastDefinerWins(layers: seq<Layer>, path: Path, leaf: Scalar)
    ensures Look(Stack(layers), path) == Some(Leaf(leaf)) <==> Defined(layers, path, leaf)
    decreases |layers|
  {
    if layers == [] {
      assert Look(map[], path) == if path == [] then Some(Table(map[])) else None;
    } else {
      var below, last := layers[..|layers| - 1], layers[|layers| - 1];
      assert layers == below + [last];
      LastDefinerWins(below, path, leaf);
      if Touches(Table(last.table), path) {
        TouchedByDefinition(below, last, path, leaf);
        if Look(last.table, path) == Some(Leaf(leaf)) {
          OverlayWins(Stack(below), last.table, path);
        } else if Look(Stack(layers), path) == Some(Leaf(leaf)) {
          TouchedLeaf(Stack(below), last.table, path);
        }
      } else {
        UntouchedByDefinition(below, last, path, leaf);
        BaseKept(Stack(below), last.table, path);
      }
    }
  }

  // ---- what is loaded ----

  /** File i sets the leaf, and no later file that can be used touches its path. */
  predicate SetLast(files: seq<ConfigFile>, path: Path, i: nat, leaf: Scalar)
    requires i < |files|
  {
    && files[i].reading.Parsed? && Look(files[i].reading.table, path) == Some(Leaf(leaf))
    && forall j :: i < j < |files| && files[j].reading.Parsed? ==> !Touches(Table(files[j].reading.table), path)
  }

  predicate Sets(files: seq<ConfigFile>, path: Path, leaf: Scalar) {
    exists i: nat :: i < |files| && SetLast(files, path, i, leaf)
  }

  /** A table has exactly the leaves that the files set, each by the last usable one that touches its path. */
  ghost predicate Layered(files: seq<ConfigFile>, table: Tab) {
    forall path, leaf :: Look(table, path) == Some(Leaf(leaf)) <==> Sets(files, path, leaf)
  }

  /** The usable files' paths, in order. */
  function Applied(files: seq<ConfigFile>): seq<string> {
    if files == [] then []
    else (if files[0].reading.Parsed? then [files[0].path] else []) + Applied(files[1..])
  }

  /**
   * The layered table if it deserializes, with all usable files applied; else the base file alone if that
   * does; else the defaults, with none.
   */
  ghost predicate LoadedFrom<C>(loaded: Loaded<C>, base: Option<ConfigFile>, files: seq<ConfigFile>, merged: Tab,
                          deserialize: Tab -> Option<C>, defaults: C) {
    var fallback :=
      if base.Some? && base.value.reading.Parsed? then deserialize(base.value.reading.table) else None;
    && (deserialize(merged).Some? ==> Some(loaded.config) == deserialize(merged) && loaded.applied == Applied(files))
    && (deserialize(merged).None? && fallback.Some? ==>
          Some(loaded.config) == fallback && loaded.applied == [base.value.path])
    && (deserialize(merged).None? && fallback.None? ==> loaded.config == defaults && loaded.applied == [])
  }

  lemma {:induction false} AppliedSnoc(files: seq<ConfigFile>, f: ConfigFile)
    ensures Applied(files + [f]) == Applied(files) + if f.reading.Parsed? then [f.path] else []
    decreases |files|
  {
    if files == [] {
      assert [] + [f] == [f] && [f][1..] == [];
    } else {
      assert (files + [f])[1..] == files[1..] + [f];
      AppliedSnoc(files[1..], f);
    }
  }

  lemma SetsSnoc(files: seq<ConfigFile>, f: ConfigFile, path: Path, leaf: Scalar)
    ensures
      Sets(files + [f], path, leaf)
      == if f.reading.Parsed? && Touches(Table(f.reading.table), path)
         then Look(f.reading.table, path) == Some(Leaf(leaf))
         else Sets(files, path, leaf)
  {
    var all, n := files + [f], |files|;
    if f.reading.Parsed? && Touches(Table(f.reading.table), path) {
      assert SetLast(all, path, n, leaf) == (Look(f.reading.table, path) == Some(Leaf(leaf)));
      assert forall i: nat :: i < n ==> !SetLast(all, path, i, leaf) by {
        assert all[n] == f;
      }
    } else {
      if f.reading.Parsed? {
        Untouched(Table(f.reading.table), path);
      }
      assert !SetLast(all, path, n, leaf);
      forall i: nat | i < n
        ensures SetLast(all, path, i, leaf) == SetLast(files, path, i, leaf)
      {
        assert forall j :: i < j < n ==> all[j] == files[j];
        assert all[n] == f && all[i] == files[i];
      }
    }
  }

  lemma {:induction false} SetsIsDefined(files: seq<ConfigFile>, path: Path, leaf: Scalar)
    ensures Sets(files, path, leaf) == Defined(Usable(files), path, leaf)
    decreases |files|
  {
    if files != [] {
      var before, f := files[..|files| - 1], files[|files| - 1];
      assert files == before + [f];
      SetsIsDefined(before, path, leaf);
      SetsSnoc(before, f, path, leaf);
      UsableSnoc(before, f);
      if f.reading.Parsed? {
        var l := Layer(f.path, f.reading.table);
        if Touches(Table(l.table), path) {
          TouchedByDefinition(Usable(before), l, path, leaf);
        } else {
          UntouchedByDefinition(Usable(before), l, path, leaf);
        }
      }
    }
  }

  lemma {:induction false} PathsAreApplied(files: seq<ConfigFile>)
    ensures Paths(Usable(files)) == Applied(files)
    decreases |files|
  {
    if files != [] {
      var before, f := files[..|files| - 1], files[|files| - 1];
      assert files == before + [f];
      PathsAreApplied(before);
      AppliedSnoc(before, f);
      UsableSnoc(before, f);
      if f.reading.Parsed? {
        StackSnoc(Usable(before), Layer(f.path, f.reading.table));
      }
    }
  }

  lemma LayersSay(files: seq<ConfigFile>)
    ensures Layered(files, Stack(Usable(files))) && Paths(Usable(files)) == Applied(files)
  {
    PathsAreApplied(files);
    forall path, leaf
      ensures Look(Stack(Usable(files)), path) == Some(Leaf(leaf)) <==> Sets(files, path, leaf)
    {
      LastDefinerWins(Usable(files), path, leaf);
      SetsIsDefined(files, path, leaf);
    }
  }

  /** The merged layers if they deserialize, else the base alone, else the defaults. */
  method Choose<C>(merged: Tab, applied: seq<string>, base: Option<ConfigFile>, deserialize: Tab -> Option<C>, defaults: C,
                   ghost files: seq<ConfigFile>)
    returns (loaded: Loaded<C>)
    requires applied == Applied(files)
    ensures LoadedFrom(loaded, base, files, merged, deserialize, defaults)
  {
    var whole := deserialize(merged);
    if whole.Some? {
      return Loaded(whole.value, applied);
    }
    if base.Some? && base.value.reading.Parsed? {
      var fallback := deserialize(base.value.reading.table);
      if fallback.Some? {
        return Loaded(fallback.value, [base.value.path]);
      }
    }
    return Loaded(defaults, []);
  }

  /** Lay the usable files over each other in order. */
  method StackFiles(base: Option<ConfigFile>, overlays: seq<ConfigFile>) returns (table: Tab, applied: seq<string>)
    ensures
      var usable := Usable(Files(base, overlays));
      table == Stack(usable) && applied == Paths(usable)
  {
    table, applied := map[], [];
    if base.Some? {
      table, applied := Apply(table, applied, base.value, []);
    }
    assert Files(base, overlays[..0]) == if base.Some? then [] + [base.value] else [];
    var i := 0;
    while i < |overlays|
      invariant i <= |overlays|
      invariant table == Stack(Usable(Files(base, overlays[..i]))) && applied == Paths(Usable(Files(base, overlays[..i])))
    {
      table, applied := Apply(table, applied, overlays[i], Files(base, overlays[..i]));
      FilesSnoc(base, overlays, i);
      i := i + 1;
    }
    assert overlays[..|overlays|] == overlays;
  }

  method LoadLayered<C>(base: Option<ConfigFile>, overlays: seq<ConfigFile>, deserialize: Tab -> Option<C>, defaults: C)
    returns (loaded: Loaded<C>)
    ensures
      var files := (if base.Some? then [base.value] else []) + overlays;
      exists merged :: Layered(files, merged) && LoadedFrom(loaded, base, files, merged, deserialize, defaults)
  {
    ghost var files := Files(base, overlays);
    var table, applied := StackFiles(base, overlays);
    LayersSay(files);
    loaded := Choose(table, applied, base, deserialize, defaults, files);
    assert Layered(files, table) && LoadedFrom(loaded, base, files, table, deserialize, defaults);
  }
}

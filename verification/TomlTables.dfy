/** TOML tables and their deep merge. */
module TomlTables {
  import opened Options

  /** A value that is not a table. Arrays and dates are only told apart, never looked into. */
  datatype Scalar = Flag(on: bool) | Number(n: int) | Fraction(x: real) | Text(s: string) | Opaque(id: nat)

  datatype Value = Leaf(scalar: Scalar) | Table(entries: map<string, Value>)

  type Tab = map<string, Value>

  type Path = seq<string>

  /** A table into a table merges entry by entry; in all other cases the overlay replaces. */
  function Overlaid(under: Option<Value>, over: Value): Value
    decreases over
  {
    if under.Some? && under.value.Table? && over.Table? then
      Table(map key | key in under.value.entries.Keys + over.entries.Keys ::
              if key in over.entries then Overlaid(Get(under.value.entries, key), over.entries[key])
              else under.value.entries[key])
    else over
  }

  function Merge(base: Tab, overlay: Tab): Tab {
    Overlaid(Some(Table(base)), Table(overlay)).entries
  }

  lemma MergeAt(base: Tab, overlay: Tab, key: string)
    ensures
      Get(Merge(base, overlay), key)
      == if key !in overlay then Get(base, key)
         else if key in base && base[key].Table? && overlay[key].Table?
           then Some(Table(Merge(base[key].entries, overlay[key].entries)))
         else Some(overlay[key])
  {
    if key in overlay {
      OverlaidIs(Get(base, key), overlay[key]);
    }
  }

  lemma OverlaidIs(under: Option<Value>, over: Value)
    ensures
      Overlaid(under, over)
      == if under.Some? && under.value.Table? && over.Table? then Table(Merge(under.value.entries, over.entries)) else over
  {
  }

  function Get(t: Tab, key: string): Option<Value> {
    if key in t then Some(t[key]) else None
  }

  /** Merged for every key of the overlay but those in `todo`. */
  ghost predicate MergedBut(base: Tab, overlay: Tab, todo: set<string>, merged: Tab) {
    forall key :: Get(merged, key) == Get(if key in overlay && key !in todo then Merge(base, overlay) else base, key)
  }

  lemma MergedOneMore(base: Tab, overlay: Tab, todo: set<string>, merged: Tab, key: string)
    requires MergedBut(base, overlay, todo, merged) && key in todo && key in overlay
    ensures MergedBut(base, overlay, todo - {key}, merged[key := Overlaid(Get(merged, key), overlay[key])])
  {
    assert Get(merged, key) == Get(base, key);
    assert Get(Merge(base, overlay), key) == Some(Overlaid(Get(base, key), overlay[key]));
  }

  lemma MergedAll(base: Tab, overlay: Tab, merged: Tab)
    requires MergedBut(base, overlay, {}, merged)
    ensures merged == Merge(base, overlay)
  {
    forall key
      ensures Get(merged, key) == Get(Merge(base, overlay), key)
    {
      MergeAt(base, overlay, key);
    }
    SameTable(merged, Merge(base, overlay));
  }

  /** The merge, one key of the overlay after the other. */
  method MergeTables(base: Tab, overlay: Tab) returns (merged: Tab)
    ensures merged == Merge(base, overlay)
    decreases Table(overlay), 0
  {
    merged := base;
    var todo := overlay.Keys;
    while todo != {}
      invariant todo <= overlay.Keys && MergedBut(base, overlay, todo, merged)
      decreases |todo|
    {
      var key :| key in todo;
      MergedOneMore(base, overlay, todo, merged, key);
      merged := MergeKey(merged, key, overlay[key]);
      todo := todo - {key};
    }
    MergedAll(base, overlay, merged);
  }

  /** One key: a table goes into a table that is there, anything else takes the place of what is. */
  method MergeKey(base: Tab, key: string, value: Value) returns (merged: Tab)
    ensures merged == base[key := Overlaid(Get(base, key), value)]
    decreases value, 1
  {
    OverlaidIs(Get(base, key), value);
    if key in base && base[key].Table? && value.Table? {
      var inner := MergeTables(base[key].entries, value.entries);
      merged := base[key := Table(inner)];
    } else {
      merged := base[key := value];
    }
  }

  lemma SameTable(s: Tab, t: Tab)
    requires forall key :: Get(s, key) == Get(t, key)
    ensures s == t
  {
    forall key | key in s
      ensures key in t && s[key] == t[key]
    {
      assert Get(s, key) == Get(t, key);
    }
    forall key | key in t
      ensures key in s
    {
      assert Get(s, key) == Get(t, key);
    }
  }

  // ---- paths ----

  /** What a path of keys leads to. */
  function At(v: Value, path: Path): Option<Value>
    decreases |path|
  {
    if path == [] then Some(v)
    else if v.Table? && path[0] in v.entries then At(v.entries[path[0]], path[1..])
    else None
  }

  function Look(t: Tab, path: Path): Option<Value> {
    At(Table(t), path)
  }

  lemma LookStep(t: Tab, path: Path)
    requires path != []
    ensures Look(t, path) == if path[0] in t then At(t[path[0]], path[1..]) else None
  {
  }

  /** The overlay has something at the path, or a value that is not a table on the way to it. */
  predicate Touches(overlay: Value, path: Path)
    decreases |path|
  {
    overlay.Leaf? || path == [] || (path[0] in overlay.entries && Touches(overlay.entries[path[0]], path[1..]))
  }

  /** A leaf the overlay sets has the overlay's value. */
  lemma {:induction false} OverlayWins(base: Tab, overlay: Tab, path: Path)
    requires Look(overlay, path).Some? && Look(overlay, path).value.Leaf?
    ensures Look(Merge(base, overlay), path) == Look(overlay, path)
    decreases |path|
  {
    var key := path[0];
    MergeAt(base, overlay, key);
    if overlay[key].Table? && key in base && base[key].Table? {
      OverlayWins(base[key].entries, overlay[key].entries, path[1..]);
    }
  }

  /** A path the overlay does not touch leads where the base's does. */
  lemma {:induction false} BaseKept(base: Tab, overlay: Tab, path: Path)
    requires !Touches(Table(overlay), path)
    ensures Look(Merge(base, overlay), path) == Look(base, path)
    decreases |path|
  {
    var key := path[0];
    MergeAt(base, overlay, key);
    if key in overlay {
      if key in base && base[key].Table? {
        BaseKept(base[key].entries, overlay[key].entries, path[1..]);
      } else {
        Untouched(overlay[key], path[1..]);
        assert Get(Merge(base, overlay), key) == Some(overlay[key]);
        LookStep(Merge(base, overlay), path);
        LookStep(base, path);
        assert !Touches(overlay[key], path[1..]);
        assert key in base ==> At(base[key], path[1..]) == None;
      }
    }
  }

  lemma {:induction false} Untouched(overlay: Value, path: Path)
    requires !Touches(overlay, path)
    ensures At(overlay, path) == None
    decreases |path|
  {
    if path[0] in overlay.entries {
      Untouched(overlay.entries[path[0]], path[1..]);
    }
  }

  /** A path the overlay touches leads to a leaf of the merge only if it leads to that leaf of the overlay. */
  lemma {:induction false} TouchedLeaf(base: Tab, overlay: Tab, path: Path)
    requires Touches(Table(overlay), path)
    requires Look(Merge(base, overlay), path).Some? && Look(Merge(base, overlay), path).value.Leaf?
    ensures Look(overlay, path) == Look(Merge(base, overlay), path)
    decreases |path|
  {
    var key := path[0];
    MergeAt(base, overlay, key);
    if overlay[key].Table? && key in base && base[key].Table? {
      TouchedLeaf(base[key].entries, overlay[key].entries, path[1..]);
    }
  }

  lemma {:induction false} OverlaidTwice(under: Option<Value>, over: Value)
    ensures Overlaid(Some(Overlaid(under, over)), over) == Overlaid(under, over)
    decreases over
  {
    if over.Table? {
      var once := Overlaid(under, over);
      var twice := Overlaid(Some(once), over);
      forall key | key in once.entries
        ensures twice.entries[key] == once.entries[key]
      {
        if key in over.entries {
          OverlaidTwice(if under.Some? && under.value.Table? then Get(under.value.entries, key) else None, over.entries[key]);
          OverlaidTwice(None, over.entries[key]);
        }
      }
      assert twice.entries.Keys == once.entries.Keys;
    }
  }

  /** Merging the same overlay again changes nothing. */
  lemma MergeTwice(base: Tab, overlay: Tab)
    ensures Merge(Merge(base, overlay), overlay) == Merge(base, overlay)
  {
    OverlaidTwice(Some(Table(base)), Table(overlay));
  }
}

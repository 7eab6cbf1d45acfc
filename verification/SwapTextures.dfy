/** The registry of swap texture sets: flat lists that refine a list of sets. */
module SwapTextures {
  import opened Options

  const TEXTURES_PER_SET: nat := 3

  datatype Texture = Texture(handle: nat, pid: nat, setId: nat)

  /** The index in use of a set. */
  datatype Current = Current(setId: nat, index: nat)

  /** One live set: whose it is, its three handles, and how often it was advanced. */
  datatype SwapSet = SwapSet(id: nat, pid: nat, h0: nat, h1: nat, h2: nat, advances: nat) {
    predicate Has(handle: nat) {
      handle == h0 || handle == h1 || handle == h2
    }

    predicate Meets(other: SwapSet) {
      Has(other.h0) || Has(other.h1) || Has(other.h2)
    }

    function Block(): seq<Texture> {
      [Texture(h0, pid, id), Texture(h1, pid, id), Texture(h2, pid, id)]
    }

    function Index(): nat {
      advances % TEXTURES_PER_SET
    }

    function Advanced(): SwapSet {
      this.(advances := advances + 1)
    }
  }

  // ---- the flat lists of a list of sets ----

  function Expand(sets: seq<SwapSet>): (ts: seq<Texture>)
    ensures |ts| == TEXTURES_PER_SET * |sets|
  {
    if sets == [] then [] else Expand(sets[..|sets| - 1]) + sets[|sets| - 1].Block()
  }

  function Indices(sets: seq<SwapSet>): (cs: seq<Current>)
    ensures |cs| == |sets|
    ensures forall k :: 0 <= k < |sets| ==> cs[k] == Current(sets[k].id, sets[k].Index())
  {
    if sets == [] then []
    else
      var last := sets[|sets| - 1];
      Indices(sets[..|sets| - 1]) + [Current(last.id, last.Index())]
  }

  function Keep<T>(xs: seq<T>, p: T -> bool): seq<T> {
    if xs == [] then []
    else
      var last, kept := xs[|xs| - 1], Keep(xs[..|xs| - 1], p);
      if p(last) then kept + [last] else kept
  }

  method Retain<T>(xs: seq<T>, p: T -> bool) returns (kept: seq<T>)
    ensures kept == Keep(xs, p)
  {
    kept := [];
    for i := 0 to |xs|
      invariant kept == Keep(xs[..i], p)
    {
      assert xs[..i + 1][..i] == xs[..i];
      if p(xs[i]) {
        kept := kept + [xs[i]];
      }
    }
    assert xs[..|xs|] == xs;
  }

  /** The first texture with a handle. */
  function Found(ts: seq<Texture>, handle: nat): Option<Texture> {
    if ts == [] then None
    else
      var before := Found(ts[..|ts| - 1], handle);
      var last := ts[|ts| - 1];
      if before.Some? then before else if last.handle == handle then Some(last) else None
  }

  /** The place of the first set with a handle. */
  function OwnerAt(sets: seq<SwapSet>, handle: nat): (k: Option<nat>)
    ensures k.Some? ==> k.value < |sets| && sets[k.value].Has(handle)
    ensures k.None? ==> forall i :: 0 <= i < |sets| ==> !sets[i].Has(handle)
  {
    if sets == [] then None
    else
      var before := OwnerAt(sets[..|sets| - 1], handle);
      if before.Some? then before else if sets[|sets| - 1].Has(handle) then Some(|sets| - 1) else None
  }

  lemma FoundMore(ts: seq<Texture>, t: Texture, handle: nat)
    ensures Found(ts + [t], handle)
         == if Found(ts, handle).Some? then Found(ts, handle) else if t.handle == handle then Some(t) else None
  {
    assert (ts + [t])[..|ts|] == ts;
  }

  /** Looking a handle up in the flat list finds its set. */
  lemma {:induction false} FoundIsOwner(sets: seq<SwapSet>, handle: nat)
    ensures
      var k := OwnerAt(sets, handle);
      Found(Expand(sets), handle) == if k.None? then None else Some(Texture(handle, sets[k.value].pid, sets[k.value].id))
  {
    if sets != [] {
      var init, s := sets[..|sets| - 1], sets[|sets| - 1];
      FoundIsOwner(init, handle);
      var ts := Expand(init);
      var t0, t1, t2 := Texture(s.h0, s.pid, s.id), Texture(s.h1, s.pid, s.id), Texture(s.h2, s.pid, s.id);
      FoundMore(ts, t0, handle);
      FoundMore(ts + [t0], t1, handle);
      FoundMore(ts + [t0] + [t1], t2, handle);
      assert Expand(sets) == ts + [t0] + [t1] + [t2];
    }
  }

  lemma KeepSnoc<T>(xs: seq<T>, x: T, p: T -> bool)
    ensures Keep(xs + [x], p) == if p(x) then Keep(xs, p) + [x] else Keep(xs, p)
  {
    assert (xs + [x])[..|xs|] == xs;
  }

  /** Removing textures by a property of their set removes whole sets. */
  lemma {:induction false} KeepExpand(sets: seq<SwapSet>, p: Texture -> bool, q: SwapSet -> bool)
    requires forall s :: s in sets ==> forall t :: t in s.Block() ==> p(t) == q(s)
    ensures Keep(Expand(sets), p) == Expand(Keep(sets, q))
  {
    if sets != [] {
      var init, s := sets[..|sets| - 1], sets[|sets| - 1];
      assert sets == init + [s];
      KeepExpand(init, p, q);
      ExpandSnoc(init, s);
      KeepBlock(Expand(init), s, p, q(s));
      KeepSnoc(init, s, q);
      ExpandSnoc(Keep(init, q), s);
    }
  }

  lemma KeepThree<T>(ts: seq<T>, x: T, y: T, z: T, p: T -> bool, stays: bool)
    requires p(x) == p(y) == p(z) == stays
    ensures Keep(ts + [x, y, z], p) == if stays then Keep(ts, p) + [x, y, z] else Keep(ts, p)
  {
    KeepSnoc(ts, x, p);
    KeepSnoc(ts + [x], y, p);
    KeepSnoc(ts + [x] + [y], z, p);
    assert ts + [x, y, z] == ts + [x] + [y] + [z];
  }

  lemma KeepBlock(ts: seq<Texture>, s: SwapSet, p: Texture -> bool, stays: bool)
    requires forall t :: t in s.Block() ==> p(t) == stays
    ensures Keep(ts + s.Block(), p) == if stays then Keep(ts, p) + s.Block() else Keep(ts, p)
  {
    var block := s.Block();
    assert block[0] in block && block[1] in block && block[2] in block;
    assert block == [block[0], block[1], block[2]];
    KeepThree(ts, block[0], block[1], block[2], p, stays);
  }

  lemma ExpandSnoc(sets: seq<SwapSet>, s: SwapSet)
    ensures Expand(sets + [s]) == Expand(sets) + s.Block()
    ensures Indices(sets + [s]) == Indices(sets) + [Current(s.id, s.Index())]
  {
    assert (sets + [s])[..|sets|] == sets;
  }

  lemma {:induction false} KeepIndices(sets: seq<SwapSet>, p: Current -> bool, q: SwapSet -> bool)
    requires forall s :: s in sets ==> p(Current(s.id, s.Index())) == q(s)
    ensures Keep(Indices(sets), p) == Indices(Keep(sets, q))
  {
    if sets != [] {
      var init, s := sets[..|sets| - 1], sets[|sets| - 1];
      assert sets == init + [s];
      KeepIndices(init, p, q);
      KeepSnoc(Indices(init), Current(s.id, s.Index()), p);
      ExpandSnoc(init, s);
      KeepSnoc(init, s, q);
      ExpandSnoc(Keep(init, q), s);
    }
  }

  lemma {:induction false} KeepMembers<T>(xs: seq<T>, p: T -> bool, x: T)
    ensures x in Keep(xs, p) <==> x in xs && p(x)
  {
    if xs != [] {
      KeepMembers(xs[..|xs| - 1], p, x);
      assert xs == xs[..|xs| - 1] + [xs[|xs| - 1]];
    }
  }

  lemma {:induction false} ExpandMembers(sets: seq<SwapSet>, t: Texture)
    ensures t in Expand(sets) <==> exists s :: s in sets && t in s.Block()
  {
    if sets != [] {
      var init, s := sets[..|sets| - 1], sets[|sets| - 1];
      assert sets == init + [s];
      ExpandMembers(init, t);
      assert s in sets;
    }
  }

  // ---- what the operations do to the sets ----

  /** Set numbers go up, and stay below the next one to give out. */
  predicate Numbered(sets: seq<SwapSet>, nextSetId: nat)
    decreases |sets|
  {
    sets == [] || (sets[|sets| - 1].id < nextSetId && Numbered(sets[..|sets| - 1], sets[|sets| - 1].id))
  }

  lemma {:induction false} NumbersGoUp(sets: seq<SwapSet>, nextSetId: nat, i: nat, j: nat)
    requires Numbered(sets, nextSetId) && i < j < |sets|
    ensures sets[i].id < sets[j].id < nextSetId
    decreases |sets|
  {
    if j < |sets| - 1 {
      NumbersGoUp(sets[..|sets| - 1], sets[|sets| - 1].id, i, j);
    } else if i < j - 1 {
      NumbersGoUp(sets[..|sets| - 1], sets[|sets| - 1].id, i, j - 1);
    }
  }

  lemma NumbersDiffer(sets: seq<SwapSet>, nextSetId: nat, i: nat, j: nat)
    requires Numbered(sets, nextSetId) && i < |sets| && j < |sets|
    ensures sets[i].id == sets[j].id <==> i == j
  {
    if i < j {
      NumbersGoUp(sets, nextSetId, i, j);
    } else if j < i {
      NumbersGoUp(sets, nextSetId, j, i);
    }
  }

  /** No handle names two live textures. */
  predicate Apart(sets: seq<SwapSet>) {
    && (forall s :: s in sets ==> s.h0 != s.h1 && s.h1 != s.h2 && s.h0 != s.h2)
    && (forall i, j :: 0 <= i < j < |sets| ==> !sets[i].Meets(sets[j]))
  }

  function Bump(sets: seq<SwapSet>, k: nat): seq<SwapSet>
    requires k < |sets|
  {
    sets[k := sets[k].Advanced()]
  }

  /** Both eyes' sets go on to their next texture; one set for both goes on once. */
  function NextSets(sets: seq<SwapSet>, left: nat, right: nat): seq<SwapSet> {
    var l, r := OwnerAt(sets, left), OwnerAt(sets, right);
    var once := if l.Some? then Bump(sets, l.value) else sets;
    if r.Some? && r != l then Bump(once, r.value) else once
  }

  function OtherSets(id: nat): SwapSet -> bool {
    (s: SwapSet) => s.id != id
  }

  function OtherOwners(pid: nat): SwapSet -> bool {
    (s: SwapSet) => s.pid != pid
  }

  /** A new set, unless the device failed to make its textures. */
  function WithNew(sets: seq<SwapSet>, id: nat, pid: nat, device: Option<(nat, nat, nat)>): seq<SwapSet> {
    if device.None? then sets else sets + [SwapSet(id, pid, device.value.0, device.value.1, device.value.2, 0)]
  }

  function WithoutSet(sets: seq<SwapSet>, handle: nat): seq<SwapSet> {
    var k := OwnerAt(sets, handle);
    if k.None? then sets else Keep(sets, OtherSets(sets[k.value].id))
  }

  function WithoutPid(sets: seq<SwapSet>, pid: nat): seq<SwapSet> {
    Keep(sets, OtherOwners(pid))
  }

  lemma NextIndexOf(s: SwapSet)
    ensures s.Advanced().Index() == (s.Index() + 1) % TEXTURES_PER_SET
  {
  }

  lemma BumpedIndices(sets: seq<SwapSet>, k: nat)
    requires k < |sets|
    ensures Indices(Bump(sets, k)) == Indices(sets)[k := Current(sets[k].id, sets[k].Advanced().Index())]
    ensures Expand(Bump(sets, k)) == Expand(sets)
  {
    SameBlocks(sets, Bump(sets, k));
    var bumped, cs := Indices(Bump(sets, k)), Indices(sets);
    forall j | 0 <= j < |sets|
      ensures bumped[j] == cs[k := Current(sets[k].id, sets[k].Advanced().Index())][j]
    {
      assert Bump(sets, k)[j] == if j == k then sets[k].Advanced() else sets[j];
    }
  }

  lemma {:induction false} SameBlocks(xs: seq<SwapSet>, ys: seq<SwapSet>)
    requires |xs| == |ys| && forall k :: 0 <= k < |xs| ==> xs[k].Block() == ys[k].Block()
    ensures Expand(xs) == Expand(ys)
  {
    if xs != [] {
      SameBlocks(xs[..|xs| - 1], ys[..|ys| - 1]);
    }
  }

  lemma NumberedBelow(sets: seq<SwapSet>, n: nat, m: nat)
    requires Numbered(sets, n) && n <= m
    ensures Numbered(sets, m)
  {
  }

  lemma {:induction false} KeepNumbered(sets: seq<SwapSet>, p: SwapSet -> bool, nextSetId: nat)
    requires Numbered(sets, nextSetId)
    ensures Numbered(Keep(sets, p), nextSetId)
    decreases |sets|
  {
    if sets != [] {
      var init, last := sets[..|sets| - 1], sets[|sets| - 1];
      KeepNumbered(init, p, last.id);
      var kept := Keep(init, p);
      if p(last) {
        assert (kept + [last])[..|kept|] == kept;
      } else {
        NumberedBelow(kept, last.id, nextSetId);
      }
    }
  }

  lemma {:induction false} KeepApart(sets: seq<SwapSet>, p: SwapSet -> bool)
    requires Apart(sets)
    ensures Apart(Keep(sets, p))
  {
    if sets != [] {
      var init, s := sets[..|sets| - 1], sets[|sets| - 1];
      assert sets == init + [s];
      KeepApart(init, p);
      forall x | x in Keep(init, p)
        ensures !x.Meets(s)
      {
        KeepMembers(init, p, x);
        var i :| 0 <= i < |init| && init[i] == x;
        assert sets[i] == x && sets[|sets| - 1] == s;
      }
    }
  }

  function InSet(id: nat): Texture -> bool {
    (t: Texture) => t.setId == id
  }

  function IsSet(id: nat): SwapSet -> bool {
    (s: SwapSet) => s.id == id
  }

  lemma {:induction false} OneSet(sets: seq<SwapSet>, nextSetId: nat, k: nat)
    requires k < |sets| && Numbered(sets, nextSetId)
    ensures Keep(sets, IsSet(sets[k].id)) == [sets[k]]
    decreases |sets|
  {
    var init, last := sets[..|sets| - 1], sets[|sets| - 1];
    if k == |sets| - 1 {
      forall i | 0 <= i < k
        ensures init[i].id != last.id
      {
        NumbersDiffer(sets, nextSetId, i, k);
      }
      NoSet(init, last.id);
    } else {
      NumbersDiffer(sets, nextSetId, k, |sets| - 1);
      OneSet(init, last.id, k);
    }
  }

  lemma {:induction false} NoSet(sets: seq<SwapSet>, id: nat)
    requires forall i :: 0 <= i < |sets| ==> sets[i].id != id
    ensures Keep(sets, IsSet(id)) == []
  {
    if sets != [] {
      NoSet(sets[..|sets| - 1], id);
    }
  }

  /** A live set has exactly its three textures in the flat list. */
  lemma ThreeTextures(sets: seq<SwapSet>, nextSetId: nat, k: nat)
    requires k < |sets| && Numbered(sets, nextSetId)
    ensures Keep(Expand(sets), InSet(sets[k].id)) == sets[k].Block()
  {
    OneSet(sets, nextSetId, k);
    KeepExpand(sets, InSet(sets[k].id), IsSet(sets[k].id));
    assert Expand([sets[k]]) == Expand([]) + sets[k].Block();
  }

  /** With handles apart, a handle is found as the texture it names, of the one set that has it. */
  lemma HandleNamesItsSet(sets: seq<SwapSet>, k: nat, handle: nat)
    requires Apart(sets) && k < |sets| && sets[k].Has(handle)
    ensures Found(Expand(sets), handle) == Some(Texture(handle, sets[k].pid, sets[k].id))
  {
    FoundIsOwner(sets, handle);
    var o := OwnerAt(sets, handle);
    assert o.Some?;
    assert o.value < k ==> !sets[o.value].Meets(sets[k]);
    assert o.value > k ==> !sets[k].Meets(sets[o.value]);
  }

  /** Removing by a property of sets leaves the others as they were, whole and in order. */
  lemma RemovalTouchesNoOther(sets: seq<SwapSet>, handle: nat, pid: nat, s: SwapSet)
    requires s in sets
    ensures s in WithoutPid(sets, pid) <==> s.pid != pid
    ensures s in WithoutSet(sets, handle) <==> OwnerAt(sets, handle).None? || s.id != sets[OwnerAt(sets, handle).value].id
  {
    KeepMembers(sets, OtherOwners(pid), s);
    var k := OwnerAt(sets, handle);
    if k.Some? {
      KeepMembers(sets, OtherSets(sets[k.value].id), s);
    }
  }

  lemma {:induction false} SameNumbers(xs: seq<SwapSet>, ys: seq<SwapSet>, nextSetId: nat)
    requires Numbered(xs, nextSetId) && |xs| == |ys| && forall i :: 0 <= i < |xs| ==> xs[i].id == ys[i].id
    ensures Numbered(ys, nextSetId)
    decreases |xs|
  {
    if xs != [] {
      SameNumbers(xs[..|xs| - 1], ys[..|xs| - 1], xs[|xs| - 1].id);
    }
  }

  lemma {:induction false} FoundStays(ts: seq<Texture>, n: nat, handle: nat)
    requires n <= |ts| && Found(ts[..n], handle).Some?
    ensures Found(ts, handle) == Found(ts[..n], handle)
    decreases |ts|
  {
    if n < |ts| {
      var init := ts[..|ts| - 1];
      assert init[..n] == ts[..n];
      FoundStays(init, n, handle);
    } else {
      assert ts[..n] == ts;
    }
  }

  /** A set still has textures after a process's are removed exactly if it is another's. */
  lemma LiveIds(sets: seq<SwapSet>, nextSetId: nat, pid: nat, s: SwapSet)
    requires Numbered(sets, nextSetId) && s in sets
    ensures (exists t :: t in Expand(WithoutPid(sets, pid)) && t.setId == s.id) <==> s.pid != pid
  {
    var kept := WithoutPid(sets, pid);
    KeepMembers(sets, OtherOwners(pid), s);
    if s.pid != pid {
      ExpandMembers(kept, s.Block()[0]);
    }
    forall t | t in Expand(kept) && t.setId == s.id
      ensures s.pid != pid
    {
      ExpandMembers(kept, t);
      var x :| x in kept && t in x.Block();
      KeepMembers(sets, OtherOwners(pid), x);
      SameSet(sets, nextSetId, x, s);
    }
  }

  lemma SameSet(sets: seq<SwapSet>, nextSetId: nat, x: SwapSet, y: SwapSet)
    requires Numbered(sets, nextSetId) && x in sets && y in sets && x.id == y.id
    ensures x == y
  {
    var i: nat :| i < |sets| && sets[i] == x;
    var j: nat :| j < |sets| && sets[j] == y;
    NumbersDiffer(sets, nextSetId, i, j);
  }

  lemma {:induction false} OwnerAfterBump(sets: seq<SwapSet>, bumped: seq<SwapSet>, handle: nat)
    requires |sets| == |bumped| && forall k :: 0 <= k < |sets| ==> sets[k].Block() == bumped[k].Block()
    ensures OwnerAt(bumped, handle) == OwnerAt(sets, handle)
  {
    if sets != [] {
      var s, b := sets[|sets| - 1], bumped[|sets| - 1];
      assert s.Block()[0] == b.Block()[0] && s.Block()[1] == b.Block()[1] && s.Block()[2] == b.Block()[2];
      OwnerAfterBump(sets[..|sets| - 1], bumped[..|sets| - 1], handle);
    }
  }

  function NotOfSet(id: nat): Texture -> bool {
    (t: Texture) => t.setId != id
  }

  function NotOfPid(pid: nat): Texture -> bool {
    (t: Texture) => t.pid != pid
  }

  function IndexOfOther(id: nat): Current -> bool {
    (c: Current) => c.setId != id
  }

  function InUse(live: set<nat>): Current -> bool {
    (c: Current) => c.setId in live
  }

  /** Both flat lists lose exactly the set of the handle. */
  lemma SetRemoved(sets: seq<SwapSet>, handle: nat, id: nat, nextSetId: nat)
    requires Numbered(sets, nextSetId)
    requires var k := OwnerAt(sets, handle); k.Some? && id == sets[k.value].id
    ensures Keep(Expand(sets), NotOfSet(id)) == Expand(WithoutSet(sets, handle))
    ensures Keep(Indices(sets), IndexOfOther(id)) == Indices(WithoutSet(sets, handle))
    ensures Numbered(WithoutSet(sets, handle), nextSetId)
  {
    KeepExpand(sets, NotOfSet(id), OtherSets(id));
    KeepIndices(sets, IndexOfOther(id), OtherSets(id));
    KeepNumbered(sets, OtherSets(id), nextSetId);
  }

  lemma TexturesOfPidRemoved(sets: seq<SwapSet>, pid: nat)
    ensures Keep(Expand(sets), NotOfPid(pid)) == Expand(WithoutPid(sets, pid))
  {
    KeepExpand(sets, NotOfPid(pid), OtherOwners(pid));
  }

  /** Dropping the indices of sets without textures drops exactly those of the process's sets. */
  lemma IndicesOfPidRemoved(sets: seq<SwapSet>, nextSetId: nat, pid: nat, live: set<nat>)
    requires Numbered(sets, nextSetId) && live == set t | t in Expand(WithoutPid(sets, pid)) :: t.setId
    ensures Keep(Indices(sets), InUse(live)) == Indices(WithoutPid(sets, pid))
  {
    forall s | s in sets
      ensures (s.id in live) == (s.pid != pid)
    {
      LiveIds(sets, nextSetId, pid, s);
    }
    KeepIndices(sets, InUse(live), OtherOwners(pid));
  }

  /** What one eye does to the sets, given the set advanced for the other eye before. */
  datatype EyeStep = EyeStep(sets: seq<SwapSet>, index: Option<nat>, advanced: Option<nat>)

  function StepEye(sets: seq<SwapSet>, handle: nat, advanced: Option<nat>): EyeStep {
    var k := OwnerAt(sets, handle);
    if k.None? then EyeStep(sets, None, advanced)
    else
      var id := sets[k.value].id;
      var sets' := if advanced == Some(id) then sets else Bump(sets, k.value);
      EyeStep(sets', Some(sets'[k.value].Index()), Some(id))
  }

  /** One eye after the other advances the sets of both, a shared one once. */
  lemma TwoEyes(sets: seq<SwapSet>, nextSetId: nat, left: nat, right: nat)
    requires Numbered(sets, nextSetId)
    ensures
      var first := StepEye(sets, left, None);
      var second := StepEye(first.sets, right, first.advanced);
      var l, r := OwnerAt(sets, left), OwnerAt(sets, right);
      && second.sets == NextSets(sets, left, right)
      && first.index == (if l.Some? then Some(second.sets[l.value].Index()) else None)
      && second.index == (if r.Some? then Some(second.sets[r.value].Index()) else None)
  {
    var first := StepEye(sets, left, None);
    OwnerAfterBump(sets, first.sets, right);
    var l, r := OwnerAt(sets, left), OwnerAt(sets, right);
    if l.Some? && r.Some? {
      NumbersDiffer(sets, nextSetId, l.value, r.value);
    }
  }

  /** Advancing touches the sets of the two eyes' handles, each once, and no other. */
  lemma NextAdvancesOwners(sets: seq<SwapSet>, left: nat, right: nat, i: nat)
    requires i < |sets|
    ensures
      var next := NextSets(sets, left, right);
      |next| == |sets|
      && next[i] == if OwnerAt(sets, left) == Some(i) || OwnerAt(sets, right) == Some(i) then sets[i].Advanced() else sets[i]
  {
  }

  datatype Op =
    | Create(pid: nat, device: Option<(nat, nat, nat)>)
    | DestroySet(handle: nat)
    | DestroyAll(pid: nat)
    | NextIndices(left: nat, right: nat)

  /** The live sets and the next set number. */
  datatype Registry = Registry(sets: seq<SwapSet>, nextSetId: nat)

  function Step(r: Registry, op: Op): Registry {
    match op
    case Create(pid, device) => Registry(WithNew(r.sets, r.nextSetId, pid, device), r.nextSetId + 1)
    case DestroySet(handle) => r.(sets := WithoutSet(r.sets, handle))
    case DestroyAll(pid) => r.(sets := WithoutPid(r.sets, pid))
    case NextIndices(left, right) => r.(sets := NextSets(r.sets, left, right))
  }

  function RunOps(ops: seq<Op>): Registry {
    if ops == [] then Registry([], 0) else Step(RunOps(ops[..|ops| - 1]), ops[|ops| - 1])
  }

  /** The system hands out handles that no live texture has. */
  predicate FreshHandles(r: Registry, op: Op) {
    op.Create? && op.device.Some? ==> Apart(WithNew(r.sets, r.nextSetId, op.pid, op.device))
  }

  predicate FreshRun(ops: seq<Op>) {
    ops == [] || (FreshRun(ops[..|ops| - 1]) && FreshHandles(RunOps(ops[..|ops| - 1]), ops[|ops| - 1]))
  }

  lemma StepKeeps(r: Registry, op: Op)
    requires Numbered(r.sets, r.nextSetId) && Apart(r.sets) && FreshHandles(r, op)
    ensures var r' := Step(r, op); Numbered(r'.sets, r'.nextSetId) && Apart(r'.sets)
  {
    match op
    case Create(pid, device) =>
      var added := WithNew(r.sets, r.nextSetId, pid, device);
      NumberedBelow(r.sets, r.nextSetId, r.nextSetId + 1);
      if device.Some? {
        assert added[..|r.sets|] == r.sets;
      }
    case DestroySet(handle) =>
      var k := OwnerAt(r.sets, handle);
      if k.Some? {
        KeepNumbered(r.sets, OtherSets(r.sets[k.value].id), r.nextSetId);
        KeepApart(r.sets, OtherSets(r.sets[k.value].id));
      }
    case DestroyAll(pid) =>
      KeepNumbered(r.sets, OtherOwners(pid), r.nextSetId);
      KeepApart(r.sets, OtherOwners(pid));
    case NextIndices(left, right) =>
      var next := NextSets(r.sets, left, right);
      forall i: nat | i < |r.sets|
        ensures next[i].id == r.sets[i].id && next[i].Block() == r.sets[i].Block()
      {
        NextAdvancesOwners(r.sets, left, right, i);
      }
      SameNumbers(r.sets, next, r.nextSetId);
      SameApart(r.sets, next);
  }

  lemma SameApart(xs: seq<SwapSet>, ys: seq<SwapSet>)
    requires Apart(xs) && |xs| == |ys| && forall i :: 0 <= i < |xs| ==> xs[i].Block() == ys[i].Block()
    ensures Apart(ys)
  {
    forall i | 0 <= i < |xs|
      ensures ys[i].h0 == xs[i].h0 && ys[i].h1 == xs[i].h1 && ys[i].h2 == xs[i].h2
    {
      SameHandles(xs[i], ys[i]);
    }
    forall i, j | 0 <= i < j < |ys|
      ensures !ys[i].Meets(ys[j])
    {
      assert !xs[i].Meets(xs[j]);
    }
  }

  lemma SameHandles(x: SwapSet, y: SwapSet)
    requires x.Block() == y.Block()
    ensures x.h0 == y.h0 && x.h1 == y.h1 && x.h2 == y.h2
  {
    assert x.Block()[0] == y.Block()[0] && x.Block()[1] == y.Block()[1] && x.Block()[2] == y.Block()[2];
  }

  /**
   * In every state a run reaches, if the system never hands out a live handle: a live set has exactly
   * its three textures, its index in use is how often it was advanced modulo three, and each of its
   * handles is found as its own texture.
   */
  lemma {:induction false} ReachableSetsAreWhole(ops: seq<Op>, k: nat, handle: nat)
    requires FreshRun(ops) && k < |RunOps(ops).sets| && RunOps(ops).sets[k].Has(handle)
    ensures
      var s := RunOps(ops).sets[k];
      && Keep(Expand(RunOps(ops).sets), InSet(s.id)) == s.Block()
      && Indices(RunOps(ops).sets)[k] == Current(s.id, s.advances % 3)
      && Found(Expand(RunOps(ops).sets), handle) == Some(Texture(handle, s.pid, s.id))
  {
    RunsStayWhole(ops);
    ThreeTextures(RunOps(ops).sets, RunOps(ops).nextSetId, k);
    HandleNamesItsSet(RunOps(ops).sets, k, handle);
  }

  lemma {:induction false} RunsStayWhole(ops: seq<Op>)
    requires FreshRun(ops)
    ensures Numbered(RunOps(ops).sets, RunOps(ops).nextSetId) && Apart(RunOps(ops).sets)
  {
    if ops != [] {
      RunsStayWhole(ops[..|ops| - 1]);
      StepKeeps(RunOps(ops[..|ops| - 1]), ops[|ops| - 1]);
    }
  }

  // ---- the registry ----

  /** The three handles, if the device gave each. */
  function Made(device: seq<Option<nat>>): Option<(nat, nat, nat)>
    requires |device| == 3
  {
    if device[0].Some? && device[1].Some? && device[2].Some?
    then Some((device[0].value, device[1].value, device[2].value))
    else None
  }

  class SwapTextureSets {
    var textures: seq<Texture>
    var current: seq<Current>
    var nextSetId: nat
    ghost var sets: seq<SwapSet>

    ghost predicate Valid()
      reads this
    {
      textures == Expand(sets) && current == Indices(sets) && Numbered(sets, nextSetId)
    }

    constructor ()
      ensures Valid() && sets == [] && nextSetId == 0
    {
      textures, current, nextSetId, sets := [], [], 0, [];
    }

    /**
     * Create a set from what the device gives for each of its three textures: none if one fails. The set's
     * number is used up either way.
     */
    method Create(pid: nat, device: seq<Option<nat>>) returns (ok: bool, outHandles: seq<nat>)
      requires Valid() && |device| == 3
      modifies this
      ensures Valid() && ok == Made(device).Some? && nextSetId == old(nextSetId) + 1
      ensures sets == WithNew(old(sets), old(nextSetId), pid, Made(device))
      ensures ok ==> outHandles == [device[0].value, device[1].value, device[2].value]
    {
      var setId := nextSetId;
      nextSetId := nextSetId + 1;
      var created: seq<Texture> := [];
      for i := 0 to 3
        invariant |created| == i
        invariant forall k | 0 <= k < i :: device[k].Some? && created[k] == Texture(device[k].value, pid, setId)
      {
        if device[i].None? {
          return false, [];
        }
        created := created + [Texture(device[i].value, pid, setId)];
      }
      ghost var added := SwapSet(setId, pid, device[0].value, device[1].value, device[2].value, 0);
      assert created == [Texture(added.h0, pid, setId), Texture(added.h1, pid, setId), Texture(added.h2, pid, setId)];
      outHandles := [created[0].handle, created[1].handle, created[2].handle];
      textures := textures + created;
      current := current + [Current(setId, 0)];
      ExpandSnoc(sets, added);
      sets := sets + [added];
      return true, outHandles;
    }

    method Find(handle: nat) returns (t: Option<Texture>)
      requires Valid()
      ensures
        var k := OwnerAt(sets, handle);
        t == if k.None? then None else Some(Texture(handle, sets[k.value].pid, sets[k.value].id))
    {
      FoundIsOwner(sets, handle);
      for i := 0 to |textures|
        invariant Found(textures[..i], handle) == None
      {
        assert textures[..i + 1] == textures[..i] + [textures[i]];
        FoundMore(textures[..i], textures[i], handle);
        if textures[i].handle == handle {
          FoundStays(textures, i + 1, handle);
          return Some(textures[i]);
        }
      }
      assert textures[..|textures|] == textures;
      return None;
    }

    method DestroySet(handle: nat)
      requires Valid()
      modifies this
      ensures Valid() && sets == WithoutSet(old(sets), handle) && nextSetId == old(nextSetId)
    {
      var t := Find(handle);
      if t.None? {
        return;
      }
      var setId := t.value.setId;
      ghost var kept := WithoutSet(sets, handle);
      SetRemoved(sets, handle, setId, nextSetId);
      var texturesLeft := Retain(textures, NotOfSet(setId));
      var currentLeft := Retain(current, IndexOfOther(setId));
      textures, current, sets := texturesLeft, currentLeft, kept;
    }

    method DestroyAll(pid: nat)
      requires Valid()
      modifies this
      ensures Valid() && sets == WithoutPid(old(sets), pid) && nextSetId == old(nextSetId)
    {
      ghost var kept := WithoutPid(sets, pid);
      TexturesOfPidRemoved(sets, pid);
      KeepNumbered(sets, OtherOwners(pid), nextSetId);
      textures := Retain(textures, NotOfPid(pid));
      var live := set t | t in textures :: t.setId;
      IndicesOfPidRemoved(sets, nextSetId, pid, live);
      current := Retain(current, InUse(live));
      sets := kept;
    }

    /** Advance the set of an eye's handle unless it was advanced for the other eye; its index, if it has a set. */
    method NextIndex(handle: nat, advanced: Option<nat>) returns (index: Option<nat>, now: Option<nat>)
      requires Valid()
      modifies this
      ensures Valid() && nextSetId == old(nextSetId)
      ensures EyeStep(sets, index, now) == StepEye(old(sets), handle, advanced)
    {
      var t := Find(handle);
      if t.None? {
        return None, advanced;
      }
      ghost var k := OwnerAt(sets, handle).value;
      for j := 0 to |current|
        invariant j <= k
        invariant Valid() && sets == old(sets) && nextSetId == old(nextSetId)
      {
        if current[j].setId != t.value.setId {
          continue;
        }
        NumbersDiffer(sets, nextSetId, j, k);
        if advanced != Some(t.value.setId) {
          BumpedIndices(sets, k);
          NextIndexOf(sets[k]);
          SameNumbers(sets, Bump(sets, k), nextSetId);
          current := current[j := Current(current[j].setId, (current[j].index + 1) % TEXTURES_PER_SET)];
          sets := Bump(sets, k);
        }
        return Some(current[j].index), Some(t.value.setId);
      }
    }

    /** The index each eye draws into next; an eye without a set keeps its entry. */
    method NextIndices(left: nat, right: nat, indices: array<nat>)
      requires Valid() && indices.Length == 2
      modifies this, indices
      ensures Valid() && sets == NextSets(old(sets), left, right) && nextSetId == old(nextSetId)
      ensures
        var l, r := OwnerAt(old(sets), left), OwnerAt(old(sets), right);
        && indices[0] == (if l.Some? then sets[l.value].Index() else old(indices[0]))
        && indices[1] == (if r.Some? then sets[r.value].Index() else old(indices[1]))
    {
      TwoEyes(sets, nextSetId, left, right);
      var l, advanced := NextIndex(left, None);
      if l.Some? {
        indices[0] := l.value;
      }
      var r, _ := NextIndex(right, advanced);
      if r.Some? {
        indices[1] := r.value;
      }
    }
  }
}

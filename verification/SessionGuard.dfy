/**
 * The paired HMD's inputs: tracking receivers store packets under a read lock on the authorized peer,
 * the session's guard revokes it under the write lock and then clears them. Every interleaving is a run.
 */
module SessionGuard {
  import opened Options

  type Ip = nat
  type Pose = int
  type Controllers = (Option<int>, Option<int>)

  const NO_CONTROLLERS: Controllers := (None, None)

  /** What a packet carries. */
  datatype Packet = HeadPose(pose: Pose) | Controller(slot: nat, input: int) | Other

  /** Where a receiver thread is with a packet: waiting, holding the read lock, or let through to store. */
  datatype Receiver = Waiting | Holding(from: Ip, packet: Packet) | Admitted(from: Ip, packet: Packet)

  /** Where the session's thread is: no session, one in progress, or ending one. */
  datatype Phase =
    | NoSession
    | Authorizing(ip: Ip)
    | InSession
    | Revoking
    | Revoked
    | HeadCleared

  datatype State = State(peer: Option<Ip>, phase: Phase, receivers: seq<Receiver>, head: Option<Pose>, controllers: Controllers)

  predicate Reads(r: Receiver) {
    !r.Waiting?
  }

  /** The write lock is held while authorizing and while revoking. */
  predicate Writing(s: State) {
    s.phase.Authorizing? || s.phase.Revoking?
  }

  predicate NoReader(s: State) {
    forall i :: 0 <= i < |s.receivers| ==> !Reads(s.receivers[i])
  }

  datatype Action =
    | LockForWrite(ip: Ip)
    | Authorize
    | LockForRevoke
    | Revoke
    | ClearHead
    | ClearControllers
    | TakeReadLock(thread: nat, from: Ip, packet: Packet)
    | CheckPeer(thread: nat)
    | Store(thread: nat)

  /** Whether a step can be taken: the locks admit one writer or any number of readers. */
  predicate Enabled(s: State, a: Action) {
    match a
    case LockForWrite(_) => s.phase.NoSession? && NoReader(s)
    case Authorize => s.phase.Authorizing?
    case LockForRevoke => s.phase.InSession? && NoReader(s)
    case Revoke => s.phase.Revoking?
    case ClearHead => s.phase.Revoked?
    case ClearControllers => s.phase.HeadCleared?
    case TakeReadLock(t, _, _) => t < |s.receivers| && s.receivers[t].Waiting? && !Writing(s)
    case CheckPeer(t) => t < |s.receivers| && s.receivers[t].Holding?
    case Store(t) => t < |s.receivers| && s.receivers[t].Admitted?
  }

  /** The same if a receiver that is let through gave the lock up before it stores. */
  predicate EnabledUnlocked(s: State, a: Action) {
    match a
    case LockForWrite(_) => s.phase.NoSession? && forall i :: 0 <= i < |s.receivers| ==> !s.receivers[i].Holding?
    case LockForRevoke => s.phase.InSession? && forall i :: 0 <= i < |s.receivers| ==> !s.receivers[i].Holding?
    case _ => Enabled(s, a)
  }

  /** A packet that was let through: its slot in the inputs, if it has one. */
  function Stored(s: State, packet: Packet): State {
    match packet
    case HeadPose(pose) => s.(head := Some(pose))
    case Controller(slot, input) =>
      if slot == 0 then s.(controllers := (Some(input), s.controllers.1))
      else if slot == 1 then s.(controllers := (s.controllers.0, Some(input)))
      else s
    case Other => s
  }

  function Set(s: State, t: nat, r: Receiver): State
    requires t < |s.receivers|
  {
    s.(receivers := s.receivers[t := r])
  }

  function Next(s: State, a: Action): State
    requires EnabledUnlocked(s, a)
  {
    match a
    case LockForWrite(ip) => s.(phase := Authorizing(ip))
    case Authorize => s.(peer := Some(s.phase.ip), phase := InSession)
    case LockForRevoke => s.(phase := Revoking)
    case Revoke => s.(peer := None, phase := Revoked)
    case ClearHead => s.(head := None, phase := HeadCleared)
    case ClearControllers => s.(controllers := NO_CONTROLLERS, phase := NoSession)
    case TakeReadLock(t, from, packet) => Set(s, t, Holding(from, packet))
    case CheckPeer(t) =>
      var r := s.receivers[t];
      Set(s, t, if s.peer == Some(r.from) then Admitted(r.from, r.packet) else Waiting)
    case Store(t) => Stored(Set(s, t, Waiting), s.receivers[t].packet)
  }

  function Start(threads: nat): State {
    State(None, NoSession, seq(threads, _ => Waiting), None, NO_CONTROLLERS)
  }

  predicate Runs(s: State, actions: seq<Action>)
    decreases |actions|
  {
    actions == [] || (Enabled(s, actions[0]) && Runs(Next(s, actions[0]), actions[1..]))
  }

  function End(s: State, actions: seq<Action>): State
    requires Runs(s, actions)
    decreases |actions|
  {
    if actions == [] then s else End(Next(s, actions[0]), actions[1..])
  }

  // ---- the protocol's invariant ----

  /** No input is left. */
  predicate Empty(s: State) {
    s.head == None && s.controllers == NO_CONTROLLERS
  }

  /**
   * A receiver let through is from the authorized peer; nobody reads while the lock is held for writing;
   * a peer is authorized exactly during a session; and what was cleared is still empty.
   */
  predicate Safe(s: State) {
    && (forall i :: 0 <= i < |s.receivers| && s.receivers[i].Admitted? ==> s.peer == Some(s.receivers[i].from))
    && (Writing(s) ==> NoReader(s))
    && (s.peer.Some? <==> s.phase.InSession? || s.phase.Revoking?)
    && (s.phase.HeadCleared? ==> s.head == None)
    && (s.phase.NoSession? || s.phase.Authorizing? ==> Empty(s))
  }

  lemma NextIsSafe(s: State, a: Action)
    requires Safe(s) && Enabled(s, a)
    ensures Safe(Next(s, a))
  {
    var s' := Next(s, a);
    match a
    case CheckPeer(t) =>
    case TakeReadLock(t, from, packet) =>
    case Store(t) => StoreIsSafe(s, t);
    case _ =>
  }

  /** A packet is only ever stored in a session. */
  lemma StoreIsSafe(s: State, t: nat)
    requires Safe(s) && Enabled(s, Store(t))
    ensures s.phase.InSession? && Safe(Next(s, Store(t)))
  {
    assert s.peer == Some(s.receivers[t].from);
    assert Reads(s.receivers[t]);
  }

  lemma {:induction false} RunsAreSafe(s: State, actions: seq<Action>)
    requires Safe(s) && Runs(s, actions)
    ensures Safe(End(s, actions))
    decreases |actions|
  {
    if actions != [] {
      NextIsSafe(s, actions[0]);
      RunsAreSafe(Next(s, actions[0]), actions[1..]);
    }
  }

  /**
   * In every interleaving of any number of receiver threads with sessions that start and end, the head
   * pose and the controllers are empty from the end of a clear until the next peer is authorized.
   */
  lemma EmptyBetweenSessions(threads: nat, actions: seq<Action>)
    requires Runs(Start(threads), actions)
    ensures
      var s := End(Start(threads), actions);
      s.phase.NoSession? || s.phase.Authorizing? ==> Empty(s) && s.peer == None
  {
    RunsAreSafe(Start(threads), actions);
  }

  /** Whatever is stored came from the peer authorized at that moment. */
  lemma OnlyThePeerStores(threads: nat, actions: seq<Action>, t: nat)
    requires Runs(Start(threads), actions) && Enabled(End(Start(threads), actions), Store(t))
    ensures
      var s := End(Start(threads), actions);
      s.peer == Some(s.receivers[t].from) && s.phase.InSession?
  {
    RunsAreSafe(Start(threads), actions);
    StoreIsSafe(End(Start(threads), actions), t);
  }

  // ---- what the paired HMD sends arrives ----

  lemma StepThenRun(s: State, a: Action, rest: seq<Action>)
    requires Enabled(s, a) && Runs(Next(s, a), rest)
    ensures Runs(s, [a] + rest) && End(s, [a] + rest) == End(Next(s, a), rest)
  {
    assert ([a] + rest)[1..] == rest;
  }

  /** The three steps of a receiver with one packet. */
  function Deliver(t: nat, from: Ip, packet: Packet): seq<Action> {
    [TakeReadLock(t, from, packet), CheckPeer(t), Store(t)]
  }

  /** A packet goes to its own slot: the head pose, the first or the second controller, or none. */
  lemma StoredInItsSlot(s: State, packet: Packet)
    ensures
      var s' := Stored(s, packet);
      && s'.peer == s.peer && s'.phase == s.phase && s'.receivers == s.receivers
      && s'.head == (if packet.HeadPose? then Some(packet.pose) else s.head)
      && s'.controllers.0 == (if packet.Controller? && packet.slot == 0 then Some(packet.input) else s.controllers.0)
      && s'.controllers.1 == (if packet.Controller? && packet.slot == 1 then Some(packet.input) else s.controllers.1)
  {
  }

  /** In a session a waiting receiver can take the paired HMD's packet through, and only its slot changes. */
  lemma PeerIsHeard(s: State, t: nat, from: Ip, packet: Packet)
    requires Safe(s) && s.phase.InSession? && s.peer == Some(from) && t < |s.receivers| && s.receivers[t].Waiting?
    ensures Runs(s, Deliver(t, from, packet))
    ensures End(s, Deliver(t, from, packet)) == Stored(s, packet)
  {
    var take, check := TakeReadLock(t, from, packet), CheckPeer(t);
    var s1 := Next(s, take);
    var s2 := Next(s1, check);
    assert s2.receivers == s.receivers[t := Admitted(from, packet)];
    var s3 := Next(s2, Store(t));
    assert s3.receivers == s.receivers;
    assert End(s3, []) == s3;
    StepThenRun(s2, Store(t), []);
    StepThenRun(s1, check, [Store(t)]);
    StepThenRun(s, take, [check, Store(t)]);
    assert [take] + [check, Store(t)] == Deliver(t, from, packet);
  }

  /** Anyone else's packet is dropped after the check, in every phase that lets it be read. */
  lemma StrangersAreNotHeard(s: State, t: nat, from: Ip, packet: Packet)
    requires s.peer != Some(from) && Enabled(s, TakeReadLock(t, from, packet))
    ensures
      var actions := [TakeReadLock(t, from, packet), CheckPeer(t)];
      Runs(s, actions) && End(s, actions) == s
  {
    var take, check := TakeReadLock(t, from, packet), CheckPeer(t);
    var s1 := Next(s, take);
    var s2 := Next(s1, check);
    assert s2.receivers == s.receivers;
    assert End(s2, []) == s2;
    StepThenRun(s1, check, []);
    StepThenRun(s, take, [check]);
  }

  // ---- a session can always end ----

  /** Every receiver from thread `t` on can finish with its packet. */
  lemma {:induction false} Drain(s: State, t: nat) returns (actions: seq<Action>)
    requires Safe(s) && s.phase.InSession? && t <= |s.receivers|
    requires forall i :: 0 <= i < t ==> s.receivers[i].Waiting?
    ensures Runs(s, actions) && End(s, actions).phase.InSession? && NoReader(End(s, actions))
    decreases |s.receivers| - t, if t < |s.receivers| then ToGo(s.receivers[t]) else 0
  {
    if t == |s.receivers| {
      actions := [];
    } else if s.receivers[t].Waiting? {
      actions := Drain(s, t + 1);
    } else {
      var a := if s.receivers[t].Holding? then CheckPeer(t) else Store(t);
      NextIsSafe(s, a);
      var rest := Drain(Next(s, a), t);
      StepThenRun(s, a, rest);
      actions := [a] + rest;
    }
  }

  /** Steps a receiver has still to take. */
  function ToGo(r: Receiver): nat {
    match r
    case Waiting => 0
    case Holding(_, _) => 2
    case Admitted(_, _) => 1
  }

  lemma Clears(s: State) returns (actions: seq<Action>)
    requires Safe(s) && !s.phase.NoSession? && !s.phase.Authorizing? && (s.phase.InSession? ==> NoReader(s))
    ensures Runs(s, actions) && End(s, actions).phase.NoSession?
    decreases match s.phase case InSession => 4 case Revoking => 3 case Revoked => 2 case _ => 1
  {
    var a := match s.phase
      case InSession => LockForRevoke
      case Revoking => Revoke
      case Revoked => ClearHead
      case _ => ClearControllers;
    NextIsSafe(s, a);
    var rest := [];
    if a != ClearControllers {
      rest := Clears(Next(s, a));
    }
    StepThenRun(s, a, rest);
    actions := [a] + rest;
  }

  lemma {:induction false} RunThenRun(s: State, first: seq<Action>, rest: seq<Action>)
    requires Runs(s, first) && Runs(End(s, first), rest)
    ensures Runs(s, first + rest) && End(s, first + rest) == End(End(s, first), rest)
    decreases |first|
  {
    if first == [] {
      assert first + rest == rest;
    } else {
      var next := Next(s, first[0]);
      RunThenRun(next, first[1..], rest);
      assert first + rest == [first[0]] + (first[1..] + rest);
      StepThenRun(s, first[0], first[1..] + rest);
    }
  }

  /** From wherever a run got to, the session can end with the peer revoked and nothing left: no thread blocks it. */
  lemma SessionCanEnd(threads: nat, done: seq<Action>) returns (actions: seq<Action>)
    requires Runs(Start(threads), done)
    ensures
      var s := End(Start(threads), done);
      && Runs(s, actions)
      && End(s, actions).phase.NoSession? && End(s, actions).peer == None && Empty(End(s, actions))
  {
    RunsAreSafe(Start(threads), done);
    var s := End(Start(threads), done);
    actions := CanEnd(s);
    RunsAreSafe(s, actions);
  }

  lemma CanEnd(s: State) returns (actions: seq<Action>)
    requires Safe(s)
    ensures Runs(s, actions) && End(s, actions).phase.NoSession?
  {
    if s.phase.NoSession? {
      actions := [];
    } else if s.phase.Authorizing? {
      NextIsSafe(s, Authorize);
      actions := EndsFrom(Next(s, Authorize));
      StepThenRun(s, Authorize, actions);
      actions := [Authorize] + actions;
    } else {
      actions := EndsFrom(s);
    }
  }

  lemma EndsFrom(s: State) returns (actions: seq<Action>)
    requires Safe(s) && !s.phase.NoSession? && !s.phase.Authorizing?
    ensures Runs(s, actions) && End(s, actions).phase.NoSession?
  {
    if s.phase.InSession? {
      var first := Drain(s, 0);
      RunsAreSafe(s, first);
      var rest := Clears(End(s, first));
      RunThenRun(s, first, rest);
      actions := first + rest;
    } else {
      actions := Clears(s);
    }
  }

  // ---- why the packet is stored under the lock ----

  predicate RunsUnlocked(s: State, actions: seq<Action>)
    decreases |actions|
  {
    actions == [] || (EnabledUnlocked(s, actions[0]) && RunsUnlocked(Next(s, actions[0]), actions[1..]))
  }

  function EndUnlocked(s: State, actions: seq<Action>): State
    requires RunsUnlocked(s, actions)
    decreases |actions|
  {
    if actions == [] then s else EndUnlocked(Next(s, actions[0]), actions[1..])
  }

  lemma StepUnlocked(s: State, a: Action, rest: seq<Action>)
    requires EnabledUnlocked(s, a) && RunsUnlocked(Next(s, a), rest)
    ensures RunsUnlocked(s, [a] + rest) && EndUnlocked(s, [a] + rest) == EndUnlocked(Next(s, a), rest)
  {
    assert ([a] + rest)[1..] == rest;
  }

  /** A packet is let through, the session ends and is cleared, and only then is the packet stored. */
  function LateStore(ip: Ip, pose: Pose): seq<Action> {
    [LockForWrite(ip), Authorize, TakeReadLock(0, ip, HeadPose(pose)), CheckPeer(0)]
    + [LockForRevoke, Revoke, ClearHead, ClearControllers, Store(0)]
  }

  lemma LateStoreLeaks(ip: Ip, pose: Pose)
    ensures
      var s := State(Some(ip), InSession, [Admitted(ip, HeadPose(pose))], None, NO_CONTROLLERS);
      var actions := [LockForRevoke, Revoke, ClearHead, ClearControllers, Store(0)];
      && RunsUnlocked(s, actions)
      && EndUnlocked(s, actions) == State(None, NoSession, [Waiting], Some(pose), NO_CONTROLLERS)
  {
    var s := State(Some(ip), InSession, [Admitted(ip, HeadPose(pose))], None, NO_CONTROLLERS);
    var s1 := Next(s, LockForRevoke);
    var s2 := Next(s1, Revoke);
    var s3 := Next(s2, ClearHead);
    var s4 := Next(s3, ClearControllers);
    assert EndUnlocked(Next(s4, Store(0)), []) == Next(s4, Store(0));
    StepUnlocked(s4, Store(0), []);
    StepUnlocked(s3, ClearControllers, [Store(0)]);
    StepUnlocked(s2, ClearHead, [ClearControllers, Store(0)]);
    StepUnlocked(s1, Revoke, [ClearHead, ClearControllers, Store(0)]);
    StepUnlocked(s, LockForRevoke, [Revoke, ClearHead, ClearControllers, Store(0)]);
  }

  /** So without the lock a run from the start leaves a pose with no session and no peer. */
  lemma UnlockedStoreLeaks(ip: Ip, pose: Pose)
    ensures RunsUnlocked(Start(1), LateStore(ip, pose))
    ensures EndUnlocked(Start(1), LateStore(ip, pose)) == State(None, NoSession, [Waiting], Some(pose), NO_CONTROLLERS)
  {
    var late := [LockForRevoke, Revoke, ClearHead, ClearControllers, Store(0)];
    var take, check := TakeReadLock(0, ip, HeadPose(pose)), CheckPeer(0);
    var s := Start(1);
    assert s.receivers == [Waiting];
    var s1 := Next(s, LockForWrite(ip));
    var s2 := Next(s1, Authorize);
    var s3 := Next(s2, take);
    assert Next(s3, check) == State(Some(ip), InSession, [Admitted(ip, HeadPose(pose))], None, NO_CONTROLLERS);
    LateStoreLeaks(ip, pose);
    StepUnlocked(s3, check, late);
    StepUnlocked(s2, take, [check] + late);
    StepUnlocked(s1, Authorize, [take] + ([check] + late));
    StepUnlocked(s, LockForWrite(ip), [Authorize] + ([take] + ([check] + late)));
    assert LateStore(ip, pose) == [LockForWrite(ip)] + ([Authorize] + ([take] + ([check] + late)));
  }
}

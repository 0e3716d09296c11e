/** The in-flight accesses and the ports of a memory module: memory/Module.cc. */
module InFlight {

  datatype AccessType =
    | Invalid | Load | Store | NCStore | ReadAlloc | NoReadAlloc | WriteDealloc | NoWriteDealloc

  // ---------- The list of accesses as a value ----------

  /** What an in-flight access records: the fields of its frame. */
  datatype Access = Access(frame: Frame, block: nat, kind: AccessType, coalesced: bool, master: Frame?,
                           portLocked: bool, waiters: seq<Frame>)

  type Log = seq<Access>

  /** No other access has the frame of access `i`. */
  predicate OwnFrame(s: Log, i: nat)
    requires i < |s|
  {
    forall j {:trigger s[j]} :: 0 <= j < |s| && j != i ==> s[j].frame != s[i].frame
  }

  predicate OneFrameEach(s: Log) {
    forall i {:trigger OwnFrame(s, i)} :: 0 <= i < |s| ==> OwnFrame(s, i)
  }

  lemma TwoFrames(s: Log, i: nat, j: nat)
    requires OneFrameEach(s) && i < |s| && j < |s| && s[i].frame == s[j].frame
    ensures i == j
  {
    assert OwnFrame(s, i);
  }

  lemma SameFrames(s: Log, t: Log)
    requires OneFrameEach(s) && |t| == |s| && forall k :: 0 <= k < |s| ==> t[k].frame == s[k].frame
    ensures OneFrameEach(t)
  {
    forall i | 0 <= i < |t| ensures OwnFrame(t, i) {
      assert OwnFrame(s, i);
    }
  }

  lemma AddedFrames(s: Log, a: Access)
    requires OneFrameEach(s) && forall k :: 0 <= k < |s| ==> s[k].frame != a.frame
    ensures OneFrameEach(s + [a])
  {
    forall i | 0 <= i < |s| + 1 ensures OwnFrame(s + [a], i) {
      if i < |s| {
        assert OwnFrame(s, i);
      }
    }
  }

  predicate CanShare(kind: AccessType) {
    kind == Load || kind == Store || kind == NCStore
  }

  /** Accesses `j` to `i` are all of the type of access `i`, and for stores all on its block. */
  predicate Group(s: Log, j: nat, i: nat)
    requires j <= i < |s|
  {
    forall k {:trigger s[k]} :: j <= k <= i ==>
      s[k].kind == s[i].kind && (s[i].kind != Load ==> s[k].block == s[i].block)
  }

  /** Access `j` is the master of access `i`. */
  predicate MasterAt(s: Log, j: nat, i: nat)
    requires j < i < |s|
  {
    && s[i].master == s[j].frame && s[j].block == s[i].block && s[j].master == null
    && s[i].frame in s[j].waiters
    && CanShare(s[i].kind) && Group(s, j, i)
  }

  /** A master of access `i` is older, on the same block, of the same type and without a
      master; everything between the two is of that type too. */
  predicate MasterOk(s: Log, i: nat)
    requires i < |s|
  {
    s[i].master != null ==> s[i].coalesced && exists j :: 0 <= j < i && MasterAt(s, j, i)
  }

  function Coalescings(s: Log): nat {
    if s == [] then 0 else Coalescings(s[..|s| - 1]) + if s[|s| - 1].coalesced then 1 else 0
  }

  /** Holds in every reachable state. */
  predicate Coherent(s: Log) {
    OneFrameEach(s) && forall i {:trigger MasterOk(s, i)} :: 0 <= i < |s| ==> MasterOk(s, i)
  }

  // ---------- Looking for a master ----------

  /** The youngest access before `q` on the block, if only loads follow it. */
  function LoadScan(s: Log, q: nat, block: nat): (j: int)
    requires q <= |s|
    ensures -1 <= j < q
  {
    if q == 0 || s[q - 1].kind != Load then -1
    else if s[q - 1].block == block then q - 1
    else LoadScan(s, q - 1, block)
  }

  /** Access `j` is one that an access at `q` may join. */
  predicate Candidate(s: Log, q: nat, kind: AccessType, block: nat, j: int)
    requires q <= |s|
  {
    && 0 <= j < q && s[j].block == block && CanShare(kind)
    && (forall k {:trigger s[k]} :: j <= k < q ==> s[k].kind == kind)
    && (kind != Load ==> j == q - 1 && !s[j].portLocked)
  }

  predicate YoungestCandidate(s: Log, q: nat, kind: AccessType, block: nat, j: int)
    requires q <= |s|
  {
    Candidate(s, q, kind, block, j)
    && forall i {:trigger Candidate(s, q, kind, block, i)} :: j < i < q ==> !Candidate(s, q, kind, block, i)
  }

  /** The access that one of the given type and block, at position `q`, joins; or -1. */
  function Joined(s: Log, q: nat, kind: AccessType, block: nat): (j: int)
    requires q <= |s|
    ensures -1 <= j < q
  {
    match kind
    case Load => LoadScan(s, q, block)
    case Store => if q > 0 && s[q - 1].kind == kind && s[q - 1].block == block &&
      !s[q - 1].portLocked then q - 1 else -1
    case NCStore => if q > 0 && s[q - 1].kind == kind && s[q - 1].block == block &&
      !s[q - 1].portLocked then q - 1 else -1
    case _ => -1
  }

  lemma {:induction false} LoadScanYoungest(s: Log, q: nat, block: nat)
    requires q <= |s|
    ensures LoadScan(s, q, block) == -1 ==> forall j :: !Candidate(s, q, Load, block, j)
    ensures LoadScan(s, q, block) != -1 ==> YoungestCandidate(s, q, Load, block, LoadScan(s, q, block))
  {
    if q > 0 && s[q - 1].kind == Load && s[q - 1].block != block {
      LoadScanYoungest(s, q - 1, block);
      forall j | 0 <= j < q ensures Candidate(s, q, Load, block, j) ==> Candidate(s, q - 1, Load, block, j) {
      }
    }
  }

  /** The search finds the youngest candidate, and fails only when there is none. */
  lemma JoinedIsYoungest(s: Log, q: nat, kind: AccessType, block: nat)
    requires q <= |s|
    ensures Joined(s, q, kind, block) == -1 ==> forall j :: !Candidate(s, q, kind, block, j)
    ensures Joined(s, q, kind, block) != -1 ==> YoungestCandidate(s, q, kind, block, Joined(s, q, kind, block))
  {
    LoadScanYoungest(s, q, block);
  }

  /** There is an access to the block with a smaller identifier. */
  predicate OlderId(s: Log, block: nat, id: int) {
    exists i :: 0 <= i < |s| && s[i].block == block && s[i].frame.id < id
  }

  /** The master of an access joining access `j`. */
  function Leader(a: Access): Frame {
    if a.master != null then a.master else a.frame
  }

  // ---------- Steps ----------

  function Fresh(f: Frame, block: nat, kind: AccessType): Access {
    Access(f, block, kind, false, null, false, [])
  }

  /** The last access joins the master. */
  function WithMaster(s: Log, m: Frame): (t: Log)
    requires s != []
  {
    s[|s| - 1 := s[|s| - 1].(coalesced := true, master := m)]
  }

  /** Frame `f` waits for the access of frame `m` to complete. */
  function WithWaiter(s: Log, m: Frame, f: Frame): (t: Log)
    ensures |t| == |s|
    ensures forall k :: 0 <= k < |s| ==>
      t[k] == if s[k].frame == m then s[k].(waiters := s[k].waiters + [f]) else s[k]
  {
    seq(|s|, k requires 0 <= k < |s| =>
      if s[k].frame == m then s[k].(waiters := s[k].waiters + [f]) else s[k])
  }

  /** The master for the access at `q`, or null. */
  function MasterFor(s: Log, q: nat, kind: AccessType, block: nat, id: int): (m: Frame?)
    requires q <= |s|
  {
    var j := Joined(s, q, kind, block);
    if j == -1 || !OlderId(s, block, id) then null else Leader(s[j])
  }

  /** There is no master exactly when no older access to the block is in flight or none can be
      joined; otherwise it is the youngest that can be joined, or the master of that. */
  lemma MasterForMeans(s: Log, q: nat, kind: AccessType, block: nat, id: int)
    requires q <= |s|
    ensures MasterFor(s, q, kind, block, id) == null <==>
      !OlderId(s, block, id) || forall j :: !Candidate(s, q, kind, block, j)
    ensures forall j {:trigger YoungestCandidate(s, q, kind, block, j)} ::
      YoungestCandidate(s, q, kind, block, j) && OlderId(s, block, id) ==>
        MasterFor(s, q, kind, block, id) == if s[j].master != null then s[j].master else s[j].frame
  {
    JoinedIsYoungest(s, q, kind, block);
    var i := Joined(s, q, kind, block);
    forall j | YoungestCandidate(s, q, kind, block, j) ensures j == i {
      assert Candidate(s, q, kind, block, j) && YoungestCandidate(s, q, kind, block, i);
    }
    if i != -1 {
      assert Candidate(s, q, kind, block, i);
    }
  }

  /** The last access follows the master, if there is one. */
  function Followed(s: Log, m: Frame?, f: Frame): (t: Log)
    requires s != []
  {
    if m == null then s else WithWaiter(WithMaster(s, m), m, f)
  }

  /** An access starts and follows a master, if there is one. */
  function Begun(s: Log, a: Access): (t: Log) {
    Followed(s + [a], MasterFor(s + [a], |s|, a.kind, a.block, a.frame.id), a.frame)
  }

  function Orphaned(s: Log, f: Frame): (t: Log)
    ensures |t| == |s|
    ensures forall k :: 0 <= k < |s| ==> t[k] == if s[k].master == f then s[k].(master := null) else s[k]
  {
    seq(|s|, k requires 0 <= k < |s| => if s[k].master == f then s[k].(master := null) else s[k])
  }

  function Without<T>(s: seq<T>, i: nat): (t: seq<T>)
    requires i < |s|
    ensures |t| == |s| - 1
  {
    if i == |s| - 1 then s[..i] else Without(s[..|s| - 1], i) + [s[|s| - 1]]
  }

  lemma {:induction false} WithoutParts<T>(a: seq<T>, x: T, b: seq<T>)
    ensures Without(a + [x] + b, |a|) == a + b
  {
    var s := a + [x] + b;
    if b == [] {
      assert s[..|a|] == a + b;
    } else {
      WithoutParts(a, x, b[..|b| - 1]);
      assert s[..|s| - 1] == a + [x] + b[..|b| - 1];
      assert a + b[..|b| - 1] + [b[|b| - 1]] == a + b;
    }
  }

  lemma WithoutSlices<T>(s: seq<T>, i: nat)
    requires i < |s|
    ensures Without(s, i) == s[..i] + s[i + 1..]
  {
    AroundIndex(s, i);
    WithoutParts(s[..i], s[i], s[i + 1..]);
  }

  /** Access `i` completes. */
  function Ended(s: Log, i: nat): (t: Log)
    requires i < |s|
  {
    Orphaned(Without(s, i), s[i].frame)
  }

  function Flagged(s: Log, i: nat, locked: bool): (t: Log)
    requires i < |s|
  {
    s[i := s[i].(portLocked := locked)]
  }

  // ---------- Every step keeps the list coherent ----------

  predicate IsNew(s: Log, a: Access) {
    && a.kind != Invalid && !a.coalesced && a.master == null
    && forall k {:trigger s[k]} :: 0 <= k < |s| ==> s[k].frame != a.frame
  }

  /** Masters are found by frame, type, block and waiters only. */
  predicate SameLinks(s: Log, t: Log) {
    && |s| <= |t|
    && (forall k {:trigger t[k]} {:trigger s[k]} :: 0 <= k < |s| ==>
         && t[k].frame == s[k].frame && t[k].kind == s[k].kind && t[k].block == s[k].block
         && t[k].master == s[k].master && t[k].coalesced == s[k].coalesced)
    && (forall k, f {:trigger f in t[k].waiters} :: 0 <= k < |s| && f in s[k].waiters ==> f in t[k].waiters)
  }

  lemma MasterStays(s: Log, t: Log, i: nat)
    requires SameLinks(s, t) && i < |s| && MasterOk(s, i)
    ensures MasterOk(t, i)
  {
    if s[i].master != null {
      var j :| 0 <= j < i && MasterAt(s, j, i);
      assert MasterAt(t, j, i);
    }
  }

  lemma AllMastersStay(s: Log, t: Log)
    requires SameLinks(s, t) && Coherent(s)
    ensures forall i :: 0 <= i < |s| ==> MasterOk(t, i)
  {
    forall i | 0 <= i < |s| ensures MasterOk(t, i) {
      assert MasterOk(s, i);
      MasterStays(s, t, i);
    }
  }

  /** The master found for a new last access is one for it. */
  lemma MasterFits(s: Log, a: Access, m: Frame) returns (i: nat)
    requires Coherent(s) && IsNew(s, a)
    requires MasterFor(s + [a], |s|, a.kind, a.block, a.frame.id) == m
    ensures i < |s| && s[i].frame == m && s[i].master == null && s[i].block == a.block && CanShare(a.kind)
    ensures forall k {:trigger s[k]} :: i <= k < |s| ==> s[k].kind == a.kind && (a.kind != Load ==>
      s[k].block == a.block)
  {
    var j := Joined(s + [a], |s|, a.kind, a.block);
    JoinedIsYoungest(s + [a], |s|, a.kind, a.block);
    assert Candidate(s + [a], |s|, a.kind, a.block, j);
    assert forall k :: j <= k < |s| ==> s[k] == (s + [a])[k];
    if s[j].master == null {
      i := j;
    } else {
      assert MasterOk(s, j);
      i :| 0 <= i < j && MasterAt(s, i, j);
    }
  }

  lemma BegunCoherent(s: Log, a: Access)
    requires Coherent(s) && IsNew(s, a)
    ensures Coherent(Begun(s, a))
  {
    var t := Begun(s, a);
    var m := MasterFor(s + [a], |s|, a.kind, a.block, a.frame.id);
    AllMastersStay(s, t);
    if m != null {
      var i := MasterFits(s, a, m);
      assert MasterAt(t, i, |s|);
    }
    assert MasterOk(t, |s|);
    AddedFrames(s, a);
    SameFrames(s + [a], t);
  }

  lemma FlaggedCoherent(s: Log, i: nat, locked: bool)
    requires Coherent(s) && i < |s|
    ensures Coherent(Flagged(s, i, locked))
  {
    AllMastersStay(s, Flagged(s, i, locked));
    SameFrames(s, Flagged(s, i, locked));
  }

  lemma WithWaiterCoherent(s: Log, m: Frame, f: Frame)
    requires Coherent(s)
    ensures Coherent(WithWaiter(s, m, f))
  {
    AllMastersStay(s, WithWaiter(s, m, f));
    SameFrames(s, WithWaiter(s, m, f));
  }

  /** Where access `k` of the shorter list comes from. */
  function From(i: nat, k: nat): nat {
    if k < i then k else k + 1
  }

  lemma EndedAt(s: Log, i: nat, k: nat)
    requires i < |s| && k < |s| - 1
    ensures Ended(s, i)[k] ==
      if s[From(i, k)].master == s[i].frame then s[From(i, k)].(master := null) else s[From(i, k)]
  {
    WithoutSlices(s, i);
  }

  lemma EndedMaster(s: Log, i: nat, k: nat)
    requires Coherent(s) && i < |s| && k < |s| - 1
    ensures MasterOk(Ended(s, i), k)
  {
    var t, k0 := Ended(s, i), From(i, k);
    EndedAt(s, i, k);
    if t[k].master != null {
      assert MasterOk(s, k0);
      var j0 :| 0 <= j0 < k0 && MasterAt(s, j0, k0);
      var j := if j0 < i then j0 else j0 - 1;
      EndedAt(s, i, j);
      forall l | j <= l <= k
        ensures t[l].kind == t[k].kind && (t[k].kind != Load ==> t[l].block == t[k].block)
      {
        EndedAt(s, i, l);
        assert s[From(i, l)].kind == s[k0].kind;
      }
      assert MasterAt(t, j, k);
    }
  }

  lemma EndedFrames(s: Log, i: nat)
    requires OneFrameEach(s) && i < |s|
    ensures OneFrameEach(Ended(s, i))
  {
    var t := Ended(s, i);
    forall k | 0 <= k < |t| ensures OwnFrame(t, k) {
      EndedAt(s, i, k);
      forall l | 0 <= l < |t| && l != k ensures t[l].frame != t[k].frame {
        EndedAt(s, i, l);
        assert OwnFrame(s, From(i, k));
      }
    }
  }

  lemma EndedCoherent(s: Log, i: nat)
    requires Coherent(s) && i < |s|
    ensures Coherent(Ended(s, i))
  {
    var t := Ended(s, i);
    forall k | 0 <= k < |t| ensures MasterOk(t, k) {
      EndedMaster(s, i, k);
    }
    EndedFrames(s, i);
  }

  // ---------- The counter of coalesced accesses ----------

  lemma {:induction false} CoalescingsAdd(s: Log, t: Log)
    ensures Coalescings(s + t) == Coalescings(s) + Coalescings(t)
  {
    if t == [] {
      assert s + t == s;
    } else {
      CoalescingsAdd(s, t[..|t| - 1]);
      assert (s + t)[..|s + t| - 1] == s + t[..|t| - 1];
    }
  }

  lemma {:induction false} CoalescingsSame(s: Log, t: Log)
    requires |s| == |t| && forall k :: 0 <= k < |s| ==> s[k].coalesced == t[k].coalesced
    ensures Coalescings(s) == Coalescings(t)
  {
    if s != [] {
      CoalescingsSame(s[..|s| - 1], t[..|t| - 1]);
    }
  }

  lemma AddedCount(s: Log, a: Access)
    ensures Coalescings(s + [a]) == Coalescings(s) + if a.coalesced then 1 else 0
  {
    assert (s + [a])[..|s|] == s;
  }

  lemma WithWaiterCount(s: Log, m: Frame, f: Frame)
    ensures Coalescings(WithWaiter(s, m, f)) == Coalescings(s)
  {
    CoalescingsSame(s, WithWaiter(s, m, f));
  }

  lemma JoinedCount(s: Log, a: Access, m: Frame)
    ensures Coalescings(WithMaster(s + [a], m)) == Coalescings(s) + 1
  {
    var b := a.(coalesced := true, master := m);
    assert WithMaster(s + [a], m) == s + [b];
    AddedCount(s, b);
  }

  lemma BegunCount(s: Log, a: Access)
    requires !a.coalesced
    ensures Coalescings(Begun(s, a)) ==
      Coalescings(s) + if MasterFor(s + [a], |s|, a.kind, a.block, a.frame.id) != null then 1 else 0
  {
    var m := MasterFor(s + [a], |s|, a.kind, a.block, a.frame.id);
    AddedCount(s, a);
    if m != null {
      JoinedCount(s, a, m);
      WithWaiterCount(WithMaster(s + [a], m), m, a.frame);
    }
  }

  lemma CountAround(a: Log, x: Access, b: Log)
    ensures Coalescings(a + [x] + b) == Coalescings(a + b) + if x.coalesced then 1 else 0
  {
    CoalescingsAdd(a + [x], b);
    AddedCount(a, x);
    CoalescingsAdd(a, b);
  }

  lemma OrphanedCount(s: Log, f: Frame)
    ensures Coalescings(Orphaned(s, f)) == Coalescings(s)
  {
    CoalescingsSame(s, Orphaned(s, f));
  }

  lemma AroundIndex<T>(s: seq<T>, i: nat)
    requires i < |s|
    ensures s == s[..i] + [s[i]] + s[i + 1..]
  {
  }

  lemma EndedCount(s: Log, i: nat)
    requires i < |s|
    ensures Coalescings(Ended(s, i)) == Coalescings(s) - if s[i].coalesced then 1 else 0
  {
    var a, b := s[..i], s[i + 1..];
    AroundIndex(s, i);
    WithoutSlices(s, i);
    OrphanedCount(a + b, s[i].frame);
    CountAround(a, s[i], b);
  }

  /** The counter never exceeds the number of accesses. */
  lemma {:induction false} CoalescingsBound(s: Log)
    ensures Coalescings(s) <= |s|
  {
    if s != [] {
      CoalescingsBound(s[..|s| - 1]);
    }
  }

  // ---------- Runs ----------

  datatype Step =
    | Begin(access: Access)
    | Finish(index: nat)
    | Wait(master: Frame, waiter: Frame)
    | PortFlag(access_index: nat, locked: bool)

  datatype State = State(log: Log, count: int)

  predicate Enabled(st: State, step: Step) {
    match step
    case Begin(a) => IsNew(st.log, a)
    case Finish(i) => i < |st.log|
    case Wait(_, _) => true
    case PortFlag(i, _) => i < |st.log|
  }

  /** One step of the module; the counter moves as the code moves it. */
  function Next(st: State, step: Step): State
    requires Enabled(st, step)
  {
    match step
    case Begin(a) =>
      var m := MasterFor(st.log + [a], |st.log|, a.kind, a.block, a.frame.id);
      State(Begun(st.log, a), st.count + if m != null then 1 else 0)
    case Finish(i) => State(Ended(st.log, i), st.count - if st.log[i].coalesced then 1 else 0)
    case Wait(m, f) => State(WithWaiter(st.log, m, f), st.count)
    case PortFlag(i, locked) => State(Flagged(st.log, i, locked), st.count)
  }

  predicate Run(states: seq<State>, steps: seq<Step>) {
    && |states| == |steps| + 1 && states[0] == State([], 0)
    && forall i {:trigger steps[i]} :: 0 <= i < |steps| ==>
         Enabled(states[i], steps[i]) && states[i + 1] == Next(states[i], steps[i])
  }

  predicate Sound(st: State) {
    Coherent(st.log) && st.count == Coalescings(st.log)
  }

  lemma NextSound(st: State, step: Step)
    requires Sound(st) && Enabled(st, step)
    ensures Sound(Next(st, step))
  {
    match step
    case Begin(a) =>
      BegunCoherent(st.log, a);
      BegunCount(st.log, a);
    case Finish(i) =>
      EndedCoherent(st.log, i);
      EndedCount(st.log, i);
    case Wait(m, f) =>
      WithWaiterCoherent(st.log, m, f);
      WithWaiterCount(st.log, m, f);
    case PortFlag(i, locked) =>
      FlaggedCoherent(st.log, i, locked);
      CoalescingsSame(st.log, Flagged(st.log, i, locked));
  }

  /** In every state of every run masters are older, unique in level and of the same group,
      and the counter counts the coalesced accesses. */
  lemma {:induction false} EveryStateSound(states: seq<State>, steps: seq<Step>, i: nat)
    requires Run(states, steps) && i < |states|
    ensures Sound(states[i])
  {
    if i > 0 {
      EveryStateSound(states, steps, i - 1);
      assert states[i - 1 + 1] == Next(states[i - 1], steps[i - 1]);
      NextSound(states[i - 1], steps[i - 1]);
    }
  }

  /** An access that joined a master is among those woken when the master completes, and is
      then without a master. */
  lemma FollowersAreWoken(s: Log, i: nat, k: nat)
    requires Coherent(s) && i < |s| && k < |s| - 1 && s[From(i, k)].master == s[i].frame
    ensures s[From(i, k)].frame in s[i].waiters && i < From(i, k)
    ensures Ended(s, i)[k].master == null
  {
    EndedAt(s, i, k);
    assert MasterOk(s, From(i, k));
    var j :| 0 <= j < From(i, k) && MasterAt(s, j, From(i, k));
    TwoFrames(s, i, j);
  }

  /** A store joins a write that has already started exactly when the youngest access is
      itself a follower of a started write: the flag tested is the youngest access's own. */
  lemma JoinsStartedWrite(s: Log, q: nat, kind: AccessType, block: nat, id: int, i: nat)
    requires Coherent(s) && q <= |s| && kind != Load
    requires i < |s| && MasterFor(s, q, kind, block, id) == s[i].frame
    ensures q > 0
    ensures s[i].portLocked <==> exists k :: 0 <= k < q - 1 && s[k].frame == s[q - 1].master && s[k].portLocked
  {
    JoinedIsYoungest(s, q, kind, block);
    assert Joined(s, q, kind, block) == q - 1;
    assert OwnFrame(s, i);
    if s[q - 1].master == null {
      TwoFrames(s, i, q - 1);
    } else {
      assert MasterOk(s, q - 1);
      var j :| 0 <= j < q - 1 && MasterAt(s, j, q - 1);
      TwoFrames(s, i, j);
    }
  }

  /** Such a run: a second store joins the first, the first locks its port, a third joins it. */
  lemma LateJoinHappens(f: Frame, g: Frame, h: Frame)
    requires f != g && f != h && g != h && f.id < g.id && f.id < h.id
    ensures var a, b, c := Fresh(f, 0, Store), Fresh(g, 0, Store), Fresh(h, 0, Store);
      var t := Flagged(Begun(Begun([], a), b), 0, true);
      && IsNew([], a) && IsNew(Begun([], a), b) && IsNew(t, c)
      && t[0].portLocked && |Begun(t, c)| == 3 && Begun(t, c)[2].master == f
  {
    var a, b, c := Fresh(f, 0, Store), Fresh(g, 0, Store), Fresh(h, 0, Store);
    assert Begun([], a) == [a];
    assert ([a] + [b])[0].frame == f && OlderId([a] + [b], 0, g.id);
    var u := Begun([a], b);
    assert u[1].master == f && !u[1].portLocked;
    var t := Flagged(u, 0, true);
    assert (t + [c])[0].frame == f && OlderId(t + [c], 0, h.id);
    assert (t + [c])[1] == u[1];
  }

  // ---------- The indexes of the list ----------

  predicate IsWrite(kind: AccessType) {
    kind == Store
  }

  predicate IsAlloc(kind: AccessType) {
    kind == ReadAlloc || kind == NoReadAlloc
  }

  /** The frames of the accesses of some types, in order. */
  function Picked(s: Log, p: AccessType -> bool): seq<Frame> {
    if s == [] then []
    else Picked(s[..|s| - 1], p) + if p(s[|s| - 1].kind) then [s[|s| - 1].frame] else []
  }

  lemma PickedAdded(s: Log, a: Access, p: AccessType -> bool)
    ensures Picked(s + [a], p) == Picked(s, p) + if p(a.kind) then [a.frame] else []
  {
    assert (s + [a])[..|s|] == s;
  }

  lemma {:induction false} PickedAdd(s: Log, t: Log, p: AccessType -> bool)
    ensures Picked(s + t, p) == Picked(s, p) + Picked(t, p)
  {
    if t == [] {
      assert s + t == s;
    } else {
      var u := t[..|t| - 1];
      PickedAdd(s, u, p);
      PickedAdded(s + u, t[|t| - 1], p);
      assert s + t == s + u + [t[|t| - 1]];
    }
  }

  lemma {:induction false} PickedSame(s: Log, t: Log, p: AccessType -> bool)
    requires |s| == |t| && forall k :: 0 <= k < |s| ==> s[k].kind == t[k].kind && s[k].frame == t[k].frame
    ensures Picked(s, p) == Picked(t, p)
  {
    if s != [] {
      PickedSame(s[..|s| - 1], t[..|t| - 1], p);
    }
  }

  lemma {:induction false} PickedIn(s: Log, p: AccessType -> bool, f: Frame)
    requires f in Picked(s, p)
    ensures exists k :: 0 <= k < |s| && s[k].frame == f
  {
    if s[|s| - 1].frame != f {
      PickedIn(s[..|s| - 1], p, f);
    }
  }

  function Erased<T(==)>(s: seq<T>, x: T): seq<T> {
    if s == [] then [] else if s[0] == x then s[1..] else [s[0]] + Erased(s[1..], x)
  }

  lemma {:induction false} ErasedAt<T>(a: seq<T>, x: T, b: seq<T>)
    requires x !in a
    ensures Erased(a + [x] + b, x) == a + b
  {
    var s := a + [x] + b;
    if a != [] {
      ErasedAt(a[1..], x, b);
      assert s[1..] == a[1..] + [x] + b;
    }
  }

  lemma PickedWithout(a: Log, x: Access, b: Log, p: AccessType -> bool)
    requires forall k :: 0 <= k < |a| ==> a[k].frame != x.frame
    ensures Picked(a + b, p) ==
      if p(x.kind) then Erased(Picked(a + [x] + b, p), x.frame) else Picked(a + [x] + b, p)
  {
    PickedAdd(a, b, p);
    PickedAdd(a + [x], b, p);
    PickedAdded(a, x, p);
    if p(x.kind) {
      assert x.frame !in Picked(a, p) by {
        if x.frame in Picked(a, p) {
          PickedIn(a, p, x.frame);
        }
      }
      ErasedAt(Picked(a, p), x.frame, Picked(b, p));
    }
  }

  lemma OrphanedPicked(s: Log, f: Frame, p: AccessType -> bool)
    ensures Picked(Orphaned(s, f), p) == Picked(s, p)
  {
    PickedSame(s, Orphaned(s, f), p);
  }

  lemma EndedPicked(s: Log, i: nat, p: AccessType -> bool)
    requires OneFrameEach(s) && i < |s|
    ensures Picked(Ended(s, i), p) == if p(s[i].kind) then Erased(Picked(s, p), s[i].frame) else Picked(s, p)
  {
    var a, b := s[..i], s[i + 1..];
    AroundIndex(s, i);
    WithoutSlices(s, i);
    assert OwnFrame(s, i);
    PickedWithout(a, s[i], b, p);
    OrphanedPicked(a + b, s[i].frame, p);
  }

  /** The entries of the hash table: block address and frame. */
  function Pairs(s: Log): set<(nat, Frame)> {
    set k | 0 <= k < |s| :: (s[k].block, s[k].frame)
  }

  lemma AddedPairs(s: Log, a: Access)
    ensures Pairs(s + [a]) == Pairs(s) + {(a.block, a.frame)}
  {
    var t := s + [a];
    assert t[|s|] == a;
    forall k | 0 <= k < |s| ensures t[k] == s[k] && (t[k].block, t[k].frame) in Pairs(t) {
    }
  }

  lemma EndedPairs(s: Log, i: nat)
    requires OneFrameEach(s) && i < |s|
    ensures Pairs(Ended(s, i)) == Pairs(s) - {(s[i].block, s[i].frame)}
  {
    var t := Ended(s, i);
    forall k | 0 <= k < |t|
      ensures t[k].block == s[From(i, k)].block && t[k].frame == s[From(i, k)].frame
    {
      EndedAt(s, i, k);
    }
    assert OwnFrame(s, i);
    forall x ensures x in Pairs(t) <==> x in Pairs(s) - {(s[i].block, s[i].frame)} {
      if x in Pairs(s) && x != (s[i].block, s[i].frame) {
        var k :| 0 <= k < |s| && (s[k].block, s[k].frame) == x;
        var l := if k < i then k else k - 1;
        assert (t[l].block, t[l].frame) == x;
      }
    }
  }

  function Ids(s: Log): set<int> {
    set k | 0 <= k < |s| :: s[k].frame.id
  }

  /** No other access has the identifier of access `i`. */
  predicate OwnId(s: Log, i: nat)
    requires i < |s|
  {
    forall j {:trigger s[j]} :: 0 <= j < |s| && j != i ==> s[j].frame.id != s[i].frame.id
  }

  predicate OneIdEach(s: Log) {
    forall i {:trigger OwnId(s, i)} :: 0 <= i < |s| ==> OwnId(s, i)
  }

  lemma AddedIds(s: Log, a: Access)
    requires OneIdEach(s) && a.frame.id !in Ids(s)
    ensures OneIdEach(s + [a]) && Ids(s + [a]) == Ids(s) + {a.frame.id}
  {
    var t := s + [a];
    assert t[|s|] == a;
    forall k | 0 <= k < |s| ensures t[k] == s[k] && s[k].frame.id in Ids(s) {
    }
    forall k | 0 <= k < |t| ensures OwnId(t, k) {
      if k < |s| {
        assert OwnId(s, k);
      }
    }
  }

  lemma EndedIds(s: Log, i: nat)
    requires OneIdEach(s) && i < |s|
    ensures OneIdEach(Ended(s, i)) && Ids(Ended(s, i)) == Ids(s) - {s[i].frame.id}
  {
    var t := Ended(s, i);
    forall k | 0 <= k < |t| ensures t[k].frame == s[From(i, k)].frame {
      EndedAt(s, i, k);
    }
    forall k | 0 <= k < |t| ensures OwnId(t, k) {
      assert OwnId(s, From(i, k));
    }
    assert OwnId(s, i);
    forall x ensures x in Ids(t) <==> x in Ids(s) - {s[i].frame.id} {
      if x in Ids(s) && x != s[i].frame.id {
        var k :| 0 <= k < |s| && s[k].frame.id == x;
        var l := if k < i then k else k - 1;
        assert t[l].frame.id == x;
      }
    }
  }

  /** The youngest of the first `q` accesses whose type is one of some, or null. */
  function YoungestOf(s: Log, q: nat, p: AccessType -> bool): (f: Frame?)
    requires q <= |s|
  {
    if q == 0 then null else if p(s[q - 1].kind) then s[q - 1].frame else YoungestOf(s, q - 1, p)
  }

  lemma {:induction false} YoungestMeans(s: Log, q: nat, p: AccessType -> bool)
    requires q <= |s|
    ensures YoungestOf(s, q, p) == null ==> forall k :: 0 <= k < q ==> !p(s[k].kind)
    ensures YoungestOf(s, q, p) != null ==>
      exists k :: 0 <= k < q && s[k].frame == YoungestOf(s, q, p) && IsLast(s, q, k, p)
  {
    if q > 0 {
      if p(s[q - 1].kind) {
        assert IsLast(s, q, q - 1, p);
      } else {
        YoungestMeans(s, q - 1, p);
        if YoungestOf(s, q, p) != null {
          var k :| 0 <= k < q - 1 && s[k].frame == YoungestOf(s, q, p) && IsLast(s, q - 1, k, p);
          assert IsLast(s, q, k, p);
        }
      }
    }
  }

  /** Access `k` is of one of the types, and none between it and `q` is. */
  predicate IsLast(s: Log, q: nat, k: nat, p: AccessType -> bool)
    requires k < q <= |s|
  {
    p(s[k].kind) && forall l :: k < l < q ==> !p(s[l].kind)
  }

  lemma {:induction false} YoungestPrefix(s: Log, t: Log, q: nat, p: AccessType -> bool)
    requires q <= |s| && q <= |t| && s[..q] == t[..q]
    ensures YoungestOf(s, q, p) == YoungestOf(t, q, p)
  {
    if q > 0 {
      assert s[q - 1] == s[..q][q - 1] == t[..q][q - 1] == t[q - 1];
      assert s[..q - 1] == s[..q][..q - 1] == t[..q][..q - 1] == t[..q - 1];
      YoungestPrefix(s, t, q - 1, p);
    }
  }

  /** The last entry of a type's own list is the youngest access of that type. */
  lemma {:induction false} LastPicked(s: Log, p: AccessType -> bool)
    ensures YoungestOf(s, |s|, p) == if Picked(s, p) == [] then null else Picked(s, p)[|Picked(s, p)| - 1]
  {
    if s != [] && !p(s[|s| - 1].kind) {
      LastPicked(s[..|s| - 1], p);
      YoungestPrefix(s, s[..|s| - 1], |s| - 1, p);
    }
  }

  function Position<T(==)>(s: seq<T>, x: T): (i: nat)
    requires x in s
    ensures i < |s| && s[i] == x && x !in s[..i]
  {
    if s[0] == x then 0 else 1 + Position(s[1..], x)
  }

  lemma PositionLast<T>(s: seq<T>, x: T)
    requires x !in s
    ensures x in s + [x] && Position(s + [x], x) == |s|
  {
    assert (s + [x])[|s|] == x;
  }

  predicate Typed(s: Log) {
    forall i {:trigger s[i]} :: 0 <= i < |s| ==> s[i].kind != Invalid
  }

  lemma AddedTyped(s: Log, a: Access)
    requires Typed(s) && a.kind != Invalid
    ensures Typed(s + [a])
  {
  }

  lemma EndedTyped(s: Log, i: nat)
    requires Typed(s) && i < |s|
    ensures Typed(Ended(s, i))
  {
    forall k | 0 <= k < |s| - 1 ensures Ended(s, i)[k].kind != Invalid {
      EndedAt(s, i, k);
    }
  }

  /** The list and everything kept beside it. */
  datatype Tables = Tables(log: Log, writes: seq<Frame>, allocs: seq<Frame>, blocks: set<(nat, Frame)>, ids: set<int>)

  /** The other lists, the hash table and the identifiers as the list of accesses has them. */
  ghost function TablesOf(s: Log): Tables {
    Tables(s, Picked(s, IsWrite), Picked(s, IsAlloc), Pairs(s), Ids(s))
  }

  ghost predicate Follows(t: Tables) {
    t == TablesOf(t.log) && OneIdEach(t.log) && Typed(t.log)
  }

  /** What starting an access writes to the tables. */
  function Entered(t: Tables, a: Access): Tables {
    Tables(t.log + [a],
           if a.kind == Store then t.writes + [a.frame] else t.writes,
           if a.kind == ReadAlloc || a.kind == NoReadAlloc then t.allocs + [a.frame] else t.allocs,
           t.blocks + {(a.block, a.frame)},
           t.ids + {a.frame.id})
  }

  /** What finishing access `i` removes from them. */
  function Removed(t: Tables, i: nat): Tables
    requires i < |t.log|
  {
    var a := t.log[i];
    Tables(Ended(t.log, i),
           if a.kind == Store then Erased(t.writes, a.frame) else t.writes,
           if a.kind == ReadAlloc || a.kind == NoReadAlloc then Erased(t.allocs, a.frame) else t.allocs,
           t.blocks - {(a.block, a.frame)},
           t.ids - {a.frame.id})
  }

  lemma EnteredFollows(t: Tables, a: Access)
    requires Follows(t) && a.kind != Invalid && a.frame.id !in t.ids
    ensures Follows(Entered(t, a))
  {
    PickedAdded(t.log, a, IsWrite);
    PickedAdded(t.log, a, IsAlloc);
    AddedPairs(t.log, a);
    AddedIds(t.log, a);
    AddedTyped(t.log, a);
  }

  lemma RemovedFollows(t: Tables, i: nat)
    requires Follows(t) && OneFrameEach(t.log) && i < |t.log|
    ensures Follows(Removed(t, i))
  {
    EndedPicked(t.log, i, IsWrite);
    EndedPicked(t.log, i, IsAlloc);
    EndedPairs(t.log, i);
    EndedIds(t.log, i);
    EndedTyped(t.log, i);
  }

  lemma SamePairs(s: Log, t: Log)
    requires |s| == |t| && forall k :: 0 <= k < |s| ==> s[k].block == t[k].block && s[k].frame == t[k].frame
    ensures Pairs(s) == Pairs(t)
  {
    forall k | 0 <= k < |s|
      ensures (s[k].block, s[k].frame) in Pairs(t) && (t[k].block, t[k].frame) in Pairs(s)
    {
    }
  }

  /** The list, the counter and the tables agree. */
  ghost predicate Good(t: Tables, count: int) {
    Sound(State(t.log, count)) && Follows(t)
  }

  lemma FinishKeeps(t: Tables, count: int, i: nat)
    requires Good(t, count) && i < |t.log|
    ensures Good(Removed(t, i), count - if t.log[i].coalesced then 1 else 0)
  {
    RemovedFollows(t, i);
    NextSound(State(t.log, count), Finish(i));
  }

  lemma FlagKeeps(t: Tables, count: int, i: nat, locked: bool)
    requires Good(t, count) && i < |t.log|
    ensures Good(t.(log := Flagged(t.log, i, locked)), count)
  {
    NextSound(State(t.log, count), PortFlag(i, locked));
    SameFollows(t, Flagged(t.log, i, locked));
  }

  lemma StartKeeps(t: Tables, count: int, a: Access)
    requires Good(t, count) && IsNew(t.log, a) && a.frame.id !in t.ids
    ensures Good(Entered(t, a), count)
  {
    EnteredFollows(t, a);
    AddedCount(t.log, a);
    AllMastersStay(t.log, t.log + [a]);
    AddedFrames(t.log, a);
    assert MasterOk(t.log + [a], |t.log|);
  }

  lemma BeginKeeps(t: Tables, count: int, a: Access, m: Frame?)
    requires Good(t, count) && IsNew(t.log, a) && a.frame.id !in t.ids
    requires m == MasterFor(t.log + [a], |t.log|, a.kind, a.block, a.frame.id)
    ensures Good(Entered(t, a).(log := Followed(t.log + [a], m, a.frame)), count + if m == null then 0 else 1)
  {
    EnteredFollows(t, a);
    NextSound(State(t.log, count), Begin(a));
    SameFollows(Entered(t, a), Begun(t.log, a));
  }

  /** Coalescing and waiting leave the tables as they are. */
  lemma SameFollows(t: Tables, log: Log)
    requires Follows(t) && |log| == |t.log|
    requires forall k :: 0 <= k < |log| ==>
      log[k].frame == t.log[k].frame && log[k].kind == t.log[k].kind && log[k].block == t.log[k].block
    ensures Follows(t.(log := log))
  {
    PickedSame(t.log, log, IsWrite);
    PickedSame(t.log, log, IsAlloc);
    SamePairs(t.log, log);
    forall k | 0 <= k < |log| ensures OwnId(log, k) {
      assert OwnId(t.log, k);
    }
    forall x ensures x in Ids(log) <==> x in Ids(t.log) {
      if x in Ids(log) {
        var k :| 0 <= k < |log| && log[k].frame.id == x;
        assert t.log[k].frame.id == x;
      }
      if x in Ids(t.log) {
        var k :| 0 <= k < |log| && t.log[k].frame.id == x;
        assert log[k].frame.id == x;
      }
    }
  }

  // ---------- Ports as a value ----------

  /** The frame holding each port, and the frames waiting for one. */
  datatype Ports = Ports(owners: seq<Frame?>, queue: seq<Frame>)

  function Taken(owners: seq<Frame?>): nat {
    if owners == [] then 0 else Taken(owners[..|owners| - 1]) + if owners[|owners| - 1] != null then 1 else 0
  }

  /** The first free port from `i` on, or the number of ports. */
  function FreePort(owners: seq<Frame?>, i: nat): (k: nat)
    requires i <= |owners|
    ensures i <= k <= |owners| && (k < |owners| ==> owners[k] == null)
    ensures forall l :: i <= l < k ==> owners[l] != null
    decreases |owners| - i
  {
    if i == |owners| || owners[i] == null then i else FreePort(owners, i + 1)
  }

  /** No other port is held by the frame at port `i`. */
  predicate OneOwner(owners: seq<Frame?>, i: nat)
    requires i < |owners|
  {
    forall j {:trigger owners[j]} :: 0 <= j < |owners| && j != i && owners[i] != null ==> owners[j] != owners[i]
  }

  predicate OneOwnerEach(owners: seq<Frame?>) {
    forall i {:trigger OneOwner(owners, i)} :: 0 <= i < |owners| ==> OneOwner(owners, i)
  }

  /** The frame at place `i` of the queue waits once and holds no port. */
  predicate WaitsOnce(ps: Ports, i: nat)
    requires i < |ps.queue|
  {
    && (forall j {:trigger ps.queue[j]} :: 0 <= j < |ps.queue| && j != i ==> ps.queue[j] != ps.queue[i])
    && (forall j {:trigger ps.owners[j]} :: 0 <= j < |ps.owners| ==> ps.owners[j] != ps.queue[i])
  }

  /** A port holds one frame and a frame one port at most, nobody waits twice or while holding
      a port, and somebody waits only while all ports are taken. */
  predicate Fair(ps: Ports) {
    && OneOwnerEach(ps.owners)
    && (forall i {:trigger WaitsOnce(ps, i)} :: 0 <= i < |ps.queue| ==> WaitsOnce(ps, i))
    && (ps.queue != [] ==> Taken(ps.owners) == |ps.owners|)
  }

  /** A frame asks for a port: it gets the first free one, or waits; `urgent` ones wait first. */
  function Asked(ps: Ports, f: Frame, urgent: bool): (qs: Ports) {
    var k := FreePort(ps.owners, 0);
    if k < |ps.owners| then ps.(owners := ps.owners[k := f])
    else if urgent then ps.(queue := [f] + ps.queue)
    else ps.(queue := ps.queue + [f])
  }

  /** Port `i` is given back and passed on to the first waiting frame. */
  function Passed(ps: Ports, i: nat): (qs: Ports)
    requires i < |ps.owners|
  {
    if ps.queue == [] then ps.(owners := ps.owners[i := null])
    else Ports(ps.owners[i := ps.queue[0]], ps.queue[1..])
  }

  /** A free port goes to the frame, the first one; with none free the frame waits last, or
      first if it is urgent. */
  lemma AskedMeans(ps: Ports, f: Frame, urgent: bool)
    ensures null in ps.owners ==> exists k :: 0 <= k < |ps.owners| && Gets(ps, Asked(ps, f, urgent), f, k)
    ensures null !in ps.owners ==>
      Asked(ps, f, urgent) == Ports(ps.owners, if urgent then [f] + ps.queue else ps.queue + [f])
  {
    var k := FreePort(ps.owners, 0);
    if k < |ps.owners| {
      assert Gets(ps, Asked(ps, f, urgent), f, k);
    }
  }

  /** Port `k` is the first free one, and the frame has got it. */
  predicate Gets(ps: Ports, qs: Ports, f: Frame, k: nat)
    requires k < |ps.owners|
  {
    && ps.owners[k] == null && (forall l :: 0 <= l < k ==> ps.owners[l] != null)
    && qs == Ports(ps.owners[k := f], ps.queue)
  }

  lemma {:induction false} TakenUpdate(owners: seq<Frame?>, i: nat, f: Frame?)
    requires i < |owners|
    ensures Taken(owners[i := f]) ==
      Taken(owners) + (if f != null then 1 else 0) - if owners[i] != null then 1 else 0
  {
    var n := |owners| - 1;
    if i < n {
      TakenUpdate(owners[..n], i, f);
      assert owners[i := f][..n] == owners[..n][i := f];
    } else {
      assert owners[i := f][..n] == owners[..n];
    }
  }

  lemma {:induction false} TakenAll(owners: seq<Frame?>)
    ensures Taken(owners) <= |owners|
    ensures Taken(owners) == |owners| <==> forall i :: 0 <= i < |owners| ==> owners[i] != null
  {
    if owners != [] {
      TakenAll(owners[..|owners| - 1]);
      forall i | 0 <= i < |owners| - 1 ensures owners[i] == owners[..|owners| - 1][i] {
      }
    }
  }

  lemma OwnersSet(owners: seq<Frame?>, k: nat, f: Frame?)
    requires OneOwnerEach(owners) && k < |owners| && (f != null ==> f !in owners)
    ensures OneOwnerEach(owners[k := f])
  {
    var os := owners[k := f];
    forall i | 0 <= i < |owners| ensures OneOwner(os, i) {
      assert OneOwner(owners, i);
    }
  }

  lemma AskedFair(ps: Ports, f: Frame, urgent: bool)
    requires Fair(ps) && f !in ps.owners && f !in ps.queue
    ensures Fair(Asked(ps, f, urgent))
    ensures Taken(Asked(ps, f, urgent).owners) == Taken(ps.owners) + if Taken(ps.owners) < |ps.owners| then 1 else 0
    ensures FreePort(ps.owners, 0) == |ps.owners| <==> Taken(ps.owners) == |ps.owners|
  {
    TakenAll(ps.owners);
    var k, qs := FreePort(ps.owners, 0), Asked(ps, f, urgent);
    if k < |ps.owners| {
      TakenUpdate(ps.owners, k, f);
      OwnersSet(ps.owners, k, f);
    } else {
      forall i | 0 <= i < |qs.queue| ensures WaitsOnce(qs, i) {
        var i0 := if urgent then i - 1 else i;
        assert 0 <= i0 < |ps.queue| ==> WaitsOnce(ps, i0);
      }
    }
  }

  lemma PassedFair(ps: Ports, i: nat)
    requires Fair(ps) && i < |ps.owners| && ps.owners[i] != null
    ensures Fair(Passed(ps, i))
    ensures Taken(Passed(ps, i).owners) == Taken(ps.owners) - if ps.queue == [] then 1 else 0
    ensures ps.queue != [] ==> ps.queue[0] !in ps.queue[1..]
  {
    var f, qs := if ps.queue == [] then null else ps.queue[0], Passed(ps, i);
    TakenUpdate(ps.owners, i, f);
    assert f != null ==> WaitsOnce(ps, 0);
    OwnersSet(ps.owners, i, f);
    forall j | 0 <= j < |qs.queue| ensures WaitsOnce(qs, j) {
      assert WaitsOnce(ps, j + 1);
    }
  }

  datatype PortStep = Ask(frame: Frame, urgent: bool) | GiveBack(port: nat)

  datatype PortState = PortState(ports: Ports, locked: int)

  predicate PortEnabled(st: PortState, step: PortStep) {
    match step
    case Ask(f, _) => f !in st.ports.owners && f !in st.ports.queue
    case GiveBack(i) => i < |st.ports.owners| && st.ports.owners[i] != null
  }

  /** The counter of locked ports moves as the code moves it. */
  function PortNext(st: PortState, step: PortStep): PortState
    requires PortEnabled(st, step)
  {
    match step
    case Ask(f, urgent) =>
      PortState(Asked(st.ports, f, urgent), if st.locked >= |st.ports.owners| then st.locked else st.locked + 1)
    case GiveBack(i) =>
      PortState(Passed(st.ports, i), if st.ports.queue == [] then st.locked - 1 else st.locked)
  }

  predicate PortRun(states: seq<PortState>, steps: seq<PortStep>) {
    && |states| == |steps| + 1
    && states[0].ports.queue == [] && states[0].locked == 0
    && (forall i :: 0 <= i < |states[0].ports.owners| ==> states[0].ports.owners[i] == null)
    && forall i {:trigger steps[i]} :: 0 <= i < |steps| ==>
         PortEnabled(states[i], steps[i]) && states[i + 1] == PortNext(states[i], steps[i])
  }

  lemma {:induction false} NoneTaken(owners: seq<Frame?>)
    requires forall i :: 0 <= i < |owners| ==> owners[i] == null
    ensures Taken(owners) == 0
  {
    if owners != [] {
      NoneTaken(owners[..|owners| - 1]);
    }
  }

  /** In every state of every run ports are shared fairly and the counter is the number of
      ports taken. */
  lemma {:induction false} EveryPortStateFair(states: seq<PortState>, steps: seq<PortStep>, i: nat)
    requires PortRun(states, steps) && i < |states|
    ensures Fair(states[i].ports) && states[i].locked == Taken(states[i].ports.owners)
  {
    if i == 0 {
      NoneTaken(states[0].ports.owners);
    } else {
      EveryPortStateFair(states, steps, i - 1);
      var st, step := states[i - 1], steps[i - 1];
      assert states[i - 1 + 1] == PortNext(st, step);
      match step {
        case Ask(f, urgent) =>
          AskedFair(st.ports, f, urgent);
          TakenAll(st.ports.owners);
        case GiveBack(k) => PassedFair(st.ports, k);
      }
    }
  }

  // ---------- The module ----------

  class Port {
    var frame: Frame?

    constructor ()
      ensures frame == null
    {
      frame := null;
    }
  }

  /** The event frame of one memory access. */
  class Frame {
    const id: int
    const address: nat
    const downUp: bool
    var accessType: AccessType
    var coalesced: bool
    var masterFrame: Frame?
    var queue: seq<Frame>
    var port: Port?
    var portLocked: bool

    constructor (id: int, address: nat, downUp: bool)
      ensures this.id == id && this.address == address && this.downUp == downUp
      ensures accessType == Invalid && !coalesced && masterFrame == null
      ensures queue == [] && port == null && !portLocked
    {
      this.id, this.address, this.downUp := id, address, downUp;
      accessType, coalesced, masterFrame := Invalid, false, null;
      queue, port, portLocked := [], null, false;
    }
  }

  /** Shift right by `log` bits. */
  function BlockAddress(address: nat, log: nat): nat {
    if log == 0 then address else BlockAddress(address / 2, log - 1)
  }

  function Pow2(n: nat): (r: nat)
    ensures r > 0
  {
    if n == 0 then 1 else 2 * Pow2(n - 1)
  }

  lemma HalfBounds(a: nat, b: nat, p: nat)
    requires b * p <= a / 2 < (b + 1) * p
    ensures b * (2 * p) <= a < (b + 1) * (2 * p)
  {
    assert b * (2 * p) == 2 * (b * p) && (b + 1) * (2 * p) == 2 * ((b + 1) * p);
  }

  /** A block is an aligned run of 2^log bytes. */
  lemma {:induction false} BlockBounds(address: nat, log: nat)
    ensures BlockAddress(address, log) * Pow2(log) <= address < (BlockAddress(address, log) + 1) * Pow2(log)
  {
    if log > 0 {
      BlockBounds(address / 2, log - 1);
      HalfBounds(address, BlockAddress(address / 2, log - 1), Pow2(log - 1));
    }
  }

  /** Address `a` lies in the run number `k` of `p` bytes. */
  predicate InRun(a: nat, k: nat, p: nat) {
    k * p <= a < (k + 1) * p
  }

  lemma Multiples(j: nat, k: nat, p: nat)
    ensures j < k ==> (j + 1) * p <= k * p
  {
    assert j < k ==> (k - j - 1) * p >= 0;
  }

  lemma SameRun(a: nat, j: nat, k: nat, p: nat)
    requires InRun(a, j, p) && InRun(a, k, p)
    ensures j == k
  {
    Multiples(j, k, p);
    Multiples(k, j, p);
  }

  /** Two addresses have the same block exactly when they lie in the same such run. */
  lemma SameBlock(a: nat, b: nat, log: nat)
    ensures BlockAddress(a, log) == BlockAddress(b, log) <==>
      exists k: nat :: InRun(a, k, Pow2(log)) && InRun(b, k, Pow2(log))
  {
    var p, i, j := Pow2(log), BlockAddress(a, log), BlockAddress(b, log);
    BlockBounds(a, log);
    BlockBounds(b, log);
    assert InRun(a, i, p) && InRun(b, j, p);
    forall k: nat | InRun(a, k, p) && InRun(b, k, p) ensures i == j {
      SameRun(a, k, i, p);
      SameRun(b, k, j, p);
    }
  }

  /** With six bits a block has 64 bytes. */
  lemma SixBitBlocks(address: nat, log: nat)
    requires log == 6
    ensures BlockAddress(address, log) == address / 64
  {
    BlockBounds(address, log);
    assert Pow2(log) == 2 * Pow2(5) == 4 * Pow2(4) == 8 * Pow2(3) == 16 * Pow2(2) == 32 * Pow2(1) == 64;
  }

  class Module {
    const logBlockSize: nat

    // In-flight accesses
    var accesses: seq<Frame>
    var writeAccesses: seq<Frame>
    var allocAccesses: seq<Frame>
    var inFlightBlockAddresses: set<(nat, Frame)>
    var inFlightAccessIds: set<int>
    var numCoalescedAccesses: int

    /** The accesses as values. */
    ghost var log: Log

    // Ports
    const ports: seq<Port>
    var numLockedPorts: int
    var portQueue: seq<Frame>
    /** The frame at each port, as a value. */
    ghost var owners: seq<Frame?>
    /** The frames that have asked for a port. */
    ghost var clients: set<Frame>

    constructor (logBlockSize: nat, numPorts: nat)
      ensures ValidAccesses() && ValidPorts()
      ensures this.logBlockSize == logBlockSize && |ports| == numPorts && fresh(ports)
      ensures log == [] && portQueue == [] && forall i :: 0 <= i < numPorts ==> owners[i] == null
    {
      this.logBlockSize := logBlockSize;
      accesses, writeAccesses, allocAccesses, log := [], [], [], [];
      inFlightBlockAddresses, inFlightAccessIds, numCoalescedAccesses := {}, {}, 0;
      var ps: seq<Port> := [];
      while |ps| < numPorts
        invariant |ps| <= numPorts && fresh(ps)
        invariant forall i :: 0 <= i < |ps| ==> ps[i].frame == null
        invariant forall i, j {:trigger ps[i], ps[j]} :: 0 <= i < j < |ps| ==> ps[i] != ps[j]
      {
        var p := new Port();
        ps := ps + [p];
      }
      ports := ps;
      numLockedPorts, portQueue, clients := 0, [], {};
      owners := seq(numPorts, _ => null);
      new;
      NoneTaken(owners);
    }

    function Block(address: nat): nat {
      BlockAddress(address, logBlockSize)
    }

    ghost predicate Reflects(a: Access, f: Frame)
      reads f`accessType, f`coalesced, f`masterFrame, f`portLocked, f`queue
    {
      a == Access(f, Block(f.address), f.accessType, f.coalesced, f.masterFrame, f.portLocked, f.queue)
    }

    /** `log` records the fields of the frames in flight. */
    ghost predicate Mirrors()
      reads this`accesses, this`log, accesses`accessType, accesses`coalesced, accesses`masterFrame
      reads accesses`portLocked, accesses`queue
    {
      |log| == |accesses| && forall i {:trigger log[i]} {:trigger accesses[i]} :: 0 <= i < |log| ==>
        Reflects(log[i], accesses[i])
    }

    ghost function Kept(): Tables
      reads this`log, this`writeAccesses, this`allocAccesses, this`inFlightBlockAddresses, this`inFlightAccessIds
    {
      Tables(log, writeAccesses, allocAccesses, inFlightBlockAddresses, inFlightAccessIds)
    }

    ghost predicate ValidAccesses()
      reads this`accesses, this`log, this`writeAccesses, this`allocAccesses, this`inFlightBlockAddresses
      reads this`inFlightAccessIds, this`numCoalescedAccesses, accesses`accessType, accesses`coalesced
      reads accesses`masterFrame, accesses`portLocked, accesses`queue
    {
      Mirrors() && Good(Kept(), numCoalescedAccesses)
    }

    /** Puts the frame in the lists of its type. */
    method Enlist(frame: Frame, accessType: AccessType)
      modifies this`accesses, this`writeAccesses, this`allocAccesses, this`inFlightBlockAddresses
      modifies this`inFlightAccessIds
      ensures accesses == old(accesses) + [frame]
      ensures writeAccesses == old(writeAccesses) + if accessType == Store then [frame] else []
      ensures allocAccesses ==
        old(allocAccesses) + if accessType == ReadAlloc || accessType == NoReadAlloc then [frame] else []
      ensures inFlightBlockAddresses == old(inFlightBlockAddresses) + {(Block(frame.address), frame)}
      ensures inFlightAccessIds == old(inFlightAccessIds) + {frame.id}
    {
      accesses := accesses + [frame];
      if accessType == Store {
        writeAccesses := writeAccesses + [frame];
      }
      if accessType == ReadAlloc || accessType == NoReadAlloc {
        allocAccesses := allocAccesses + [frame];
      }
      inFlightBlockAddresses := inFlightBlockAddresses + {(Block(frame.address), frame)};
      inFlightAccessIds := inFlightAccessIds + {frame.id};
    }

    /** Enters the frame in the lists. */
    method StartAccess(frame: Frame, accessType: AccessType, ghost a: Access)
      requires Mirrors() && frame !in accesses
      requires a == Access(frame, Block(frame.address), accessType, frame.coalesced, frame.masterFrame,
                           frame.portLocked, frame.queue)
      modifies this`accesses, this`writeAccesses, this`allocAccesses, this`log
      modifies this`inFlightBlockAddresses, this`inFlightAccessIds, frame`accessType
      ensures Mirrors() && accesses == old(accesses) + [frame] && frame.accessType == accessType
      ensures writeAccesses == old(writeAccesses) + if accessType == Store then [frame] else []
      ensures allocAccesses ==
        old(allocAccesses) + if accessType == ReadAlloc || accessType == NoReadAlloc then [frame] else []
      ensures inFlightBlockAddresses == old(inFlightBlockAddresses) + {(Block(frame.address), frame)}
      ensures inFlightAccessIds == old(inFlightAccessIds) + {frame.id}
      ensures Kept() == Entered(old(Kept()), a) && Reflects(a, frame)
    {
      frame.accessType := accessType;
      Enlist(frame, accessType);
      log := log + [a];
    }

    /** Takes the frame out of the lists. */
    method Unlist(frame: Frame)
      modifies this`accesses, this`writeAccesses, this`allocAccesses, this`numCoalescedAccesses
      modifies this`inFlightBlockAddresses, this`inFlightAccessIds
      ensures accesses == Erased(old(accesses), frame)
      ensures writeAccesses ==
        if frame.accessType == Store then Erased(old(writeAccesses), frame) else old(writeAccesses)
      ensures allocAccesses == if frame.accessType == ReadAlloc || frame.accessType == NoReadAlloc
        then Erased(old(allocAccesses), frame) else old(allocAccesses)
      ensures inFlightBlockAddresses == old(inFlightBlockAddresses) - {(Block(frame.address), frame)}
      ensures inFlightAccessIds == old(inFlightAccessIds) - {frame.id}
      ensures numCoalescedAccesses == old(numCoalescedAccesses) - if frame.coalesced then 1 else 0
    {
      accesses := Erased(accesses, frame);
      if frame.accessType == Store {
        writeAccesses := Erased(writeAccesses, frame);
      }
      if frame.accessType == ReadAlloc || frame.accessType == NoReadAlloc {
        allocAccesses := Erased(allocAccesses, frame);
      }
      inFlightBlockAddresses := inFlightBlockAddresses - {(Block(frame.address), frame)};
      inFlightAccessIds := inFlightAccessIds - {frame.id};
      if frame.coalesced {
        numCoalescedAccesses := numCoalescedAccesses - 1;
      }
    }

    /** Clears the links to a finished master. */
    method ForgetMaster(frame: Frame)
      modifies accesses`masterFrame
      ensures forall f :: f in accesses ==>
        f.masterFrame == if old(f.masterFrame) == frame then null else old(f.masterFrame)
    {
      var i := 0;
      while i < |accesses|
        invariant 0 <= i <= |accesses|
        invariant forall f :: f in accesses[..i] ==>
          f.masterFrame == if old(f.masterFrame) == frame then null else old(f.masterFrame)
        invariant forall f :: f in accesses && f !in accesses[..i] ==> f.masterFrame == old(f.masterFrame)
      {
        var f := accesses[i];
        if f.masterFrame == frame {
          f.masterFrame := null;
        }
        i := i + 1;
        assert accesses[..i] == accesses[..i - 1] + [f];
      }
      assert accesses[..i] == accesses;
    }

    /** The list without the frame at position `at`. */
    lemma AccessesWithout(frame: Frame, at: nat)
      requires Mirrors() && OneFrameEach(log) && at < |accesses| && accesses[at] == frame
      ensures Erased(accesses, frame) == Without(accesses, at) == accesses[..at] + accesses[at + 1..]
      ensures forall k :: 0 <= k < |accesses| - 1 ==>
        Without(accesses, at)[k] == accesses[From(at, k)] && accesses[From(at, k)] != frame
    {
      assert OwnFrame(log, at);
      forall k | 0 <= k < |accesses| && k != at ensures accesses[k] != frame {
        assert log[k].frame == accesses[k] && log[at].frame == frame;
      }
      AroundIndex(accesses, at);
      ErasedAt(accesses[..at], frame, accesses[at + 1..]);
      WithoutSlices(accesses, at);
    }

    /** Clears the links to the access at `at` of the former log `t`, which has left the list. */
    method Orphan(frame: Frame, ghost t: Log, ghost at: nat)
      requires at < |t| && |accesses| == |t| - 1 && t[at].frame == frame
      requires forall k {:trigger accesses[k]} :: 0 <= k < |accesses| ==> Reflects(t[From(at, k)], accesses[k])
      modifies accesses`masterFrame, this`log
      ensures Mirrors() && log == Ended(t, at)
      ensures forall f :: f in accesses ==>
        f.masterFrame == if old(f.masterFrame) == frame then null else old(f.masterFrame)
    {
      ForgetMaster(frame);
      log := Ended(t, at);
      forall k | 0 <= k < |log| ensures Reflects(log[k], accesses[k]) {
        ghost var f := accesses[k];
        assert old(Reflects(t[From(at, k)], f));
        EndedAt(t, at, k);
        assert f in accesses;
      }
    }

    /** Takes the frame out of the lists; the log still shows it. */
    method Leave(frame: Frame, ghost at: nat)
      requires Mirrors() && OneFrameEach(log) && at < |accesses| && accesses[at] == frame
      modifies this`accesses, this`writeAccesses, this`allocAccesses, this`numCoalescedAccesses
      modifies this`inFlightBlockAddresses, this`inFlightAccessIds
      ensures frame !in accesses && |accesses| == |log| - 1
      ensures accesses == old(accesses)[..at] + old(accesses)[at + 1..]
      ensures forall k {:trigger accesses[k]} :: 0 <= k < |accesses| ==>
        accesses[k] in old(accesses) && Reflects(log[From(at, k)], accesses[k])
      ensures Kept().(log := Ended(log, at)) == Removed(old(Kept()), at)
      ensures numCoalescedAccesses == old(numCoalescedAccesses) - if frame.coalesced then 1 else 0
    {
      AccessesWithout(frame, at);
      assert log[at].kind == frame.accessType;
      Unlist(frame);
      forall k | 0 <= k < |accesses| ensures Reflects(log[From(at, k)], accesses[k]) {
        assert old(Reflects(log[From(at, k)], accesses[From(at, k)]));
      }
    }

    /** Takes the frame out of the lists and clears the links to it. */
    method Depart(frame: Frame, ghost at: nat)
      requires Mirrors() && OneFrameEach(log) && at < |accesses| && accesses[at] == frame
      modifies this`accesses, this`writeAccesses, this`allocAccesses, this`numCoalescedAccesses, this`log
      modifies this`inFlightBlockAddresses, this`inFlightAccessIds, accesses`masterFrame
      ensures Mirrors() && frame !in accesses
      ensures accesses == old(accesses)[..at] + old(accesses)[at + 1..]
      ensures forall f :: f in accesses ==>
        f.masterFrame == if old(f.masterFrame) == frame then null else old(f.masterFrame)
      ensures Kept() == Removed(old(Kept()), at)
      ensures numCoalescedAccesses == old(numCoalescedAccesses) - if frame.coalesced then 1 else 0
    {
      ghost var t := log;
      Leave(frame, at);
      Orphan(frame, t, at);
    }

    /** An access completes: its followers lose their master and its waiters are woken. */
    method FinishAccess(frame: Frame, ghost at: nat) returns (woken: seq<Frame>)
      requires ValidAccesses() && at < |accesses| && accesses[at] == frame
      modifies this`accesses, this`writeAccesses, this`allocAccesses, this`numCoalescedAccesses, this`log
      modifies this`inFlightBlockAddresses, this`inFlightAccessIds, accesses`masterFrame, frame`queue
      ensures ValidAccesses()
      ensures accesses == old(accesses)[..at] + old(accesses)[at + 1..]
      ensures forall f :: f in accesses ==>
        f.masterFrame == if old(f.masterFrame) == frame then null else old(f.masterFrame)
      ensures Kept() == Removed(old(Kept()), at)
      ensures numCoalescedAccesses == old(numCoalescedAccesses) - if old(frame.coalesced) then 1 else 0
      ensures woken == old(frame.queue) && frame.queue == []
    {
      FinishKeeps(Kept(), numCoalescedAccesses, at);
      assert log[at].coalesced == frame.coalesced;
      assert frame.coalesced ==> numCoalescedAccesses > 0;
      Depart(frame, at);
      woken := frame.queue;
      frame.queue := [];
    }

    /** An in-flight access to the address, older than the given one if there is one. */
    method GetInFlightAddress(address: nat, olderThan: Frame?) returns (f: Frame?)
      requires ValidAccesses()
      ensures f != null ==>
        f in accesses && Block(f.address) == Block(address) && (olderThan != null ==> f.id < olderThan.id)
      ensures f == null ==> forall k :: 0 <= k < |accesses| && Block(accesses[k].address) == Block(address) ==>
        olderThan != null && accesses[k].id >= olderThan.id
    {
      var block := Block(address);
      var range := set p | p in inFlightBlockAddresses && p.0 == block;
      assert forall k :: 0 <= k < |accesses| && Block(accesses[k].address) == block ==>
        (log[k].block, log[k].frame) == (block, accesses[k]) && (block, accesses[k]) in range;
      while range != {}
        invariant forall p :: p in range ==> p in inFlightBlockAddresses && p.0 == block
        invariant forall p :: p in inFlightBlockAddresses && p.0 == block && p !in range ==>
          olderThan != null && p.1.id >= olderThan.id
      {
        var p :| p in range;
        range := range - {p};
        var frame := p.1;
        if olderThan != null && frame.id >= olderThan.id {
          continue;
        }
        assert exists k :: 0 <= k < |log| && (log[k].block, log[k].frame) == p && log[k].frame == accesses[k];
        return frame;
      }
      return null;
    }

    method IsInFlightAddress(address: nat) returns (r: bool)
      requires ValidAccesses()
      ensures r <==> exists k :: 0 <= k < |accesses| && Block(accesses[k].address) == Block(address)
    {
      var block := Block(address);
      var range := set p | p in inFlightBlockAddresses && p.0 == block;
      assert forall k :: 0 <= k < |accesses| && Block(accesses[k].address) == block ==>
        (log[k].block, log[k].frame) == (block, accesses[k]) && (block, accesses[k]) in range;
      r := range != {};
      if r {
        ghost var p :| p in range;
        assert exists k :: 0 <= k < |log| && (log[k].block, log[k].frame) == p && log[k].frame == accesses[k];
      }
    }

    method IsInFlightAccess(id: int) returns (r: bool)
      requires ValidAccesses()
      ensures r <==> exists k :: 0 <= k < |accesses| && accesses[k].id == id
    {
      r := id in inFlightAccessIds;
      assert forall k :: 0 <= k < |log| ==> log[k].frame == accesses[k];
    }

    ghost predicate IsStore(k: nat)
      requires k < |accesses|
      reads this`accesses, accesses`accessType
    {
      accesses[k].accessType == Store
    }

    ghost predicate IsAllocation(k: nat)
      requires k < |accesses|
      reads this`accesses, accesses`accessType
    {
      accesses[k].accessType == ReadAlloc || accesses[k].accessType == NoReadAlloc
    }

    /** `f` is the last store of the first `q` accesses, or null if there is none. */
    ghost predicate WriteIs(f: Frame?, q: nat)
      requires q <= |accesses|
      reads this`accesses, accesses`accessType
    {
      if f == null then NoStore(0, q)
      else exists k {:trigger IsStore(k)} :: 0 <= k < q && accesses[k] == f && IsStore(k) && NoStore(k + 1, q)
    }

    ghost predicate NoStore(lo: nat, hi: nat)
      requires hi <= |accesses|
      reads this`accesses, accesses`accessType
    {
      forall l {:trigger IsStore(l)} :: lo <= l < hi ==> !IsStore(l)
    }

    /** The same for allocations. */
    ghost predicate AllocIs(f: Frame?, q: nat)
      requires q <= |accesses|
      reads this`accesses, accesses`accessType
    {
      if f == null then NoAlloc(0, q)
      else exists k {:trigger IsAllocation(k)} :: 0 <= k < q && accesses[k] == f && IsAllocation(k) && NoAlloc(k + 1, q)
    }

    ghost predicate NoAlloc(lo: nat, hi: nat)
      requires hi <= |accesses|
      reads this`accesses, accesses`accessType
    {
      forall l {:trigger IsAllocation(l)} :: lo <= l < hi ==> !IsAllocation(l)
    }

    lemma WriteMeans(q: nat)
      requires Mirrors() && q <= |accesses|
      ensures WriteIs(YoungestOf(log, q, IsWrite), q)
    {
      YoungestMeans(log, q, IsWrite);
      forall k | 0 <= k < q ensures IsStore(k) == IsWrite(log[k].kind) && log[k].frame == accesses[k] {
        assert Reflects(log[k], accesses[k]);
      }
      if YoungestOf(log, q, IsWrite) != null {
        var k :| 0 <= k < q && log[k].frame == YoungestOf(log, q, IsWrite) && IsLast(log, q, k, IsWrite);
        assert IsStore(k);
      }
    }

    lemma AllocMeans(q: nat)
      requires Mirrors() && q <= |accesses|
      ensures AllocIs(YoungestOf(log, q, IsAlloc), q)
    {
      YoungestMeans(log, q, IsAlloc);
      forall k | 0 <= k < q ensures IsAllocation(k) == IsAlloc(log[k].kind) && log[k].frame == accesses[k] {
        assert Reflects(log[k], accesses[k]);
      }
      if YoungestOf(log, q, IsAlloc) != null {
        var k :| 0 <= k < q && log[k].frame == YoungestOf(log, q, IsAlloc) && IsLast(log, q, k, IsAlloc);
        assert IsAllocation(k);
      }
    }

    /** The youngest write older than the given access, or the youngest of all. */
    method GetInFlightWrite(olderThan: Frame?) returns (f: Frame?)
      requires ValidAccesses() && (olderThan != null ==> olderThan in accesses)
      ensures f == YoungestOf(log, if olderThan == null then |accesses| else Position(accesses, olderThan), IsWrite)
      ensures WriteIs(f, if olderThan == null then |accesses| else Position(accesses, olderThan))
    {
      WriteMeans(if olderThan == null then |accesses| else Position(accesses, olderThan));
      if olderThan == null {
        LastPicked(log, IsWrite);
        return if |writeAccesses| > 0 then writeAccesses[|writeAccesses| - 1] else null;
      }
      var it := Position(accesses, olderThan);
      while it > 0
        invariant 0 <= it <= |accesses|
        invariant YoungestOf(log, it, IsWrite) == YoungestOf(log, Position(accesses, olderThan), IsWrite)
      {
        it := it - 1;
        var frame := accesses[it];
        assert Reflects(log[it], frame);
        if frame.accessType == Store {
          return frame;
        }
      }
      return null;
    }

    /** The youngest allocation older than the given access, or the youngest of all. */
    method GetInFlightAlloc(olderThan: Frame?) returns (f: Frame?)
      requires ValidAccesses() && (olderThan != null ==> olderThan in accesses)
      ensures f == YoungestOf(log, if olderThan == null then |accesses| else Position(accesses, olderThan), IsAlloc)
      ensures AllocIs(f, if olderThan == null then |accesses| else Position(accesses, olderThan))
    {
      AllocMeans(if olderThan == null then |accesses| else Position(accesses, olderThan));
      if olderThan == null {
        LastPicked(log, IsAlloc);
        return if |allocAccesses| > 0 then allocAccesses[|allocAccesses| - 1] else null;
      }
      var it := Position(accesses, olderThan);
      while it > 0
        invariant 0 <= it <= |accesses|
        invariant YoungestOf(log, it, IsAlloc) == YoungestOf(log, Position(accesses, olderThan), IsAlloc)
      {
        it := it - 1;
        var frame := accesses[it];
        assert Reflects(log[it], frame);
        if frame.accessType == ReadAlloc || frame.accessType == NoReadAlloc {
          return frame;
        }
      }
      return null;
    }

    /** The frame at position `j`, or its master, which has none itself. */
    method LeaderAt(j: nat) returns (m: Frame)
      requires ValidAccesses() && j < |accesses|
      ensures m == Leader(log[j]) && m in accesses && m.masterFrame == null
    {
      var frame := accesses[j];
      assert Reflects(log[j], frame);
      if frame.masterFrame == null {
        return frame;
      }
      assert MasterOk(log, j);
      ghost var i :| 0 <= i < j && MasterAt(log, i, j);
      assert Reflects(log[i], accesses[i]);
      assert frame.masterFrame.masterFrame == null;
      return frame.masterFrame;
    }

    /** The read case of CanCoalesce: the group of loads before position `q`. */
    method JoinedLoad(q: nat, address: nat) returns (j: int)
      requires Mirrors() && q <= |accesses|
      ensures j == LoadScan(log, q, Block(address))
    {
      j := q - 1;
      while j >= 0
        invariant -1 <= j < q
        invariant LoadScan(log, q, Block(address)) == LoadScan(log, j + 1, Block(address))
      {
        var frame := accesses[j];
        assert Reflects(log[j], frame);
        if frame.accessType != Load {
          return -1;
        }
        if Block(frame.address) == Block(address) {
          return;
        }
        j := j - 1;
      }
    }

    /** The store cases of CanCoalesce: the access just before position `q`. */
    method JoinedStore(accessType: AccessType, q: nat, address: nat) returns (j: int)
      requires Mirrors() && 0 < q <= |accesses|
      requires accessType == Store || accessType == NCStore
      ensures j == Joined(log, q, accessType, Block(address))
    {
      var frame := accesses[q - 1];
      assert Reflects(log[q - 1], frame);
      if frame.accessType != accessType {
        return -1;
      }
      if Block(frame.address) != Block(address) {
        return -1;
      }
      if frame.portLocked {
        return -1;
      }
      return q - 1;
    }

    /** The cases by access type: the position of the access joined, or -1. */
    method JoinedAt(accessType: AccessType, q: nat, address: nat) returns (j: int)
      requires Mirrors() && 0 < q <= |accesses|
      ensures j == Joined(log, q, accessType, Block(address))
    {
      match accessType {
        case Load => j := JoinedLoad(q, address);
        case Store => j := JoinedStore(accessType, q, address);
        case NCStore => j := JoinedStore(accessType, q, address);
        case _ => j := -1;
      }
    }

    /** Whether an older access to the block is in flight at all. */
    method HasOlder(address: nat, olderThan: Frame) returns (r: bool)
      requires ValidAccesses()
      ensures r <==> OlderId(log, Block(address), olderThan.id)
    {
      var older := GetInFlightAddress(address, olderThan);
      r := older != null;
      assert forall k :: 0 <= k < |log| ==> log[k].frame == accesses[k] && log[k].block == Block(accesses[k].address);
    }

    /** The access that one of the given type and address can coalesce with. */
    method CanCoalesce(accessType: AccessType, address: nat, olderThan: Frame) returns (m: Frame?)
      requires ValidAccesses() && olderThan in accesses && accessType != Invalid
      ensures m == MasterFor(log, Position(accesses, olderThan), accessType, Block(address), olderThan.id)
      ensures m != null ==> m in accesses && m.masterFrame == null
      ensures var q, block := Position(accesses, olderThan), Block(address);
        m == null <==> !OlderId(log, block, olderThan.id) || forall j :: !Candidate(log, q, accessType, block, j)
      ensures var q, block := Position(accesses, olderThan), Block(address);
        forall j {:trigger YoungestCandidate(log, q, accessType, block, j)} ::
          YoungestCandidate(log, q, accessType, block, j) && OlderId(log, block, olderThan.id) ==>
            m == if log[j].master != null then log[j].master else log[j].frame
    {
      var q := Position(accesses, olderThan);
      MasterForMeans(log, q, accessType, Block(address), olderThan.id);
      var older := HasOlder(address, olderThan);
      if !older || q == 0 {
        return null;
      }
      var j := JoinedAt(accessType, q, address);
      if j == -1 {
        return null;
      }
      m := LeaderAt(j);
    }

    /** The frame, the youngest access, follows the master. */
    method Coalesce(master: Frame, frame: Frame)
      requires Mirrors() && accesses != [] && accesses[|accesses| - 1] == frame
      requires OneFrameEach(log) && frame.accessType != Invalid && master.masterFrame == null
      modifies frame`coalesced, frame`masterFrame, this`numCoalescedAccesses, this`log
      ensures Mirrors() && log == WithMaster(old(log), master)
      ensures frame.coalesced && frame.masterFrame == master
      ensures numCoalescedAccesses == old(numCoalescedAccesses) + 1
    {
      frame.coalesced := true;
      frame.masterFrame := master;
      numCoalescedAccesses := numCoalescedAccesses + 1;
      log := WithMaster(log, master);
      assert OwnFrame(old(log), |accesses| - 1);
      assert forall k :: 0 <= k < |log| ==> old(log[k].frame) == accesses[k];
    }

    /** The frame waits for an in-flight access to complete. */
    method WaitFor(master: Frame, frame: Frame)
      requires Mirrors()
      modifies master`queue, this`log
      ensures Mirrors() && log == WithWaiter(old(log), master, frame)
      ensures master.queue == old(master.queue) + [frame]
    {
      master.queue := master.queue + [frame];
      log := WithWaiter(log, master, frame);
      forall k | 0 <= k < |log| ensures Reflects(log[k], accesses[k]) {
        assert old(Reflects(log[k], accesses[k]));
      }
    }

    /** The flag a handler sets when the access has locked its first port. */
    method MarkPortLocked(frame: Frame, ghost at: nat, locked: bool)
      requires ValidAccesses() && at < |accesses| && accesses[at] == frame
      modifies frame`portLocked, this`log
      ensures ValidAccesses() && log == Flagged(old(log), at, locked) && frame.portLocked == locked
    {
      assert OwnFrame(log, at);
      frame.portLocked := locked;
      FlagKeeps(Kept(), numCoalescedAccesses, at, locked);
      log := Flagged(log, at, locked);
      forall k | 0 <= k < |log| ensures Reflects(log[k], accesses[k]) {
        assert old(Reflects(log[k], accesses[k]));
        assert old(log[k]).frame == accesses[k] && old(log)[at].frame == frame;
      }
    }

    /** The youngest access follows the master and waits for it. */
    method FollowAndWait(master: Frame, frame: Frame)
      requires Mirrors() && accesses != [] && accesses[|accesses| - 1] == frame
      requires OneFrameEach(log) && frame.accessType != Invalid && master.masterFrame == null
      modifies frame`coalesced, frame`masterFrame, master`queue, this`numCoalescedAccesses, this`log
      ensures Mirrors() && log == WithWaiter(WithMaster(old(log), master), master, frame)
      ensures frame.coalesced && frame.masterFrame == master && master.queue == old(master.queue) + [frame]
      ensures numCoalescedAccesses == old(numCoalescedAccesses) + 1
    {
      Coalesce(master, frame);
      WaitFor(master, frame);
    }

    /** The youngest access follows a master, if there is one for it, and waits for it. */
    method FollowMaster(frame: Frame, ghost s: Log, ghost a: Access) returns (m: Frame?)
      requires ValidAccesses() && log == s + [a] && Reflects(a, frame)
      requires frame in accesses && Position(accesses, frame) == |s| && a.kind != Invalid
      modifies this`log, this`numCoalescedAccesses, frame`coalesced, frame`masterFrame, accesses`queue
      ensures Mirrors() && m == MasterFor(s + [a], |s|, a.kind, a.block, frame.id)
      ensures log == Followed(s + [a], m, frame)
      ensures m != null ==> frame.coalesced && frame.masterFrame == m && m.queue == old(m.queue) + [frame]
      ensures numCoalescedAccesses == old(numCoalescedAccesses) + if m == null then 0 else 1
    {
      m := CanCoalesce(frame.accessType, frame.address, frame);
      if m != null {
        CoalescingsBound(log);
        assert numCoalescedAccesses <= |accesses|;
        FollowAndWait(m, frame);
      }
    }

    /** The access `a` of the frame has just started; `t` is how the tables were before. */
    ghost predicate Opened(frame: Frame, t: Tables, a: Access)
      reads this`accesses, this`log, this`writeAccesses, this`allocAccesses, this`inFlightBlockAddresses
      reads this`inFlightAccessIds, this`numCoalescedAccesses, accesses`accessType, accesses`coalesced
      reads accesses`masterFrame, accesses`portLocked, accesses`queue
    {
      && ValidAccesses() && Kept() == Entered(t, a) && frame in accesses && Reflects(a, frame)
      && Position(accesses, frame) == |t.log|
      && Good(t, numCoalescedAccesses) && IsNew(t.log, a) && frame.id !in t.ids
    }

    /** The same for the tables: `t` is how they were before the access started. */
    method FollowInTables(frame: Frame, ghost t: Tables, ghost a: Access) returns (m: Frame?)
      requires Opened(frame, t, a)
      modifies this`log, this`numCoalescedAccesses, frame`coalesced, frame`masterFrame, accesses`queue
      ensures ValidAccesses() && m == MasterFor(t.log + [a], |t.log|, a.kind, a.block, frame.id)
      ensures Kept() == Entered(t, a).(log := Followed(t.log + [a], m, frame))
      ensures m != null ==> frame.coalesced && frame.masterFrame == m
    {
      m := FollowMaster(frame, t.log, a);
      assert Kept() == Entered(t, a).(log := Followed(t.log + [a], m, frame));
      BeginKeeps(t, old(numCoalescedAccesses), a, m);
    }

    lemma ReadyToStart(frame: Frame, a: Access)
      requires ValidAccesses() && frame !in accesses && frame.id !in inFlightAccessIds
      requires a.frame == frame && a.kind != Invalid && !a.coalesced && a.master == null
      ensures Good(Kept(), numCoalescedAccesses) && IsNew(log, a) && Good(Entered(Kept(), a), numCoalescedAccesses)
    {
      ListedFrames();
      StartKeeps(Kept(), numCoalescedAccesses, a);
    }

    /** What has to hold of the lists and the tables for the access to be open. */
    lemma IsOpened(frame: Frame, t: Tables, a: Access, s: seq<Frame>)
      requires Mirrors() && Kept() == Entered(t, a) && Reflects(a, frame) && accesses == s + [frame] && frame !in s
      requires Good(t, numCoalescedAccesses) && Good(Entered(t, a), numCoalescedAccesses)
      requires IsNew(t.log, a) && frame.id !in t.ids
      ensures Opened(frame, t, a)
    {
      PositionLast(s, frame);
    }

    /** The access starts; nothing is coalesced yet. */
    method Open(frame: Frame, accessType: AccessType, ghost a: Access)
      requires ValidAccesses() && accessType != Invalid
      requires frame !in accesses && frame.id !in inFlightAccessIds
      requires a == Access(frame, Block(frame.address), accessType, false, null, frame.portLocked, frame.queue)
      requires !frame.coalesced && frame.masterFrame == null
      modifies this`accesses, this`writeAccesses, this`allocAccesses, this`log
      modifies this`inFlightBlockAddresses, this`inFlightAccessIds, frame`accessType
      ensures accesses == old(accesses) + [frame] && Opened(frame, old(Kept()), a)
    {
      ghost var t, s := Kept(), accesses;
      ReadyToStart(frame, a);
      StartAccess(frame, accessType, a);
      IsOpened(frame, t, a, s);
    }

    /** How the load and store handlers open an access: it starts, and follows a master if
        there is one for it, waiting for the master to complete. */
    method Begin(frame: Frame, accessType: AccessType, ghost a: Access) returns (m: Frame?)
      requires ValidAccesses() && accessType != Invalid
      requires frame !in accesses && frame.id !in inFlightAccessIds
      requires a == Access(frame, Block(frame.address), accessType, false, null, frame.portLocked, frame.queue)
      requires !frame.coalesced && frame.masterFrame == null
      modifies this`accesses, this`writeAccesses, this`allocAccesses, this`log, this`numCoalescedAccesses
      modifies this`inFlightBlockAddresses, this`inFlightAccessIds
      modifies frame`accessType, frame`coalesced, frame`masterFrame, frame`queue, accesses`queue
      ensures ValidAccesses() && accesses == old(accesses) + [frame]
      ensures Kept() == Entered(old(Kept()), a).(log := Followed(old(log) + [a], m, frame))
      ensures m == MasterFor(old(log) + [a], |old(log)|, a.kind, a.block, frame.id)
      ensures m != null ==> frame.coalesced && frame.masterFrame == m
    {
      ghost var t, s := Kept(), accesses + [frame];
      Open(frame, accessType, a);
      assert accesses == s;
      m := FollowInTables(frame, t, a);
      assert accesses == s && t == old(Kept());
    }

    lemma ListedFrames()
      requires Mirrors()
      ensures forall k {:trigger log[k]} :: 0 <= k < |log| ==> log[k].frame in accesses
    {
      forall k | 0 <= k < |log| ensures log[k].frame in accesses {
        assert log[k].frame == accesses[k];
      }
    }

    // ---------- Ports ----------

    /** `owners` records the frame at each port. */
    ghost predicate OwnersMirrored()
      reads this`owners, ports`frame
    {
      |owners| == |ports| && forall i {:trigger owners[i]} {:trigger ports[i]} :: 0 <= i < |owners| ==>
        owners[i] == ports[i].frame
    }

    ghost predicate OwnerLinked(i: nat)
      requires i < |owners| && i < |ports|
      reads this`owners, this`clients, clients`port
    {
      owners[i] != null ==> owners[i] in clients && owners[i].port == ports[i]
    }

    ghost predicate ClientLinked(f: Frame)
      reads this`portQueue, this`owners, f`port
    {
      && (f.port != null ==> exists i :: 0 <= i < |owners| && i < |ports| && ports[i] == f.port && owners[i] == f)
      && (f in portQueue ==> f.port == null)
    }

    ghost predicate OwnPort(i: nat)
      requires i < |ports|
    {
      forall j {:trigger ports[j]} :: 0 <= j < |ports| && j != i ==> ports[j] != ports[i]
    }

    /** Port and frame point to each other; a waiting frame has no port. */
    ghost predicate PortsLinked()
      reads this`portQueue, this`owners, this`clients, ports`frame, clients`port
    {
      && OwnersMirrored()
      && (forall i {:trigger OwnPort(i)} :: 0 <= i < |ports| ==> OwnPort(i))
      && (forall i {:trigger OwnerLinked(i)} :: 0 <= i < |ports| ==> OwnerLinked(i))
      && (forall f {:trigger ClientLinked(f)} :: f in clients ==> ClientLinked(f))
      && (forall f {:trigger f in portQueue} :: f in portQueue ==> f in clients)
    }

    ghost predicate ValidPorts()
      reads this`portQueue, this`owners, this`clients, this`numLockedPorts, ports`frame, clients`port
    {
      PortsLinked() && Fair(Ports(owners, portQueue)) && numLockedPorts == Taken(owners)
    }

    /** The first free port. */
    method FindFreePort() returns (k: nat)
      requires OwnersMirrored()
      ensures k == FreePort(owners, 0)
    {
      k := 0;
      while k < |ports|
        invariant k <= |ports|
        invariant FreePort(owners, 0) == FreePort(owners, k)
      {
        assert owners[k] == ports[k].frame;
        if ports[k].frame == null {
          break;
        }
        k := k + 1;
      }
    }

    method TakePort(port: Port, frame: Frame, ghost k: nat)
      requires PortsLinked() && k < |ports| && ports[k] == port && port.frame == null && frame.port == null
      requires frame !in portQueue
      modifies port`frame, frame`port, this`clients, this`owners
      ensures PortsLinked() && owners == old(owners[k := frame])
      ensures frame.port == port && clients == old(clients) + {frame}
    {
      assert OwnPort(k) && owners[k] == null;
      port.frame := frame;
      frame.port := port;
      clients := clients + {frame};
      owners := owners[k := frame];
      forall i | 0 <= i < |ports| ensures OwnerLinked(i) {
        assert old(OwnerLinked(i));
      }
      forall f | f in clients ensures ClientLinked(f) {
        if f == frame {
          assert ports[k] == port && owners[k] == f;
        } else {
          assert old(ClientLinked(f));
          if f.port != null {
            ghost var i :| 0 <= i < |ports| && ports[i] == f.port && old(owners)[i] == f;
            assert owners[i] == f;
          }
        }
      }
    }

    method ReleasePort(port: Port, frame: Frame, ghost k: nat)
      requires PortsLinked() && k < |ports| && ports[k] == port && port.frame == frame && frame.port == port
      requires OneOwnerEach(owners)
      modifies port`frame, frame`port, this`owners
      ensures PortsLinked() && owners == old(owners[k := null])
      ensures frame.port == null && port.frame == null
    {
      assert OwnPort(k) && owners[k] == frame && OneOwner(owners, k);
      port.frame := null;
      frame.port := null;
      owners := owners[k := null];
      forall i | 0 <= i < |ports| ensures OwnerLinked(i) {
        assert old(OwnerLinked(i));
      }
      forall f | f in clients ensures ClientLinked(f) {
        assert old(ClientLinked(f));
        if f.port != null {
          ghost var i :| 0 <= i < |ports| && ports[i] == f.port && old(owners)[i] == f;
          assert owners[i] == f;
        }
      }
    }

    /** The frame joins the queue; a down-up request goes before all others. */
    method JoinQueue(frame: Frame)
      requires PortsLinked() && frame.port == null
      modifies this`portQueue, this`clients
      ensures PortsLinked() && clients == old(clients) + {frame}
      ensures portQueue == if frame.downUp then [frame] + old(portQueue) else old(portQueue) + [frame]
    {
      portQueue := if frame.downUp then [frame] + portQueue else portQueue + [frame];
      clients := clients + {frame};
      forall f | f in clients ensures ClientLinked(f) {
        assert f in old(clients) ==> old(ClientLinked(f));
      }
      forall i | 0 <= i < |ports| ensures OwnerLinked(i) {
        assert old(OwnerLinked(i));
      }
    }

    /** A frame asks for a port; the result says whether it got one at once. */
    method LockPort(frame: Frame) returns (locked: bool)
      requires ValidPorts() && frame.port == null && frame !in portQueue
      modifies this`portQueue, this`numLockedPorts, this`clients, this`owners, ports`frame, frame`port
      ensures ValidPorts() && Ports(owners, portQueue) == Asked(old(Ports(owners, portQueue)), frame, frame.downUp)
      ensures locked <==> frame.port != null
      ensures locked <==> null in old(owners)
      ensures locked ==> exists k ::
        0 <= k < |ports| && Gets(old(Ports(owners, portQueue)), Ports(owners, portQueue), frame, k)
      ensures !locked ==> owners == old(owners)
      ensures !locked ==> portQueue == if frame.downUp then [frame] + old(portQueue) else old(portQueue) + [frame]
      ensures clients == old(clients) + {frame}
    {
      AskedMeans(Ports(owners, portQueue), frame, frame.downUp);
      ghost var ps := Ports(owners, portQueue);
      forall i | 0 <= i < |ports| ensures owners[i] != frame {
        assert OwnerLinked(i);
      }
      AskedFair(ps, frame, frame.downUp);
      TakenAll(owners);
      if numLockedPorts >= |ports| {
        JoinQueue(frame);
        return false;
      }
      TakeFreePort(frame);
      return true;
    }

    /** The frame gets the first free port. */
    method TakeFreePort(frame: Frame)
      requires PortsLinked() && frame.port == null && frame !in portQueue && FreePort(owners, 0) < |owners|
      modifies this`numLockedPorts, this`clients, this`owners, ports`frame, frame`port
      ensures PortsLinked() && owners == old(owners[FreePort(owners, 0) := frame])
      ensures numLockedPorts == old(numLockedPorts) + 1
      ensures frame.port != null && clients == old(clients) + {frame}
    {
      var k := FindFreePort();
      assert owners[k] == ports[k].frame;
      TakePort(ports[k], frame, k);
      numLockedPorts := numLockedPorts + 1;
    }

    /** The first waiting frame leaves the queue. */
    method PopQueue()
      requires PortsLinked() && portQueue != []
      modifies this`portQueue
      ensures PortsLinked() && portQueue == old(portQueue[1..])
      ensures old(portQueue[0]).port == null && old(portQueue[0]) in clients
    {
      assert portQueue[0] in portQueue && ClientLinked(portQueue[0]);
      portQueue := portQueue[1..];
      assert forall f :: f in portQueue ==> f in old(portQueue);
      forall f | f in clients ensures ClientLinked(f) {
        assert old(ClientLinked(f));
      }
      forall i | 0 <= i < |ports| ensures OwnerLinked(i) {
        assert old(OwnerLinked(i));
      }
    }

    /** The first waiting frame gets a free port. */
    method HandOver(port: Port, ghost k: nat) returns (next: Frame)
      requires PortsLinked() && portQueue != [] && portQueue[0] !in portQueue[1..]
      requires k < |ports| && ports[k] == port && port.frame == null
      modifies this`portQueue, this`clients, this`owners, port`frame, portQueue`port
      ensures PortsLinked() && clients == old(clients)
      ensures portQueue == old(portQueue[1..]) && owners == old(owners[k := portQueue[0]])
      ensures next == old(portQueue[0]) && next.port == port
    {
      next := portQueue[0];
      PopQueue();
      TakePort(port, next, k);
      assert clients == old(clients);
    }

    /** The frame gives its port back; the first waiting frame, if any, gets it. */
    method UnlockPort(port: Port, frame: Frame, ghost k: nat) returns (next: Frame?)
      requires ValidPorts() && frame in clients && frame.port == port
      requires k < |ports| && ports[k] == port
      modifies this`portQueue, this`numLockedPorts, this`clients, this`owners, port`frame, frame`port, portQueue`port
      ensures ValidPorts() && Ports(owners, portQueue) == Passed(old(Ports(owners, portQueue)), k)
      ensures clients == old(clients)
      ensures next == if old(portQueue) == [] then null else old(portQueue[0])
      ensures owners == old(owners)[k := next]
      ensures portQueue == if old(portQueue) == [] then [] else old(portQueue[1..])
      ensures next != null ==> next.port == port
    {
      ghost var ps := Ports(owners, portQueue);
      assert ClientLinked(frame) && OwnPort(k);
      assert owners[k] == port.frame == frame;
      PassedFair(ps, k);
      assert numLockedPorts > 0;
      ReleasePort(port, frame, k);
      numLockedPorts := numLockedPorts - 1;
      if portQueue == [] {
        return null;
      }
      next := HandOver(port, k);
      assert ps.owners[k := null][k := next] == ps.owners[k := next];
      numLockedPorts := numLockedPorts + 1;
    }
  }
}

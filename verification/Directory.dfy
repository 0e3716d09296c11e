/** The sharers, owners and entry locks of a cache directory: memory/Directory.cc. */
module CacheDirectory {

  const NO_OWNER := -1

  // ---------- Dimensions and positions ----------

  datatype Dims = Dims(sets: nat, ways: nat, subBlocks: nat, nodes: nat)

  /** The coordinates of a directory entry. */
  datatype Place = Place(set_: nat, way: nat, subBlock: nat)

  predicate Inside(d: Dims, p: Place) {
    p.set_ < d.sets && p.way < d.ways && p.subBlock < d.subBlocks
  }

  /** The position of an entry in the array of entries. */
  function EntryIndex(d: Dims, p: Place): (e: nat) {
    p.set_ * d.ways * d.subBlocks + p.way * d.subBlocks + p.subBlock
  }

  /** The position of a sharer in the bitmap. */
  function BitIndex(d: Dims, p: Place, node: nat): (i: nat) {
    p.set_ * d.ways * d.subBlocks * d.nodes + p.way * d.subBlocks * d.nodes + p.subBlock * d.nodes + node
  }

  function NumEntries(d: Dims): nat {
    d.sets * d.ways * d.subBlocks
  }

  function NumBits(d: Dims): nat {
    d.sets * d.ways * d.subBlocks * d.nodes
  }

  lemma MulAdd(a: int, b: int, c: int)
    ensures (a + b) * c == a * c + b * c
  {
  }

  lemma MulMono(a: int, b: int, c: int)
    requires a <= b && 0 <= c
    ensures a * c <= b * c
  {
  }

  /** Row-major positions: below the size, and each position used once. */
  lemma RowMajor(q: nat, n: nat, r: nat, m: nat)
    requires q < m && r < n
    ensures q * n + r < m * n
  {
    MulMono(q + 1, m, n);
    MulAdd(q, 1, n);
  }

  lemma RowMajorUnique(q: nat, r: nat, q': nat, r': nat, n: nat)
    requires r < n && r' < n && q * n + r == q' * n + r'
    ensures q == q' && r == r'
  {
    if q < q' {
      MulMono(q + 1, q', n);
      MulAdd(q, 1, n);
    } else if q' < q {
      MulMono(q' + 1, q, n);
      MulAdd(q', 1, n);
    }
  }

  /** The entry's position, one dimension at a time. */
  lemma EntryByRows(d: Dims, p: Place)
    ensures EntryIndex(d, p) == Row(d, p) * d.subBlocks + p.subBlock
  {
    MulAdd(p.set_ * d.ways, p.way, d.subBlocks);
  }

  lemma EntryInRange(d: Dims, p: Place)
    requires Inside(d, p)
    ensures EntryIndex(d, p) < NumEntries(d)
  {
    EntryByRows(d, p);
    RowMajor(p.set_, d.ways, p.way, d.sets);
    RowMajor(Row(d, p), d.subBlocks, p.subBlock, d.sets * d.ways);
  }

  function Row(d: Dims, p: Place): nat {
    p.set_ * d.ways + p.way
  }

  lemma SameRow(d: Dims, p: Place, q: Place)
    requires Inside(d, p) && Inside(d, q) && Row(d, p) == Row(d, q)
    ensures p.set_ == q.set_ && p.way == q.way
  {
    RowMajorUnique(p.set_, p.way, q.set_, q.way, d.ways);
  }

  lemma SameEntry(d: Dims, p: Place, q: Place, e: nat)
    requires Inside(d, p) && Inside(d, q)
    requires e == Row(d, p) * d.subBlocks + p.subBlock && e == Row(d, q) * d.subBlocks + q.subBlock
    ensures p == q
  {
    RowMajorUnique(Row(d, p), p.subBlock, Row(d, q), q.subBlock, d.subBlocks);
    SameRow(d, p, q);
  }

  /** Different places have different entries. */
  lemma EntryUnique(d: Dims, p: Place, q: Place)
    requires Inside(d, p) && Inside(d, q) && EntryIndex(d, p) == EntryIndex(d, q)
    ensures p == q
  {
    EntryByRows(d, p);
    EntryByRows(d, q);
    SameEntry(d, p, q, EntryIndex(d, p));
  }

  /** An entry's sharers are consecutive bits. */
  lemma BitOfEntry(d: Dims, p: Place, node: nat)
    ensures BitIndex(d, p, node) == EntryIndex(d, p) * d.nodes + node
  {
    MulAdd(p.set_ * d.ways * d.subBlocks + p.way * d.subBlocks, p.subBlock, d.nodes);
    MulAdd(p.set_ * d.ways * d.subBlocks, p.way * d.subBlocks, d.nodes);
  }

  lemma BitInRange(d: Dims, p: Place, node: nat)
    requires Inside(d, p) && node < d.nodes
    ensures BitIndex(d, p, node) < NumBits(d)
  {
    BitOfEntry(d, p, node);
    EntryInRange(d, p);
    RowMajor(EntryIndex(d, p), d.nodes, node, NumEntries(d));
  }

  // ---------- The directory as a value ----------

  datatype Entry = Entry(owner: int, numSharers: int)

  datatype State = State(sharers: seq<bool>, entries: seq<Entry>)

  predicate Shaped(d: Dims, st: State) {
    |st.sharers| == NumBits(d) && |st.entries| == NumEntries(d)
  }

  function BitAt(st: State, i: nat): bool {
    i < |st.sharers| && st.sharers[i]
  }

  predicate Shares(d: Dims, st: State, e: nat, n: nat) {
    BitAt(st, e * d.nodes + n)
  }

  /** The nodes that share entry number `e`. */
  function Nodes(d: Dims, st: State, e: nat): set<nat> {
    set n: nat {:trigger Shares(d, st, e, n)} | n < d.nodes && Shares(d, st, e, n)
  }

  function SharersOf(d: Dims, st: State, p: Place): set<nat> {
    Nodes(d, st, EntryIndex(d, p))
  }

  predicate Counted(d: Dims, st: State, e: nat)
    requires e < |st.entries|
  {
    st.entries[e].numSharers == |Nodes(d, st, e)|
  }

  /** Every counter is the number of sharers set for its entry. */
  predicate Consistent(d: Dims, st: State) {
    Shaped(d, st) && forall e {:trigger Counted(d, st, e)} :: 0 <= e < |st.entries| ==> Counted(d, st, e)
  }

  datatype Update =
    | SetOwner(place: Place, owner: int)
    | SetSharer(place: Place, node: nat)
    | ClearSharer(place: Place, node: nat)
    | ClearAllSharers(place: Place)

  predicate Proper(d: Dims, u: Update) {
    Inside(d, u.place)
    && match u
       case SetOwner(_, owner) => owner == NO_OWNER || 0 <= owner < d.nodes
       case SetSharer(_, node) => node < d.nodes
       case ClearSharer(_, node) => node < d.nodes
       case ClearAllSharers(_) => true
  }

  function WithCount(st: State, e: nat, n: int): State
    requires e < |st.entries|
  {
    st.(entries := st.entries[e := st.entries[e].(numSharers := n)])
  }

  function WithBit(st: State, i: nat, b: bool): State
    requires i < |st.sharers|
  {
    st.(sharers := st.sharers[i := b])
  }

  /** The bits of entry `e` from node `from` on are cleared. */
  function Cleared(sharers: seq<bool>, lo: nat, n: nat): (r: seq<bool>)
    requires lo + n <= |sharers|
    ensures |r| == |sharers|
    ensures forall i {:trigger r[i]} :: 0 <= i < |r| ==> r[i] == (sharers[i] && !(lo <= i < lo + n))
  {
    if n == 0 then sharers else Cleared(sharers, lo, n - 1)[lo + n - 1 := false]
  }

  /** The node an update names; 0 for those of a whole entry. */
  function NodeOf(u: Update): nat {
    match u
    case SetOwner(_, _) => 0
    case SetSharer(_, node) => node
    case ClearSharer(_, node) => node
    case ClearAllSharers(_) => 0
  }

  /** Bit `i` and entry `e` are there for the update. */
  predicate Reaches(nodes: nat, st: State, e: nat, i: nat, u: Update) {
    && e < |st.entries|
    && (u.SetSharer? || u.ClearSharer? ==> i < |st.sharers|)
    && (u.ClearAllSharers? ==> i + nodes <= |st.sharers|)
  }

  /** What the code does with an update, given the positions of entry and bit. */
  function AppliedAt(nodes: nat, st: State, e: nat, i: nat, u: Update): State
    requires Reaches(nodes, st, e, i, u)
  {
    match u
    case SetOwner(_, owner) => st.(entries := st.entries[e := st.entries[e].(owner := owner)])
    case SetSharer(_, _) =>
      if st.sharers[i] then st else WithBit(WithCount(st, e, st.entries[e].numSharers + 1), i, true)
    case ClearSharer(_, _) =>
      if !st.sharers[i] then st else WithBit(WithCount(st, e, st.entries[e].numSharers - 1), i, false)
    case ClearAllSharers(_) =>
      if st.entries[e].numSharers == 0 then st
      else WithCount(st.(sharers := Cleared(st.sharers, i, nodes)), e, 0)
  }

  /** What the code does with an update. */
  function Applied(d: Dims, st: State, u: Update): State
    requires Shaped(d, st) && Proper(d, u)
  {
    UpdateReaches(d, st, u);
    AppliedAt(d.nodes, st, EntryIndex(d, u.place), BitIndex(d, u.place, NodeOf(u)), u)
  }

  lemma UpdateReaches(d: Dims, st: State, u: Update)
    requires Shaped(d, st) && Proper(d, u)
    ensures Reaches(d.nodes, st, EntryIndex(d, u.place), BitIndex(d, u.place, NodeOf(u)), u)
    ensures BitIndex(d, u.place, NodeOf(u)) == EntryIndex(d, u.place) * d.nodes + NodeOf(u)
  {
    EntryInRange(d, u.place);
    BitOfEntry(d, u.place, NodeOf(u));
    if u.ClearAllSharers? {
      BitsInRange(d, u.place);
    } else if !u.SetOwner? {
      BitInRange(d, u.place, NodeOf(u));
    }
  }

  lemma BitsInRange(d: Dims, p: Place)
    requires Inside(d, p)
    ensures BitIndex(d, p, 0) + d.nodes <= NumBits(d)
  {
    if d.nodes > 0 {
      BitInRange(d, p, d.nodes - 1);
    } else {
      BitOfEntry(d, p, 0);
    }
  }

  /** What an update means: for its own entry, and for all others. */
  function MeantFor(sharers: set<nat>, u: Update): set<nat> {
    match u
    case SetOwner(_, _) => sharers
    case SetSharer(_, node) => sharers + {node}
    case ClearSharer(_, node) => sharers - {node}
    case ClearAllSharers(_) => {}
  }

  /** Setting one bit changes one sharer of one entry. */
  lemma BitChange(d: Dims, st: State, e: nat, node: nat, b: bool, e': nat)
    requires node < d.nodes && e * d.nodes + node < |st.sharers|
    ensures Nodes(d, WithBit(st, e * d.nodes + node, b), e') ==
      if e' != e then Nodes(d, st, e') else if b then Nodes(d, st, e) + {node} else Nodes(d, st, e) - {node}
  {
    var t := WithBit(st, e * d.nodes + node, b);
    forall n: nat | n < d.nodes
      ensures Shares(d, t, e', n) == if e' == e && n == node then b else Shares(d, st, e', n)
    {
      ChangedBit(d, st, e, node, b, e', n);
    }
  }

  lemma ChangedBit(d: Dims, st: State, e: nat, node: nat, b: bool, e': nat, n: nat)
    requires node < d.nodes && e * d.nodes + node < |st.sharers| && n < d.nodes
    ensures Shares(d, WithBit(st, e * d.nodes + node, b), e', n) ==
      if e' == e && n == node then b else Shares(d, st, e', n)
  {
    if e' * d.nodes + n == e * d.nodes + node {
      RowMajorUnique(e', n, e, node, d.nodes);
    }
  }

  /** Clearing an entry's run of bits leaves it without sharers and the others alone. */
  lemma RunChange(d: Dims, st: State, e: nat, e': nat)
    requires e * d.nodes + d.nodes <= |st.sharers|
    ensures Nodes(d, st.(sharers := Cleared(st.sharers, e * d.nodes, d.nodes)), e') ==
      if e' != e then Nodes(d, st, e') else {}
  {
    var lo := e * d.nodes;
    var t := st.(sharers := Cleared(st.sharers, lo, d.nodes));
    forall n: nat | n < d.nodes ensures Shares(d, t, e', n) == (e' != e && Shares(d, st, e', n)) {
      ClearedBit(d, st, e, e', n);
    }
  }

  lemma ClearedBit(d: Dims, st: State, e: nat, e': nat, n: nat)
    requires e * d.nodes + d.nodes <= |st.sharers| && n < d.nodes
    ensures Shares(d, st.(sharers := Cleared(st.sharers, e * d.nodes, d.nodes)), e', n) ==
      (e' != e && Shares(d, st, e', n))
  {
    var i, lo := e' * d.nodes + n, e * d.nodes;
    if lo <= i < lo + d.nodes {
      RowMajorUnique(e', n, e, i - lo, d.nodes);
    }
  }

  lemma {:induction false} AtMost(s: set<nat>, n: nat)
    requires forall x :: x in s ==> x < n
    ensures |s| <= n
  {
    if n > 0 {
      AtMost(s - {n - 1}, n - 1);
    } else {
      assert s == {};
    }
  }

  lemma CountMeans(d: Dims, st: State, e: nat, n: int, e': nat)
    requires e < |st.entries|
    ensures Nodes(d, WithCount(st, e, n), e') == Nodes(d, st, e')
  {
    forall k: nat | k < d.nodes ensures Shares(d, WithCount(st, e, n), e', k) == Shares(d, st, e', k) {
    }
  }

  lemma OwnerMeans(d: Dims, st: State, e: nat, owner: int, e': nat)
    requires e < |st.entries|
    ensures Nodes(d, st.(entries := st.entries[e := st.entries[e].(owner := owner)]), e') == Nodes(d, st, e')
  {
    var t := st.(entries := st.entries[e := st.entries[e].(owner := owner)]);
    forall k: nat | k < d.nodes ensures Shares(d, t, e', k) == Shares(d, st, e', k) {
    }
  }

  /** The bit of a node says whether it is among the sharers. */
  lemma BitIsSharer(d: Dims, st: State, p: Place, node: nat)
    requires Shaped(d, st) && Inside(d, p) && node < d.nodes
    ensures BitIndex(d, p, node) < |st.sharers|
    ensures st.sharers[BitIndex(d, p, node)] <==> node in SharersOf(d, st, p)
  {
    BitInRange(d, p, node);
    BitOfEntry(d, p, node);
    assert Shares(d, st, EntryIndex(d, p), node) == st.sharers[BitIndex(d, p, node)];
  }

  /** The premises of an update of entry `e`, and of its node's bit `i`. */
  predicate Ready(d: Dims, st: State, e: nat, i: nat, u: Update) {
    && Reaches(d.nodes, st, e, i, u) && Counted(d, st, e)
    && i == e * d.nodes + NodeOf(u) && (u.SetSharer? || u.ClearSharer? ==> NodeOf(u) < d.nodes)
  }

  /** What each update does to the sharers of every entry: its own changes as meant, no
      other one does.  Clearing all may stop early on a zero counter. */
  lemma NodesAfter(d: Dims, st: State, e: nat, i: nat, u: Update, e': nat)
    requires Ready(d, st, e, i, u)
    ensures Nodes(d, AppliedAt(d.nodes, st, e, i, u), e') ==
      if e' == e then MeantFor(Nodes(d, st, e), u) else Nodes(d, st, e')
  {
    match u
    case SetOwner(_, owner) => OwnerMeans(d, st, e, owner, e');
    case SetSharer(_, node) =>
      assert Shares(d, st, e, node) == st.sharers[i];
      var n := st.entries[e].numSharers + 1;
      CountMeans(d, st, e, n, e');
      BitChange(d, WithCount(st, e, n), e, node, true, e');
    case ClearSharer(_, node) =>
      assert Shares(d, st, e, node) == st.sharers[i];
      var n := st.entries[e].numSharers - 1;
      CountMeans(d, st, e, n, e');
      BitChange(d, WithCount(st, e, n), e, node, false, e');
    case ClearAllSharers(_) =>
      if st.entries[e].numSharers != 0 {
        RunChange(d, st, e, e');
        CountMeans(d, st.(sharers := Cleared(st.sharers, i, d.nodes)), e, 0, e');
      }
  }

  lemma SharerCounts(d: Dims, st: State, e: nat, i: nat, node: nat)
    requires node < d.nodes && i == e * d.nodes + node && i < |st.sharers|
    ensures var s := Nodes(d, st, e);
      && |s + {node}| == |s| + (if st.sharers[i] then 0 else 1)
      && |s - {node}| == |s| - (if st.sharers[i] then 1 else 0)
  {
    var s := Nodes(d, st, e);
    assert Shares(d, st, e, node) == st.sharers[i];
    if node in s {
      assert s + {node} == s;
    } else {
      assert s - {node} == s;
    }
  }

  /** Only entry `e` changes, and its owner only by an update of the owner. */
  lemma EntriesAfter(nodes: nat, st: State, e: nat, i: nat, u: Update)
    requires Reaches(nodes, st, e, i, u)
    ensures var t := AppliedAt(nodes, st, e, i, u);
      && |t.sharers| == |st.sharers| && |t.entries| == |st.entries|
      && t.entries[e].owner == (if u.SetOwner? then u.owner else st.entries[e].owner)
      && forall k :: 0 <= k < |t.entries| && k != e ==> t.entries[k] == st.entries[k]
  {
  }

  /** The counter of entry `e` stays exact. */
  lemma CounterAfter(d: Dims, st: State, e: nat, i: nat, u: Update)
    requires Ready(d, st, e, i, u)
    ensures e < |AppliedAt(d.nodes, st, e, i, u).entries|
    ensures AppliedAt(d.nodes, st, e, i, u).entries[e].numSharers == |MeantFor(Nodes(d, st, e), u)|
  {
    match u
    case SetOwner(_, _) =>
    case SetSharer(_, node) => SharerCounts(d, st, e, i, node);
    case ClearSharer(_, node) => SharerCounts(d, st, e, i, node);
    case ClearAllSharers(_) =>
  }

  lemma CountedAfter(d: Dims, st: State, e: nat, i: nat, u: Update, e': nat)
    requires Ready(d, st, e, i, u) && e' < |st.entries| && Counted(d, st, e')
    ensures e' < |AppliedAt(d.nodes, st, e, i, u).entries|
    ensures Counted(d, AppliedAt(d.nodes, st, e, i, u), e')
  {
    NodesAfter(d, st, e, i, u, e');
    EntriesAfter(d.nodes, st, e, i, u);
    CounterAfter(d, st, e, i, u);
  }

  lemma UpdateReady(d: Dims, st: State, u: Update)
    requires Consistent(d, st) && Proper(d, u)
    ensures Ready(d, st, EntryIndex(d, u.place), BitIndex(d, u.place, NodeOf(u)), u)
  {
    UpdateReaches(d, st, u);
    assert Counted(d, st, EntryIndex(d, u.place));
  }

  lemma UpdateMeans(d: Dims, st: State, u: Update, e: nat)
    requires Consistent(d, st) && Proper(d, u)
    ensures Nodes(d, Applied(d, st, u), e) ==
      if e == EntryIndex(d, u.place) then MeantFor(Nodes(d, st, e), u) else Nodes(d, st, e)
  {
    UpdateReady(d, st, u);
    NodesAfter(d, st, EntryIndex(d, u.place), BitIndex(d, u.place, NodeOf(u)), u, e);
  }

  /** The counters stay exact. */
  lemma UpdateKeeps(d: Dims, st: State, u: Update)
    requires Consistent(d, st) && Proper(d, u)
    ensures Consistent(d, Applied(d, st, u))
  {
    var t, e, i := Applied(d, st, u), EntryIndex(d, u.place), BitIndex(d, u.place, NodeOf(u));
    UpdateReady(d, st, u);
    EntriesAfter(d.nodes, st, e, i, u);
    forall e' | 0 <= e' < |t.entries| ensures Counted(d, t, e') {
      assert Counted(d, st, e');
      CountedAfter(d, st, e, i, u, e');
    }
  }

  function OwnerOf(d: Dims, st: State, p: Place): int
    requires Shaped(d, st) && Inside(d, p)
  {
    EntryInRange(d, p);
    st.entries[EntryIndex(d, p)].owner
  }

  lemma CounterBounds(d: Dims, st: State, p: Place)
    requires Consistent(d, st) && Inside(d, p)
    ensures EntryIndex(d, p) < |st.entries|
    ensures st.entries[EntryIndex(d, p)].numSharers == |SharersOf(d, st, p)| <= d.nodes
    ensures forall n: nat :: n < d.nodes && n !in SharersOf(d, st, p) ==>
      st.entries[EntryIndex(d, p)].numSharers < d.nodes
  {
    EntryInRange(d, p);
    assert Counted(d, st, EntryIndex(d, p));
    var s := SharersOf(d, st, p);
    AtMost(s, d.nodes);
    forall n: nat | n < d.nodes && n !in s ensures |s| < d.nodes {
      AtMost(s + {n}, d.nodes);
    }
  }

  // ---------- Runs ----------

  function Initial(d: Dims): (st: State)
    ensures Shaped(d, st)
  {
    State(seq(NumBits(d), _ => false), seq(NumEntries(d), _ => Entry(NO_OWNER, 0)))
  }

  lemma InitialConsistent(d: Dims)
    ensures Consistent(d, Initial(d))
  {
    var st := Initial(d);
    forall e | 0 <= e < |st.entries| ensures Counted(d, st, e) {
      assert Nodes(d, st, e) == {};
    }
  }

  predicate AllProper(d: Dims, us: seq<Update>) {
    forall i :: 0 <= i < |us| ==> Proper(d, us[i])
  }

  ghost predicate Run(d: Dims, states: seq<State>, us: seq<Update>) {
    && |states| == |us| + 1 && states[0] == Initial(d) && AllProper(d, us)
    && forall i {:trigger us[i]} :: 0 <= i < |us| ==>
         Shaped(d, states[i]) && states[i + 1] == Applied(d, states[i], us[i])
  }

  /** The sharers of a place after the updates, none elsewhere having any effect on them. */
  function Meaning(us: seq<Update>, p: Place): set<nat> {
    if us == [] then {}
    else
      var s := Meaning(us[..|us| - 1], p);
      var u := us[|us| - 1];
      if u.place == p then MeantFor(s, u) else s
  }

  /** The owner last set for the place. */
  function OwnerMeaning(us: seq<Update>, p: Place): int {
    if us == [] then NO_OWNER
    else
      var u := us[|us| - 1];
      if u.place == p && u.SetOwner? then u.owner else OwnerMeaning(us[..|us| - 1], p)
  }

  /** In every state of every run each place has the owner last set for it. */
  lemma {:induction false} RunOwners(d: Dims, states: seq<State>, us: seq<Update>, i: nat, p: Place)
    requires Run(d, states, us) && i < |states| && Inside(d, p)
    ensures Shaped(d, states[i]) && EntryIndex(d, p) < |states[i].entries|
    ensures states[i].entries[EntryIndex(d, p)].owner == OwnerMeaning(us[..i], p)
  {
    EntryInRange(d, p);
    if i > 0 {
      RunOwners(d, states, us, i - 1, p);
      var u, st := us[i - 1], states[i - 1];
      assert states[i - 1 + 1] == Applied(d, st, u);
      UpdateReaches(d, st, u);
      EntriesAfter(d.nodes, st, EntryIndex(d, u.place), BitIndex(d, u.place, NodeOf(u)), u);
      assert us[..i][..i - 1] == us[..i - 1];
      if u.place != p && EntryIndex(d, u.place) == EntryIndex(d, p) {
        EntryUnique(d, u.place, p);
        assert false;
      }
    }
  }

  /** In every state of every run the counters are exact, and the flat bitmap holds for each
      place exactly the sharers that the updates of that place have left. */
  lemma {:induction false} RunMeans(d: Dims, states: seq<State>, us: seq<Update>, i: nat, p: Place)
    requires Run(d, states, us) && i < |states| && Inside(d, p)
    ensures Consistent(d, states[i]) && SharersOf(d, states[i], p) == Meaning(us[..i], p)
  {
    if i == 0 {
      InitialConsistent(d);
      assert SharersOf(d, states[0], p) == {};
    } else {
      RunMeans(d, states, us, i - 1, p);
      var u := us[i - 1];
      assert states[i - 1 + 1] == Applied(d, states[i - 1], u);
      UpdateKeeps(d, states[i - 1], u);
      UpdateMeans(d, states[i - 1], u, EntryIndex(d, p));
      assert us[..i][..i - 1] == us[..i - 1];
      if u.place != p && EntryIndex(d, u.place) == EntryIndex(d, p) {
        EntryUnique(d, u.place, p);
        assert false;
      }
    }
  }

  // ---------- Entry locks ----------

  /** The access holding the entry, 0 for none, and the accesses waiting for it. */
  datatype Lock = Lock(accessId: int, queue: seq<int>)

  predicate Orderly(l: Lock) {
    0 <= l.accessId && (l.queue != [] ==> l.accessId > 0)
  }

  function Asked(l: Lock, id: int): Lock {
    if l.accessId != 0 then l.(queue := l.queue + [id]) else l.(accessId := id)
  }

  function Released(l: Lock): Lock {
    Lock(0, [])
  }

  datatype LockStep = Ask(id: int) | Release

  /** A lock with its history: accesses let in, refused and woken, and how often released. */
  datatype LockHistory = LockHistory(lock: Lock, granted: seq<int>, refused: seq<int>, woken: seq<int>, releases: nat)

  predicate LockEnabled(h: LockHistory, step: LockStep) {
    match step
    case Ask(id) => id > 0
    case Release => h.lock.accessId > 0
  }

  function LockNext(h: LockHistory, step: LockStep): LockHistory {
    match step
    case Ask(id) =>
      if h.lock.accessId != 0 then h.(lock := Asked(h.lock, id), refused := h.refused + [id])
      else h.(lock := Asked(h.lock, id), granted := h.granted + [id])
    case Release => h.(lock := Released(h.lock), woken := h.woken + h.lock.queue, releases := h.releases + 1)
  }

  predicate LockRun(hs: seq<LockHistory>, steps: seq<LockStep>) {
    && |hs| == |steps| + 1 && hs[0] == LockHistory(Lock(0, []), [], [], [], 0)
    && forall i {:trigger steps[i]} :: 0 <= i < |steps| ==>
         LockEnabled(hs[i], steps[i]) && hs[i + 1] == LockNext(hs[i], steps[i])
  }

  /** In every state of every run: an access waits only while the entry is held; the accesses
      refused are those woken since, in order, followed by those still waiting; and each grant
      but the one in force has been released. */
  lemma {:induction false} EveryLockState(hs: seq<LockHistory>, steps: seq<LockStep>, i: nat)
    requires LockRun(hs, steps) && i < |hs|
    ensures Orderly(hs[i].lock) && hs[i].refused == hs[i].woken + hs[i].lock.queue
    ensures |hs[i].granted| == hs[i].releases + if hs[i].lock.accessId > 0 then 1 else 0
    ensures hs[i].lock.accessId > 0 ==> hs[i].granted[|hs[i].granted| - 1] == hs[i].lock.accessId
  {
    if i > 0 {
      EveryLockState(hs, steps, i - 1);
      var h := hs[i - 1];
      assert hs[i - 1 + 1] == LockNext(h, steps[i - 1]);
      match steps[i - 1] {
        case Ask(id) => assert h.woken + (h.lock.queue + [id]) == h.woken + h.lock.queue + [id];
        case Release => assert h.woken + h.lock.queue + [] == h.woken + h.lock.queue;
      }
    }
  }

  function Last<T>(s: seq<T>): T
    requires s != []
  {
    s[|s| - 1]
  }

  /** A run that ends with the lock as it is. */
  predicate Recorded(hs: seq<LockHistory>, steps: seq<LockStep>, l: Lock) {
    LockRun(hs, steps) && Last(hs).lock == l
  }

  lemma RunGrows(hs: seq<LockHistory>, steps: seq<LockStep>, step: LockStep)
    requires LockRun(hs, steps) && LockEnabled(Last(hs), step)
    ensures LockRun(hs + [LockNext(Last(hs), step)], steps + [step])
  {
    var hs', steps' := hs + [LockNext(Last(hs), step)], steps + [step];
    forall i | 0 <= i < |steps'| ensures LockEnabled(hs'[i], steps'[i]) && hs'[i + 1] == LockNext(hs'[i], steps'[i]) {
      assert i < |steps| ==> steps'[i] == steps[i];
    }
  }

  function LockIndex(d: Dims, set_: nat, way: nat): (i: nat)
    requires set_ < d.sets && way < d.ways
    ensures i < d.sets * d.ways
  {
    RowMajor(set_, d.ways, way, d.sets);
    set_ * d.ways + way
  }

  /** Different blocks have different locks. */
  lemma LockUnique(d: Dims, set_: nat, way: nat)
    requires set_ < d.sets && way < d.ways
    ensures forall s: nat, w: nat {:trigger LockIndex(d, s, w)} ::
      s < d.sets && w < d.ways && (s, w) != (set_, way) ==> LockIndex(d, s, w) != LockIndex(d, set_, way)
  {
    forall s: nat, w: nat | s < d.sets && w < d.ways && (s, w) != (set_, way)
      ensures LockIndex(d, s, w) != LockIndex(d, set_, way)
    {
      if LockIndex(d, s, w) == LockIndex(d, set_, way) {
        RowMajorUnique(s, w, set_, way, d.ways);
      }
    }
  }

  // ---------- The directory ----------

  class Directory {
    const d: Dims
    const sharers: array<bool>
    const entries: array<Entry>
    const locks: array<Lock>
    /** What has happened to each lock: the calls, and the histories before and after them. */
    ghost var steps: seq<seq<LockStep>>
    ghost var histories: seq<seq<LockHistory>>

    ghost function View(): State
      reads sharers, entries
    {
      State(sharers[..], entries[..])
    }

    ghost predicate Valid()
      reads this`steps, this`histories, sharers, entries, locks
    {
      && Consistent(d, View())
      && locks.Length == d.sets * d.ways
      && |steps| == |histories| == locks.Length
      && forall i {:trigger locks[i]} :: 0 <= i < locks.Length ==> Recorded(histories[i], steps[i], locks[i])
    }

    constructor (d: Dims)
      ensures Valid() && this.d == d && View() == Initial(d)
      ensures fresh(sharers) && fresh(entries) && fresh(locks)
      ensures forall i :: 0 <= i < locks.Length ==> steps[i] == []
    {
      this.d := d;
      sharers := new bool[NumBits(d)](_ => false);
      entries := new Entry[NumEntries(d)](_ => Entry(NO_OWNER, 0));
      locks := new Lock[d.sets * d.ways](_ => Lock(0, []));
      steps := seq(d.sets * d.ways, _ => []);
      histories := seq(d.sets * d.ways, _ => [LockHistory(Lock(0, []), [], [], [], 0)]);
      new;
      assert View() == Initial(d);
      InitialConsistent(d);
    }

    method SetOwner(p: Place, owner: int)
      requires Valid() && Inside(d, p) && (owner == NO_OWNER || 0 <= owner < d.nodes)
      modifies entries
      ensures Valid() && View() == Applied(d, old(View()), Update.SetOwner(p, owner))
    {
      UpdateReaches(d, View(), Update.SetOwner(p, owner));
      UpdateKeeps(d, View(), Update.SetOwner(p, owner));
      var e := EntryIndex(d, p);
      entries[e] := entries[e].(owner := owner);
    }

    method SetSharer(p: Place, node: nat)
      requires Valid() && Inside(d, p) && node < d.nodes
      modifies sharers, entries
      ensures Valid() && View() == Applied(d, old(View()), Update.SetSharer(p, node))
    {
      UpdateReaches(d, View(), Update.SetSharer(p, node));
      UpdateKeeps(d, View(), Update.SetSharer(p, node));
      BitIsSharer(d, View(), p, node);
      CounterBounds(d, View(), p);
      var bit, e := BitIndex(d, p, node), EntryIndex(d, p);
      if sharers[bit] {
        return;
      }
      assert entries[e].numSharers < d.nodes;
      entries[e] := entries[e].(numSharers := entries[e].numSharers + 1);
      sharers[bit] := true;
    }

    method ClearSharer(p: Place, node: nat)
      requires Valid() && Inside(d, p) && node < d.nodes
      modifies sharers, entries
      ensures Valid() && View() == Applied(d, old(View()), Update.ClearSharer(p, node))
    {
      UpdateReaches(d, View(), Update.ClearSharer(p, node));
      UpdateKeeps(d, View(), Update.ClearSharer(p, node));
      BitIsSharer(d, View(), p, node);
      CounterBounds(d, View(), p);
      var bit, e := BitIndex(d, p, node), EntryIndex(d, p);
      if !sharers[bit] {
        return;
      }
      assert entries[e].numSharers > 0;
      entries[e] := entries[e].(numSharers := entries[e].numSharers - 1);
      sharers[bit] := false;
    }

    method ClearAllSharers(p: Place)
      requires Valid() && Inside(d, p)
      modifies sharers, entries
      ensures Valid() && View() == Applied(d, old(View()), Update.ClearAllSharers(p))
    {
      UpdateReaches(d, View(), Update.ClearAllSharers(p));
      UpdateKeeps(d, View(), Update.ClearAllSharers(p));
      var e, bit := EntryIndex(d, p), BitIndex(d, p, 0);
      if entries[e].numSharers == 0 {
        return;
      }
      entries[e] := entries[e].(numSharers := 0);
      ClearBits(bit, d.nodes);
    }

    method ClearBits(bit: nat, n: nat)
      requires bit + n <= sharers.Length
      modifies sharers
      ensures sharers[..] == Cleared(old(sharers[..]), bit, n)
    {
      for i := 0 to n
        invariant sharers[..] == Cleared(old(sharers[..]), bit, i)
      {
        sharers[bit + i] := false;
      }
    }

    /** Whether the node shares the entry. */
    method IsSharer(p: Place, node: nat) returns (r: bool)
      requires Valid() && Inside(d, p) && node < d.nodes
      ensures r <==> node in SharersOf(d, View(), p)
    {
      BitIsSharer(d, View(), p, node);
      r := sharers[BitIndex(d, p, node)];
    }

    /** Whether a part of the block has a sharer or an owner. */
    method IsBlockSharedOrOwned(set_: nat, way: nat) returns (r: bool)
      requires Valid() && set_ < d.sets && way < d.ways
      ensures !r <==> forall sub {:trigger Place(set_, way, sub)} :: 0 <= sub < d.subBlocks ==>
        SharersOf(d, View(), Place(set_, way, sub)) == {} && OwnerOf(d, View(), Place(set_, way, sub)) == -1
    {
      for sub := 0 to d.subBlocks
        invariant forall k {:trigger Place(set_, way, k)} :: 0 <= k < sub ==>
          SharersOf(d, View(), Place(set_, way, k)) == {} && OwnerOf(d, View(), Place(set_, way, k)) == -1
      {
        var p := Place(set_, way, sub);
        CounterBounds(d, View(), p);
        var entry := entries[EntryIndex(d, p)];
        if entry.numSharers > 0 || entry.owner != NO_OWNER {
          return true;
        }
      }
      return false;
    }

    ghost function LockAt(set_: nat, way: nat): Lock
      requires locks.Length == d.sets * d.ways && set_ < d.sets && way < d.ways
      reads locks
    {
      locks[LockIndex(d, set_, way)]
    }

    /** The history of a lock up to now. */
    ghost function HistoryAt(set_: nat, way: nat): LockHistory
      requires Valid() && set_ < d.sets && way < d.ways
      reads this`steps, this`histories, sharers, entries, locks
    {
      assert locks[LockIndex(d, set_, way)] == LockAt(set_, way);
      Last(histories[LockIndex(d, set_, way)])
    }

    /** What the calls so far have led to: the accesses refused are those woken since, in
        order, followed by those waiting, who wait only while the entry is held; every grant
        but the one in force has been released. */
    lemma EntryHistory(set_: nat, way: nat)
      requires Valid() && set_ < d.sets && way < d.ways
      ensures var h, l := HistoryAt(set_, way), LockAt(set_, way);
        && h.refused == h.woken + l.queue && (l.queue != [] ==> l.accessId > 0)
        && |h.granted| == h.releases + (if l.accessId > 0 then 1 else 0)
        && (l.accessId > 0 ==> Last(h.granted) == l.accessId)
    {
      var i := LockIndex(d, set_, way);
      assert Recorded(histories[i], steps[i], locks[i]);
      EveryLockState(histories[i], steps[i], |histories[i]| - 1);
    }

    /** Writes a call down in the history of its lock. */
    ghost method Record(i: nat, step: LockStep)
      requires i < |steps| == |histories| && LockRun(histories[i], steps[i]) && LockEnabled(Last(histories[i]), step)
      modifies this`steps, this`histories
      ensures steps == old(steps)[i := old(steps[i]) + [step]]
      ensures histories == old(histories)[i := old(histories[i]) + [LockNext(Last(old(histories[i])), step)]]
      ensures LockRun(histories[i], steps[i])
    {
      RunGrows(histories[i], steps[i], step);
      steps := steps[i := steps[i] + [step]];
      histories := histories[i := histories[i] + [LockNext(Last(histories[i]), step)]];
    }

    /** An access asks for the entry of a block; refused, it waits. */
    method LockEntry(set_: nat, way: nat, accessId: int) returns (locked: bool)
      requires Valid() && set_ < d.sets && way < d.ways && accessId > 0
      modifies locks, this`steps, this`histories
      ensures Valid() && locks[..] == old(locks[..])[LockIndex(d, set_, way) := Asked(old(LockAt(set_, way)), accessId)]
      ensures locked <==> old(LockAt(set_, way)).accessId == 0
      ensures var l := old(LockAt(set_, way));
        LockAt(set_, way) == if locked then Lock(accessId, l.queue) else Lock(l.accessId, l.queue + [accessId])
      ensures var i := LockIndex(d, set_, way); steps == old(steps)[i := old(steps[i]) + [Ask(accessId)]]
      ensures HistoryAt(set_, way) == var h := old(HistoryAt(set_, way));
        h.(lock := LockAt(set_, way),
           granted := h.granted + if locked then [accessId] else [],
           refused := h.refused + if locked then [] else [accessId])
      ensures forall s: nat, w: nat {:trigger LockAt(s, w)} :: s < d.sets && w < d.ways && (s, w) != (set_, way) ==>
        LockAt(s, w) == old(LockAt(s, w)) && HistoryAt(s, w) == old(HistoryAt(s, w))
    {
      LockUnique(d, set_, way);
      var i := LockIndex(d, set_, way);
      assert Recorded(histories[i], steps[i], locks[i]);
      Record(i, Ask(accessId));
      locked := locks[i].accessId == 0;
      if !locked {
        locks[i] := locks[i].(queue := locks[i].queue + [accessId]);
      } else {
        locks[i] := locks[i].(accessId := accessId);
      }
      forall s: nat, w: nat | s < d.sets && w < d.ways && (s, w) != (set_, way)
        ensures LockAt(s, w) == old(LockAt(s, w)) && HistoryAt(s, w) == old(HistoryAt(s, w))
      {
        assert LockIndex(d, s, w) != i;
      }
    }

    /** The access gives the entry back; all who wait for it are woken to try again. */
    method UnlockEntry(set_: nat, way: nat, accessId: int) returns (woken: seq<int>)
      requires Valid() && set_ < d.sets && way < d.ways
      requires LockAt(set_, way).accessId == accessId > 0
      modifies locks, this`steps, this`histories
      ensures Valid() && locks[..] == old(locks[..])[LockIndex(d, set_, way) := Released(old(LockAt(set_, way)))]
      ensures woken == old(LockAt(set_, way)).queue
      ensures LockAt(set_, way).accessId == 0 && LockAt(set_, way).queue == []
      ensures var i := LockIndex(d, set_, way); steps == old(steps)[i := old(steps[i]) + [Release]]
      ensures HistoryAt(set_, way) == var h := old(HistoryAt(set_, way));
        h.(lock := LockAt(set_, way), woken := h.woken + woken, releases := h.releases + 1)
      ensures forall s: nat, w: nat {:trigger LockAt(s, w)} :: s < d.sets && w < d.ways && (s, w) != (set_, way) ==>
        LockAt(s, w) == old(LockAt(s, w)) && HistoryAt(s, w) == old(HistoryAt(s, w))
    {
      LockUnique(d, set_, way);
      var i := LockIndex(d, set_, way);
      assert Recorded(histories[i], steps[i], locks[i]);
      Record(i, Release);
      woken := [];
      if locks[i].queue != [] {
        woken := locks[i].queue;
        locks[i] := locks[i].(queue := []);
      }
      locks[i] := locks[i].(accessId := 0);
      forall s: nat, w: nat | s < d.sets && w < d.ways && (s, w) != (set_, way)
        ensures LockAt(s, w) == old(LockAt(s, w)) && HistoryAt(s, w) == old(HistoryAt(s, w))
      {
        assert LockIndex(d, s, w) != i;
      }
    }

    method GetEntryAccessId(set_: nat, way: nat) returns (id: int)
      requires Valid() && set_ < d.sets && way < d.ways
      ensures id == LockAt(set_, way).accessId
    {
      id := locks[LockIndex(d, set_, way)].accessId;
    }
  }
}

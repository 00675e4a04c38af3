/** The table of catch addresses. Three pools, one per code index, share slot vectors; only the pool
    being staged takes slots, only the active pool gives them back. */
module Catches {
  import CodeIx
  import opened Sequences

  const DEFAULT_TABSIZE := 1024
  /** BEAM_CATCHES_NIL, also the end of the free list. */
  const NIL := -1

  /** One slot: the catch address and the next slot of its list. */
  datatype Slot = Slot(cp: int, cdr: int)

  /** The address of an allocated slot vector. */
  type Ref = nat

  datatype Pool = Pool(freeList: int, highMark: nat, tabsize: nat, vec: Ref)

  /** The slots a module owns, in list order, and the addresses stored in them. */
  datatype Chain = Chain(idx: seq<nat>, cps: seq<int>)

  type ModuleId = nat

  function Head(idx: seq<nat>): int {
    if idx == [] then NIL else idx[0]
  }

  ghost predicate NoDuplicates(idx: seq<nat>) {
    forall j, k :: 0 <= j < k < |idx| ==> idx[j] != idx[k]
  }

  /** The slots idx form a list through their cdr words. */
  ghost predicate Linked(v: seq<Slot>, idx: seq<nat>) {
    forall k :: 0 <= k < |idx| ==> idx[k] < |v| && v[idx[k]].cdr == Head(idx[k + 1..])
  }

  /** The slots of a chain are linked and hold its addresses. */
  ghost predicate Holds(v: seq<Slot>, c: Chain) {
    |c.idx| == |c.cps| && Linked(v, c.idx) &&
    forall k :: 0 <= k < |c.idx| ==> c.idx[k] < |v| && v[c.idx[k]].cp == c.cps[k]
  }

  /** Every committed address can be read back. */
  ghost predicate AllHold(v: seq<Slot>, chains: map<ModuleId, Chain>) {
    forall m :: m in chains ==> Holds(v, chains[m])
  }

  /** Who has a slot: nobody (free) or one module. */
  datatype Owner = Free | Of(m: ModuleId)

  /** idx lists, without repetition, exactly the slots that belong to o. */
  ghost predicate Owns(owner: seq<Owner>, o: Owner, idx: seq<nat>) {
    NoDuplicates(idx) && forall i: nat :: i in idx <==> i < |owner| && owner[i] == o
  }

  /** Free slots and module chains divide the slots below the high mark among themselves. */
  ghost predicate Partition(owner: seq<Owner>, free: seq<nat>, chains: map<ModuleId, Chain>) {
    Owns(owner, Free, free) &&
    (forall m :: m in chains ==> Owns(owner, Of(m), chains[m].idx)) &&
    (forall i :: 0 <= i < |owner| ==> owner[i] == Free || owner[i].m in chains)
  }

  /** A consistent pool over the slots v. */
  ghost predicate Table(v: seq<Slot>, freeHead: int, high: nat, owner: seq<Owner>, free: seq<nat>,
                        chains: map<ModuleId, Chain>)
  {
    |owner| == high <= |v| && freeHead == Head(free) && Linked(v, free) && AllHold(v, chains) &&
    Partition(owner, free, chains)
  }

  /** Two slot vectors agree on the slots that are not free. */
  lemma HoldsSame(v: seq<Slot>, w: seq<Slot>, c: Chain, i: nat)
    requires Holds(v, c) && |v| <= |w| && i !in c.idx
    requires forall k :: 0 <= k < |v| && k != i ==> w[k] == v[k]
    ensures Holds(w, c)
  {
    forall k | 0 <= k < |c.idx| ensures c.idx[k] < |w| && w[c.idx[k]] == v[c.idx[k]] {
      assert c.idx[k] in c.idx;
    }
  }

  lemma LinkedSame(v: seq<Slot>, w: seq<Slot>, idx: seq<nat>, i: nat)
    requires Linked(v, idx) && |v| <= |w| && i !in idx
    requires forall k :: 0 <= k < |v| && k != i ==> w[k] == v[k]
    ensures Linked(w, idx)
  {
    forall k | 0 <= k < |idx| ensures idx[k] < |w| && w[idx[k]].cdr == Head(idx[k + 1..]) {
      assert idx[k] in idx;
    }
  }

  lemma LinkedTail(v: seq<Slot>, idx: seq<nat>)
    requires Linked(v, idx) && idx != []
    ensures Linked(v, idx[1..])
  {
    forall k | 0 <= k < |idx| - 1 ensures idx[1..][k] < |v| && v[idx[1..][k]].cdr == Head(idx[1..][k + 1..]) {
      assert idx[1..][k] == idx[k + 1] && idx[1..][k + 1..] == idx[k + 2..];
    }
  }

  lemma LinkedCons(v: seq<Slot>, i: nat, idx: seq<nat>)
    requires Linked(v, idx) && i < |v| && v[i].cdr == Head(idx)
    ensures Linked(v, [i] + idx)
  {
    var l := [i] + idx;
    forall k | 0 <= k < |l| ensures l[k] < |v| && v[l[k]].cdr == Head(l[k + 1..]) {
      if k == 0 {
        assert l[1..] == idx;
      } else {
        assert l[k] == idx[k - 1] && l[k + 1..] == idx[k..];
      }
    }
  }

  lemma HoldsCons(v: seq<Slot>, i: nat, cp: int, c: Chain)
    requires Holds(v, c) && i < |v| && v[i] == Slot(cp, Head(c.idx))
    ensures Holds(v, Chain([i] + c.idx, [cp] + c.cps))
  {
    LinkedCons(v, i, c.idx);
  }

  /** Ownership after slot i, free or the next unused one, has been given to m. */
  ghost function Given(owner: seq<Owner>, i: nat, m: ModuleId): seq<Owner> {
    if i < |owner| then owner[i := Of(m)] else owner + [Of(m)]
  }

  ghost function Rest(free: seq<nat>): seq<nat> {
    if free == [] then [] else free[1..]
  }

  /** i is the slot the allocator takes next. */
  ghost predicate NextSlot(owner: seq<Owner>, free: seq<nat>, i: nat) {
    if free == [] then i == |owner| else i == free[0]
  }

  /** Module c extended at the front by slot i with address cp. */
  ghost function Extended(c: Chain, i: nat, cp: int): Chain {
    Chain([i] + c.idx, [cp] + c.cps)
  }

  lemma OwnsRest(owner: seq<Owner>, free: seq<nat>, i: nat, m: ModuleId)
    requires Owns(owner, Free, free) && NextSlot(owner, free, i)
    ensures Owns(Given(owner, i, m), Free, Rest(free)) && i !in Rest(free)
  {
    if free == [] {
      assert forall j: nat :: j < |owner| ==> j !in free;
    } else {
      assert i in free && free == [i] + free[1..];
      forall j: nat ensures j in free[1..] <==> j in free && j != i {
        if j in free[1..] {
          var k :| 0 <= k < |free| - 1 && free[1..][k] == j;
          assert free[k + 1] == j;
        }
      }
    }
  }

  lemma OwnsMore(owner: seq<Owner>, idx: seq<nat>, i: nat, m: ModuleId)
    requires Owns(owner, Of(m), idx) && i <= |owner| && (i < |owner| ==> owner[i] == Free)
    ensures Owns(Given(owner, i, m), Of(m), [i] + idx)
  {
    assert forall j: nat :: j in [i] + idx <==> j == i || j in idx;
  }

  lemma OwnsStill(owner: seq<Owner>, o: Owner, idx: seq<nat>, i: nat, m: ModuleId)
    requires Owns(owner, o, idx) && o != Of(m) && o != Free && i <= |owner| && (i < |owner| ==> owner[i] == Free)
    ensures Owns(Given(owner, i, m), o, idx) && i !in idx
  {
  }

  lemma PartitionTake(owner: seq<Owner>, free: seq<nat>, chains: map<ModuleId, Chain>, i: nat, m: ModuleId, cp: int)
    requires Partition(owner, free, chains) && NextSlot(owner, free, i) && m in chains
    ensures Partition(Given(owner, i, m), Rest(free), chains[m := Extended(chains[m], i, cp)])
    ensures i !in Rest(free) && forall k :: k in chains ==> i !in chains[k].idx
  {
    assert i <= |owner| && (i < |owner| ==> owner[i] == Free) by {
      assert free != [] ==> i in free;
    }
    hide Owns;
    OwnsRest(owner, free, i, m);
    OwnsMore(owner, chains[m].idx, i, m);
    forall k | k in chains && k != m ensures Owns(Given(owner, i, m), Of(k), chains[k].idx) && i !in chains[k].idx {
      OwnsStill(owner, Of(k), chains[k].idx, i, m);
    }
    NotOwned(owner, Of(m), chains[m].idx, i);
  }

  lemma NotOwned(owner: seq<Owner>, o: Owner, idx: seq<nat>, i: nat)
    requires Owns(owner, o, idx) && (i < |owner| ==> owner[i] != o)
    ensures i !in idx
  {
  }

  /** Taking slot i for module m and giving it address cp: the abstract effect of a cons. */
  lemma TakeSlot(v: seq<Slot>, w: seq<Slot>, high: nat, owner: seq<Owner>, free: seq<nat>,
                 chains: map<ModuleId, Chain>, i: nat, m: ModuleId, cp: int)
    requires Table(v, Head(free), high, owner, free, chains) && m in chains && |v| <= |w| && i < |w|
    requires NextSlot(owner, free, i) && w[i] == Slot(cp, Head(chains[m].idx))
    requires forall k :: 0 <= k < |v| && k != i ==> w[k] == v[k]
    ensures var owner' := Given(owner, i, m);
            Table(w, Head(Rest(free)), |owner'|, owner', Rest(free), chains[m := Extended(chains[m], i, cp)])
  {
    hide Holds, Owns;
    PartitionTake(owner, free, chains, i, m, cp);
    if free != [] {
      LinkedTail(v, free);
    }
    LinkedSame(v, w, Rest(free), i);
    HoldsSame(v, w, chains[m], i);
    HoldsCons(w, i, cp, chains[m]);
    var chains' := chains[m := Extended(chains[m], i, cp)];
    forall k | k in chains' ensures Holds(w, chains'[k]) {
      if k != m {
        HoldsSame(v, w, chains[k], i);
      }
    }
  }

  /** A module starts with no slots. */
  lemma StartModule(v: seq<Slot>, freeHead: int, high: nat, owner: seq<Owner>, free: seq<nat>,
                    chains: map<ModuleId, Chain>, m: ModuleId)
    requires Table(v, freeHead, high, owner, free, chains) && m !in chains
    ensures Table(v, freeHead, high, owner, free, chains[m := Chain([], [])])
  {
    assert Owns(owner, Of(m), []);
  }

  /** A module without slots can be forgotten. */
  lemma EndModule(v: seq<Slot>, freeHead: int, high: nat, owner: seq<Owner>, free: seq<nat>,
                  chains: map<ModuleId, Chain>, m: ModuleId)
    requires Table(v, freeHead, high, owner, free, chains) && m in chains && chains[m].idx == []
    ensures Table(v, freeHead, high, owner, free, chains - {m})
  {
    assert Owns(owner, Of(m), []);
    forall i | 0 <= i < |owner| ensures owner[i] == Free || owner[i].m in chains - {m} {
      assert i !in chains[m].idx;
    }
  }

  lemma OwnsLess(owner: seq<Owner>, idx: seq<nat>, i: nat, m: ModuleId)
    requires Owns(owner, Of(m), idx) && idx != [] && i == idx[0]
    ensures i < |owner| && owner[i] == Of(m) && Owns(owner[i := Free], Of(m), idx[1..]) && i !in idx[1..]
  {
    assert i in idx;
    forall j: nat ensures j in idx[1..] <==> j in idx && j != i {
      if j in idx[1..] {
        var k :| 0 <= k < |idx| - 1 && idx[1..][k] == j;
        assert idx[k + 1] == j;
      }
    }
  }

  lemma OwnsFreed(owner: seq<Owner>, free: seq<nat>, i: nat)
    requires Owns(owner, Free, free) && i < |owner| && owner[i] != Free
    ensures Owns(owner[i := Free], Free, [i] + free) && i !in free
  {
    assert forall j: nat :: j in [i] + free <==> j == i || j in free;
  }

  lemma OwnsOther(owner: seq<Owner>, o: Owner, idx: seq<nat>, i: nat)
    requires Owns(owner, o, idx) && o != Free && i < |owner| && owner[i] != o
    ensures Owns(owner[i := Free], o, idx) && i !in idx
  {
  }

  lemma PartitionGive(owner: seq<Owner>, free: seq<nat>, chains: map<ModuleId, Chain>, m: ModuleId, i: nat)
    requires Partition(owner, free, chains) && m in chains && chains[m].idx != [] && i == chains[m].idx[0]
    requires |chains[m].idx| == |chains[m].cps|
    ensures i < |owner| && i !in free && i !in chains[m].idx[1..]
    ensures forall k :: k in chains && k != m ==> i !in chains[k].idx
    ensures Partition(owner[i := Free], [i] + free, chains[m := Chain(chains[m].idx[1..], chains[m].cps[1..])])
  {
    hide Owns;
    OwnsLess(owner, chains[m].idx, i, m);
    OwnsFreed(owner, free, i);
    forall k | k in chains && k != m ensures Owns(owner[i := Free], Of(k), chains[k].idx) && i !in chains[k].idx {
      OwnsOther(owner, Of(k), chains[k].idx, i);
    }
  }

  lemma HoldsTail(v: seq<Slot>, c: Chain)
    requires Holds(v, c) && c.idx != []
    ensures Holds(v, Chain(c.idx[1..], c.cps[1..]))
  {
    LinkedTail(v, c.idx);
  }

  /** Giving the first slot of module m back to the free list: one pass of delmod. */
  lemma GiveSlot(v: seq<Slot>, high: nat, owner: seq<Owner>, free: seq<nat>, chains: map<ModuleId, Chain>,
                 m: ModuleId, i: nat)
    requires Table(v, Head(free), high, owner, free, chains) && m in chains
    requires chains[m].idx != [] && i == chains[m].idx[0]
    ensures i < high && |chains[m].idx| == |chains[m].cps|
    ensures Table(v[i := Slot(0, Head(free))], i, high, owner[i := Free], [i] + free,
                  chains[m := Chain(chains[m].idx[1..], chains[m].cps[1..])])
  {
    assert Holds(v, chains[m]);
    PartitionGive(owner, free, chains, m, i);
    var w := v[i := Slot(0, Head(free))];
    HoldsTail(v, chains[m]);
    hide Holds, Owns;
    var c := Chain(chains[m].idx[1..], chains[m].cps[1..]);
    HoldsSame(v, w, c, i);
    LinkedSame(v, w, free, i);
    LinkedCons(w, i, free);
    var chains' := chains[m := c];
    forall k | k in chains' ensures Holds(w, chains'[k]) {
      if k != m {
        HoldsSame(v, w, chains[k], i);
      }
    }
  }

  /** A slot at or above the high mark is nobody's business. */
  lemma TableBeyond(v: seq<Slot>, w: seq<Slot>, freeHead: int, high: nat, owner: seq<Owner>, free: seq<nat>,
                    chains: map<ModuleId, Chain>, i: nat)
    requires Table(v, freeHead, high, owner, free, chains) && i >= high && |v| <= |w|
    requires forall k :: 0 <= k < |v| && k != i ==> w[k] == v[k]
    ensures Table(w, freeHead, high, owner, free, chains)
  {
    NotOwned(owner, Free, free, i);
    LinkedSame(v, w, free, i);
    hide Holds, Owns;
    forall k | k in chains ensures Holds(w, chains[k]) {
      NotOwned(owner, Of(k), chains[k].idx, i);
      HoldsSame(v, w, chains[k], i);
    }
  }

  /** Writing a slot that the committed modules do not use keeps their addresses. */
  lemma AllHoldSame(v: seq<Slot>, w: seq<Slot>, chains: map<ModuleId, Chain>, i: nat)
    requires AllHold(v, chains) && |v| <= |w|
    requires forall k :: 0 <= k < |v| && k != i ==> w[k] == v[k]
    requires forall k :: k in chains ==> i !in chains[k].idx
    ensures AllHold(w, chains)
  {
    hide Holds;
    forall k | k in chains ensures Holds(w, chains[k]) {
      HoldsSame(v, w, chains[k], i);
    }
  }

  lemma TableAllHolds(v: seq<Slot>, freeHead: int, high: nat, owner: seq<Owner>, free: seq<nat>,
                      chains: map<ModuleId, Chain>)
    requires Table(v, freeHead, high, owner, free, chains)
    ensures AllHold(v, chains) && |owner| == high <= |v| && freeHead == Head(free)
    ensures forall k :: 0 <= k < |free| ==> free[k] < high
  {
    forall k | 0 <= k < |free| ensures free[k] < high {
      assert free[k] in free;
    }
  }

  lemma TableOwnsFree(v: seq<Slot>, freeHead: int, high: nat, owner: seq<Owner>, free: seq<nat>,
                      chains: map<ModuleId, Chain>)
    requires Table(v, freeHead, high, owner, free, chains)
    ensures Owns(owner, Free, free)
  {
  }

  lemma AllHoldSubset(v: seq<Slot>, chains: map<ModuleId, Chain>, some: map<ModuleId, Chain>)
    requires AllHold(v, chains) && forall m :: m in some ==> m in chains && chains[m] == some[m]
    ensures AllHold(v, some)
  {
  }

  /** What the allocator finds in a consistent pool header. */
  lemma TableHeader(v: seq<Slot>, p: Pool, g: View)
    requires Table(v, p.freeList, p.highMark, g.owner, g.free, g.staged)
    ensures p.freeList >= 0 <==> g.free != []
    ensures p.highMark <= |v|
    ensures p.freeList >= 0 ==> p.freeList == g.free[0] < |v| && v[p.freeList].cdr == Head(Rest(g.free))
    ensures p.freeList < 0 ==> p.freeList == NIL == Head(Rest(g.free)) && |g.owner| == p.highMark
  {
    if g.free != [] {
      assert g.free[0] in g.free && g.free[0 + 1..] == Rest(g.free);
    }
  }

  lemma NotInChains(v: seq<Slot>, high: nat, owner: seq<Owner>, free: seq<nat>, chains: map<ModuleId, Chain>, i: nat)
    requires Table(v, Head(free), high, owner, free, chains) && NextSlot(owner, free, i)
    ensures forall k :: k in chains ==> i !in chains[k].idx
    ensures free == [] ==> i >= high
  {
    assert free != [] ==> i in free;
    forall k | k in chains ensures i !in chains[k].idx {
      NotOwned(owner, Of(k), chains[k].idx, i);
    }
  }

  /** A longer vector with the same slots is as good. */
  lemma TableGrown(v: seq<Slot>, w: seq<Slot>, freeHead: int, high: nat, owner: seq<Owner>, free: seq<nat>,
                   chains: map<ModuleId, Chain>)
    requires Table(v, freeHead, high, owner, free, chains) && v <= w
    ensures Table(w, freeHead, high, owner, free, chains)
  {
    TableBeyond(v, w, freeHead, high, owner, free, chains, |v|);
  }

  /** The abstract state of the table. */
  datatype View = View(
    /** What every committed, unpurged module stored. */
    committed: map<ModuleId, Chain>,
    /** The same as seen by the pool being staged, with the modules loaded so far. */
    staged: map<ModuleId, Chain>,
    /** Free list and slot owners of the staged pool, or of the active pool when nothing is staged. */
    free: seq<nat>, owner: seq<Owner>,
    /** The initial load stages the active pool itself; later stagings work on a copy of its header. */
    inPlace: bool,
    /** The active pool's own free list and owners; clean while the staging has taken nothing from that list. */
    clean: bool, activeFree: seq<nat>, activeOwner: seq<Owner>)

  /** Nothing is staged: the active pool q with slots a is consistent. */
  ghost predicate IdleInv(q: Pool, a: seq<Slot>, g: View) {
    Table(a, q.freeList, q.highMark, g.owner, g.free, g.committed)
  }

  /** Slot i heads the active pool's free list although the staging has already taken it. */
  ghost predicate Spent(a: seq<Slot>, owner: seq<Owner>, i: nat) {
    i < |a| && a[i].cdr == NIL && i < |owner| && owner[i] != Free
  }

  /** What a staging leaves of the active pool q: its header and owners stand; while clean its free list does too;
      after that the list breaks off behind its first slot, because the first cons of a staging stores NIL there. */
  ghost predicate ActiveView(q: Pool, a: seq<Slot>, g: View) {
    |g.activeOwner| == q.highMark <= |a| && q.freeList == Head(g.activeFree) && |g.activeOwner| <= |g.owner| &&
    Partition(g.activeOwner, g.activeFree, g.committed) &&
    (g.clean ==> Linked(a, g.activeFree) && g.free == g.activeFree && (g.free != [] ==> NoneLoaded(g))) &&
    (!g.clean ==> g.activeFree != [] && Spent(a, g.owner, g.activeFree[0]))
  }

  /** No module of this staging has a catch yet. */
  ghost predicate NoneLoaded(g: View) {
    forall m :: m in g.staged && m !in g.committed ==> g.staged[m].idx == []
  }

  /** Both views of a staging in progress: the staged pool p with slots v is consistent and the active vector a
      keeps every committed address. */
  ghost predicate StagingInv(p: Pool, v: seq<Slot>, q: Pool, a: seq<Slot>, g: View) {
    Table(v, p.freeList, p.highMark, g.owner, g.free, g.staged) && AllHold(a, g.committed) &&
    (forall m :: m in g.committed ==> m in g.staged && g.staged[m] == g.committed[m]) &&
    (!g.inPlace ==> ActiveView(q, a, g))
  }

  ghost function Started(g: View): View {
    g.(staged := g.committed, inPlace := false, clean := true, activeFree := g.free, activeOwner := g.owner)
  }

  ghost function Aborted(g: View): View {
    g.(free := g.activeFree, owner := g.activeOwner)
  }

  lemma StagingStart(q: Pool, a: seq<Slot>, g: View)
    requires IdleInv(q, a, g)
    ensures StagingInv(q, a, q, a, Started(g))
  {
  }

  lemma StagingCommit(p: Pool, v: seq<Slot>, q: Pool, a: seq<Slot>, g: View)
    requires StagingInv(p, v, q, a, g)
    ensures IdleInv(p, v, g.(committed := g.staged))
  {
  }

  /** Whether the active pool survives an abort: nothing was taken from its free list, or that list had one slot. */
  ghost predicate Abortable(g: View) {
    g.clean || |g.activeFree| <= 1
  }

  lemma StagingAbort(p: Pool, v: seq<Slot>, q: Pool, a: seq<Slot>, g: View)
    requires StagingInv(p, v, q, a, g) && !g.inPlace && Abortable(g)
    ensures IdleInv(q, a, Aborted(g))
  {
    if !g.clean {
      assert g.activeFree == [g.activeFree[0]];
    }
  }

  /** A free list that starts with slot i, whose link is NIL, is that slot alone. */
  lemma EndsAtOnce(v: seq<Slot>, free: seq<nat>, i: nat)
    requires i < |v| && v[i].cdr == NIL && Linked(v, free) && Head(free) == i
    ensures free == [i]
  {
    assert v[free[0]].cdr == Head(free[1..]);
  }

  /** Once the first of several free slots has been taken, the active pool's header fits no free list at all. */
  lemma AbortLosesSlot(p: Pool, v: seq<Slot>, q: Pool, a: seq<Slot>, g: View, owner: seq<Owner>, free: seq<nat>)
    requires StagingInv(p, v, q, a, g) && !g.inPlace && !Abortable(g)
    ensures !Table(a, q.freeList, q.highMark, owner, free, g.committed)
  {
    var lost := g.activeFree[1];
    assert lost in g.activeFree && g.activeFree[0] in g.activeFree;
    forall m | m in g.committed
      ensures lost !in g.committed[m].idx
    {
      NotOwned(g.activeOwner, Of(m), g.committed[m].idx, lost);
    }
    if Linked(a, free) && Head(free) == g.activeFree[0] {
      EndsAtOnce(a, free, g.activeFree[0]);
      assert lost !in free;
    }
  }

  /** The exact condition under which an abort leaves the active pool consistent. */
  lemma AbortIsSafeExactly(p: Pool, v: seq<Slot>, q: Pool, a: seq<Slot>, g: View)
    requires StagingInv(p, v, q, a, g) && !g.inPlace
    ensures (exists owner, free :: Table(a, q.freeList, q.highMark, owner, free, g.committed)) <==> Abortable(g)
  {
    hide StagingInv, Table;
    if Abortable(g) {
      StagingAbort(p, v, q, a, g);
    } else {
      forall owner, free
        ensures !Table(a, q.freeList, q.highMark, owner, free, g.committed)
      {
        AbortLosesSlot(p, v, q, a, g, owner, free);
      }
    }
  }

  /** A longer copy of the staged vector serves as well; when the staged pool is the active one, so for both. */
  lemma StagingGrown(p: Pool, v: seq<Slot>, q: Pool, a: seq<Slot>, g: View, p': Pool, w: seq<Slot>)
    requires StagingInv(p, v, q, a, g) && v <= w && p'.freeList == p.freeList && p'.highMark == p.highMark
    ensures StagingInv(p', w, q, a, g)
    ensures g.inPlace ==> StagingInv(p', w, p', w, g)
  {
    TableGrown(v, w, p.freeList, p.highMark, g.owner, g.free, g.staged);
    TableAllHolds(w, p.freeList, p.highMark, g.owner, g.free, g.staged);
    AllHoldSubset(w, g.staged, g.committed);
  }

  /** A module about to be loaded. */
  ghost function Opened(g: View, m: ModuleId): View {
    g.(staged := g.staged[m := Chain([], [])])
  }

  lemma StagingOpenModule(p: Pool, v: seq<Slot>, q: Pool, a: seq<Slot>, g: View, m: ModuleId)
    requires StagingInv(p, v, q, a, g) && m !in g.staged
    ensures StagingInv(p, v, q, a, Opened(g, m)) && m !in g.committed
  {
    StartModule(v, p.freeList, p.highMark, g.owner, g.free, g.staged, m);
  }

  /** The view after slot i with address cp went to module m. */
  ghost function Consed(g: View, i: nat, m: ModuleId, cp: int): View
    requires m in g.staged
  {
    g.(staged := g.staged[m := Extended(g.staged[m], i, cp)], owner := Given(g.owner, i, m), free := Rest(g.free),
       clean := g.clean && g.free == [])
  }

  /** The pool header after the allocator took a slot, with next the cdr of the slot taken from the free list. */
  ghost predicate HeaderTaken(p: Pool, p': Pool, g: View) {
    p'.freeList == Head(Rest(g.free)) && p'.highMark == if g.free == [] then p.highMark + 1 else p.highMark
  }

  /** The effect of a cons on both views; the two vectors may be one, and so may the two pools. */
  lemma StagingTake(p: Pool, v: seq<Slot>, q: Pool, a: seq<Slot>, g: View, i: nat, m: ModuleId, cp: int,
                    p': Pool, shared: bool)
    requires StagingInv(p, v, q, a, g) && m in g.staged && m !in g.committed
    requires NextSlot(g.owner, g.free, i) && i < |v| && (shared ==> a == v) && HeaderTaken(p, p', g)
    requires g.free != [] ==> shared
    ensures var w := v[i := Slot(cp, Head(g.staged[m].idx))];
            StagingInv(p', w, q, if shared then w else a, Consed(g, i, m, cp)) &&
            (shared && g.inPlace ==> StagingInv(p', w, p', w, Consed(g, i, m, cp)))
  {
    hide Table, AllHold;
    var w := v[i := Slot(cp, Head(g.staged[m].idx))];
    TableAllHolds(v, p.freeList, p.highMark, g.owner, g.free, g.staged);
    TakeSlot(v, w, p.highMark, g.owner, g.free, g.staged, i, m, cp);
    NotInChains(v, p.highMark, g.owner, g.free, g.staged, i);
    AllHoldSame(a, if shared then w else a, g.committed, i);
    if !g.inPlace {
      TableOwnsFree(v, p.freeList, p.highMark, g.owner, g.free, g.staged);
      ActiveTake(q, a, g, i, m, cp, if shared then w else a);
    }
  }

  /** What a cons does to the active pool's view. */
  lemma ActiveTake(q: Pool, a: seq<Slot>, g: View, i: nat, m: ModuleId, cp: int, b: seq<Slot>)
    requires ActiveView(q, a, g) && m in g.staged && m !in g.committed && NextSlot(g.owner, g.free, i)
    requires Owns(g.owner, Free, g.free) && |b| == |a|
    requires forall k :: 0 <= k < |a| && k != i ==> b[k] == a[k]
    requires b == a || (i < |a| && b[i] == Slot(cp, Head(g.staged[m].idx)))
    requires g.free != [] ==> i < |a| && b[i] == Slot(cp, Head(g.staged[m].idx))
    ensures ActiveView(q, b, Consed(g, i, m, cp))
  {
    if g.free == [] {
      if g.clean {
        LinkedSame(a, b, g.activeFree, i);
      }
    } else {
      assert i in g.free;
    }
  }

  /** The view after the first slot of module m went back to the free list. */
  ghost function Released(g: View, m: ModuleId): View
    requires m in g.committed && g.committed[m].idx != [] && |g.committed[m].cps| == |g.committed[m].idx|
  {
    var c := g.committed[m];
    var i := c.idx[0];
    g.(committed := g.committed[m := Chain(c.idx[1..], c.cps[1..])], free := [i] + g.free,
       owner := if i < |g.owner| then g.owner[i := Free] else g.owner)
  }

  /** The first k slots of module m, whose chain was c in view g0, went back to the free list. */
  ghost predicate Giving(g0: View, g: View, m: ModuleId, c: Chain, k: nat) {
    && k <= |c.idx| == |c.cps|
    && g.committed == g0.committed[m := Chain(c.idx[k..], c.cps[k..])]
    && forall j: nat :: j in g.free <==> j in g0.free || j in c.idx[..k]
  }

  lemma GivingNext(g0: View, g: View, m: ModuleId, c: Chain, k: nat)
    requires Giving(g0, g, m, c, k) && k < |c.idx|
    ensures Giving(g0, Released(g, m), m, c, k + 1)
  {
    assert c.idx[k..][1..] == c.idx[k + 1..] && c.cps[k..][1..] == c.cps[k + 1..];
    assert c.idx[..k + 1] == c.idx[..k] + [c.idx[k]];
  }

  lemma IdleRelease(q: Pool, a: seq<Slot>, g: View, m: ModuleId)
    requires IdleInv(q, a, g) && m in g.committed && g.committed[m].idx != []
    ensures var c := g.committed[m];
            |c.cps| == |c.idx| && c.idx[0] < |a| && a[c.idx[0]] == Slot(c.cps[0], Head(c.idx[1..])) &&
            IdleInv(q.(freeList := c.idx[0]), a[c.idx[0] := Slot(0, q.freeList)], Released(g, m))
  {
    assert Holds(a, g.committed[m]);
    GiveSlot(a, q.highMark, g.owner, g.free, g.committed, m, g.committed[m].idx[0]);
    hide Table;
  }

  lemma IdleChain(q: Pool, a: seq<Slot>, g: View, m: ModuleId)
    requires IdleInv(q, a, g) && m in g.committed
    ensures |g.committed[m].idx| == |g.committed[m].cps|
  {
    assert Holds(a, g.committed[m]);
  }

  lemma IdleForget(q: Pool, a: seq<Slot>, g: View, m: ModuleId)
    requires IdleInv(q, a, g) && m in g.committed && g.committed[m].idx == []
    ensures IdleInv(q, a, g.(committed := g.committed - {m}))
  {
    EndModule(a, q.freeList, q.highMark, g.owner, g.free, g.committed, m);
  }

  /** A vector of twice the size that starts with the slots of v. */
  function Doubled(v: seq<Slot>): (w: seq<Slot>)
    ensures |w| == 2 * |v| && v <= w
  {
    v + seq(|v|, _ => Slot(0, 0))
  }

  /** Everything the staged pool sees except module m. */
  ghost predicate SameBut(s: map<ModuleId, Chain>, t: map<ModuleId, Chain>, m: ModuleId) {
    s - {m} == t - {m}
  }

  /** The addresses `done` of module m have been stored since the view was g0. */
  ghost predicate Loading(g0: View, g: View, m: ModuleId, done: seq<int>, catches: int) {
    m in g.staged && m !in g.committed && g.committed == g0.committed && SameBut(g.staged, g0.staged, m) &&
    catches == Head(g.staged[m].idx) && g.staged[m].cps == Reversed(done) &&
    g.inPlace == g0.inPlace && g.activeFree == g0.activeFree &&
    (g.clean <==> g0.clean && (done == [] || g0.free == [])) && (done == [] || g0.free == [] ==> g.free == g0.free)
  }

  lemma LoadStart(g: View, m: ModuleId)
    requires m !in g.staged && m !in g.committed
    ensures Loading(g, Opened(g, m), m, [], NIL)
  {
  }

  lemma LoadStep(g0: View, g: View, m: ModuleId, done: seq<int>, catches: int, i: nat, cp: int)
    requires Loading(g0, g, m, done, catches)
    ensures Loading(g0, Consed(g, i, m, cp), m, done + [cp], i)
  {
    ReversedSnoc(done, cp);
  }

  lemma LoadMeans(g0: View, g: View, m: ModuleId, done: seq<int>, catches: int)
    requires Loading(g0, g, m, done, catches)
    ensures m in g.staged && m !in g.committed && g.committed == g0.committed && SameBut(g.staged, g0.staged, m)
    ensures catches == Head(g.staged[m].idx) && g.staged[m].cps == Reversed(done)
    ensures g.inPlace == g0.inPlace && g.activeFree == g0.activeFree
    ensures g.clean <==> g0.clean && (done == [] || g0.free == [])
  {
  }

  /** What is left when a vector that no pool refers to any more goes back to the allocator. */
  ghost function Collected(pools: seq<Pool>, memory: map<Ref, seq<Slot>>, vec: Ref): map<Ref, seq<Slot>> {
    if exists i :: 0 <= i < |pools| && pools[i].vec == vec then memory else memory - {vec}
  }

  lemma CollectedKeeps(pools: seq<Pool>, memory: map<Ref, seq<Slot>>, vec: Ref, k: nat)
    requires k < |pools| && pools[k].vec in memory
    ensures pools[k].vec in Collected(pools, memory, vec)
    ensures Collected(pools, memory, vec)[pools[k].vec] == memory[pools[k].vec]
  {
  }

  /** gc_old_vec. */
  method GcOldVec(bccix: seq<Pool>, memory: map<Ref, seq<Slot>>, vec: Ref) returns (left: map<Ref, seq<Slot>>)
    ensures left == Collected(bccix, memory, vec)
  {
    var i := 0;
    while i < |bccix|
      invariant 0 <= i <= |bccix|
      invariant forall k :: 0 <= k < i ==> bccix[k].vec != vec
    {
      if bccix[i].vec == vec {
        return memory;
      }
      i := i + 1;
    }
    left := memory - {vec};
  }

  // ---------- readers of the previous index ----------

  ghost predicate Within(some: map<ModuleId, Chain>, all: map<ModuleId, Chain>) {
    forall m :: m in some ==> m in all && all[m] == some[m]
  }

  /** Through the pool of the previous index everything in `readable` can still be read. */
  ghost predicate Readers(pools: seq<Pool>, memory: map<Ref, seq<Slot>>, previous: nat,
                          readable: map<ModuleId, Chain>, committed: map<ModuleId, Chain>)
  {
    previous < |pools| && pools[previous].vec in memory && AllHold(memory[pools[previous].vec], readable) &&
    Within(readable, committed)
  }

  lemma ReadersKept(pools: seq<Pool>, memory: map<Ref, seq<Slot>>, previous: nat, readable: map<ModuleId, Chain>,
                    committed: map<ModuleId, Chain>, pools': seq<Pool>, left: map<Ref, seq<Slot>>)
    requires Readers(pools, memory, previous, readable, committed)
    requires |pools'| == |pools| && pools'[previous].vec in left
    requires readable == map[] ||
             (pools'[previous].vec == pools[previous].vec && left[pools[previous].vec] == memory[pools[previous].vec])
    ensures Readers(pools', left, previous, readable, committed)
  {
    hide Holds;
  }

  /** After a commit what was committed before can be read through the index that was active. */
  lemma ReadersCommit(pools: seq<Pool>, memory: map<Ref, seq<Slot>>, active: nat, p: Pool, v: seq<Slot>, g: View)
    requires active < |pools| && pools[active].vec in memory
    requires StagingInv(p, v, pools[active], memory[pools[active].vec], g)
    ensures Readers(pools, memory, active, g.committed, g.staged)
  {
    hide Holds, Table, ActiveView;
  }

  /** The staging index is the one that neither new nor old readers use. */
  ghost predicate Rotated(active: nat, staging: nat, previous: nat, inPlace: bool, readable: map<ModuleId, Chain>) {
    (previous == active || previous == (active + 2) % CodeIx.NUM_CODE_IX) &&
    if inPlace then staging == active == previous && readable == map[] else staging == (active + 1) % CodeIx.NUM_CODE_IX
  }

  lemma RotatedApart(active: nat, staging: nat, previous: nat, inPlace: bool, readable: map<ModuleId, Chain>,
                     committed: map<ModuleId, Chain>)
    requires active < CodeIx.NUM_CODE_IX && Rotated(active, staging, previous, inPlace, readable)
    ensures staging < CodeIx.NUM_CODE_IX && (!inPlace ==> staging != active && staging != previous)
    ensures inPlace ==> readable == map[]
    ensures var next := (staging + 1) % CodeIx.NUM_CODE_IX;
            next < CodeIx.NUM_CODE_IX && next != staging && next != active && Rotated(staging, next, active, false, committed)
  {
  }

  lemma StillRotated(active: nat, staging: nat, previous: nat, inPlace: bool, readable: map<ModuleId, Chain>,
                     readable': map<ModuleId, Chain>)
    requires Rotated(active, staging, previous, inPlace, readable) && !inPlace
    ensures Rotated(active, staging, previous, inPlace, readable')
  {
  }

  /** A slot that is taken belongs to no committed chain. */
  lemma ReadersTake(pools: seq<Pool>, memory: map<Ref, seq<Slot>>, previous: nat, readable: map<ModuleId, Chain>,
                    g: View, staging: nat, q: Pool, a: seq<Slot>, p: Pool, i: nat, slot: Slot)
    requires Readers(pools, memory, previous, readable, g.committed)
    requires staging < |pools| && p.vec == pools[staging].vec && p.vec in memory && i < |memory[p.vec]|
    requires StagingInv(pools[staging], memory[p.vec], q, a, g) && NextSlot(g.owner, g.free, i)
    ensures Readers(pools[staging := p], memory[p.vec := memory[p.vec][i := slot]], previous, readable, g.committed)
  {
    var v := memory[p.vec];
    NotInChains(v, pools[staging].highMark, g.owner, g.free, g.staged, i);
    hide Holds, Table, NextSlot;
    if pools[previous].vec == p.vec {
      AllHoldSame(v, v[i := slot], readable, i);
    }
  }

  lemma ChainsApart(q: Pool, a: seq<Slot>, g: View, m: ModuleId, k: ModuleId, i: nat)
    requires IdleInv(q, a, g) && m in g.committed && k in g.committed && k != m && i in g.committed[m].idx
    ensures i !in g.committed[k].idx
  {
    assert Owns(g.owner, Of(m), g.committed[m].idx) && Owns(g.owner, Of(k), g.committed[k].idx);
  }

  /** A slot that is given back belongs to no other module. */
  lemma ReadersGive(pools: seq<Pool>, memory: map<Ref, seq<Slot>>, previous: nat, readable: map<ModuleId, Chain>,
                    g: View, active: nat, m: ModuleId, slot: Slot)
    requires Readers(pools, memory, previous, readable, g.committed) && m !in readable
    requires active < |pools| && pools[active].vec in memory
    requires IdleInv(pools[active], memory[pools[active].vec], g)
    requires m in g.committed && g.committed[m].idx != [] && |g.committed[m].cps| == |g.committed[m].idx|
    requires g.committed[m].idx[0] < |memory[pools[active].vec]|
    ensures var q, i := pools[active], g.committed[m].idx[0];
            Readers(pools[active := q.(freeList := i)], memory[q.vec := memory[q.vec][i := slot]], previous, readable,
                    Released(g, m).committed)
  {
    hide Holds, Table;
    var q, i := pools[active], g.committed[m].idx[0];
    assert i in g.committed[m].idx;
    forall k | k in readable
      ensures i !in readable[k].idx
    {
      ChainsApart(q, memory[q.vec], g, m, k, i);
    }
    if pools[previous].vec == q.vec {
      AllHoldSame(memory[q.vec], memory[q.vec][i := slot], readable, i);
    }
  }

  lemma ReadersForget(pools: seq<Pool>, memory: map<Ref, seq<Slot>>, previous: nat, readable: map<ModuleId, Chain>,
                      committed: map<ModuleId, Chain>, m: ModuleId)
    requires Readers(pools, memory, previous, readable, committed)
    ensures Readers(pools, memory, previous, readable - {m}, committed)
    ensures m !in readable ==> Readers(pools, memory, previous, readable, committed - {m})
  {
    hide Holds;
  }

  // ---------- the whole table ----------

  /**
   * The pools and the indices, whether the pool of the staging index is being staged, and the
   * vectors now allocated; freeing one removes it, so that it can no longer be read or written.
   */
  datatype State = State(bccix: seq<Pool>, active: nat, staging: nat, open: bool, memory: map<Ref, seq<Slot>>,
                         nextRef: Ref)

  /** The index that was active before the last commit, and what is read through it and not purged. */
  datatype Past = Past(previous: nat, readable: map<ModuleId, Chain>)

  /** Every pool refers to a vector that is allocated and has the size the pool believes. */
  ghost predicate PoolsOk(h: State) {
    |h.bccix| == CodeIx.NUM_CODE_IX && h.active < CodeIx.NUM_CODE_IX && h.staging < CodeIx.NUM_CODE_IX &&
    (forall i :: 0 <= i < CodeIx.NUM_CODE_IX ==>
      h.bccix[i].vec in h.memory && h.bccix[i].tabsize == |h.memory[h.bccix[i].vec]| >= 1) &&
    forall r :: r in h.memory ==> r < h.nextRef
  }

  /** What holds of readers and indices, whatever became of the free list. */
  ghost predicate ReadersOk(h: State, g: View, past: Past) {
    Rotated(h.active, h.staging, past.previous, h.open && g.inPlace, past.readable) &&
    Readers(h.bccix, h.memory, past.previous, past.readable, g.committed)
  }

  /** The staged pool or the active one is a consistent table. */
  ghost predicate TableOk(h: State, g: View)
    requires PoolsOk(h)
  {
    var p, q := h.bccix[h.staging], h.bccix[h.active];
    if h.open then
      StagingInv(p, h.memory[p.vec], q, h.memory[q.vec], g) && (g.inPlace <==> h.active == h.staging) &&
      (g.free != [] ==> p.vec == q.vec)
    else
      IdleInv(q, h.memory[q.vec], g) && h.active != h.staging
  }

  /** Holds in every reachable state. */
  ghost predicate Consistent(h: State, g: View, past: Past) {
    PoolsOk(h) && ReadersOk(h, g, past) && TableOk(h, g)
  }

  lemma InitialIsConsistent(h: State)
    requires h.active == h.staging == 0 && h.open && h.nextRef == 1
    requires h.memory == map[0 := seq(DEFAULT_TABSIZE, _ => Slot(0, 0))]
    requires var p := Pool(NIL, 0, DEFAULT_TABSIZE, 0); h.bccix == [p, p, p]
    ensures Consistent(h, View(map[], map[], [], [], true, false, [], []), Past(0, map[]))
  {
  }

  /** The state once the staging pool has become a copy of the active one. */
  ghost function StartedState(h: State): State
    requires PoolsOk(h)
  {
    var pools := h.bccix[h.staging := h.bccix[h.active]];
    h.(bccix := pools, memory := Collected(pools, h.memory, h.bccix[h.staging].vec), open := true)
  }

  lemma StartKeeps(h: State, g: View, past: Past)
    requires Consistent(h, g, past) && !h.open
    ensures var t := StartedState(h);
            && Consistent(t, Started(g), past) && t.staging != t.active && t.staging != past.previous
            && forall k :: 0 <= k < |t.bccix| && k != t.staging ==>
                 t.bccix[k].vec in t.memory && t.memory[t.bccix[k].vec] == h.memory[t.bccix[k].vec]
  {
    var q, t := h.bccix[h.active], StartedState(h);
    RotatedApart(h.active, h.staging, past.previous, false, past.readable, g.committed);
    StagingStart(q, h.memory[q.vec], g);
    forall k | 0 <= k < |t.bccix|
      ensures t.bccix[k].vec in t.memory && t.memory[t.bccix[k].vec] == h.memory[t.bccix[k].vec]
    {
      CollectedKeeps(t.bccix, h.memory, h.bccix[h.staging].vec, k);
    }
    assert forall r :: r in t.memory ==> r in h.memory;
    ReadersKept(h.bccix, h.memory, past.previous, past.readable, g.committed, t.bccix, t.memory);
    hide IdleInv, StagingInv, Readers, Collected;
  }

  lemma CommitKeeps(h: State, g: View, past: Past)
    requires Consistent(h, g, past) && h.open
    ensures var next := (h.staging + 1) % CodeIx.NUM_CODE_IX;
            && next != h.staging && next != h.active
            && Consistent(h.(open := false, active := h.staging, staging := next), g.(committed := g.staged),
                          Past(h.active, g.committed))
  {
    var p, q := h.bccix[h.staging], h.bccix[h.active];
    RotatedApart(h.active, h.staging, past.previous, g.inPlace, past.readable, g.committed);
    StagingCommit(p, h.memory[p.vec], q, h.memory[q.vec], g);
    ReadersCommit(h.bccix, h.memory, h.active, p, h.memory[p.vec], g);
    hide IdleInv, StagingInv, Readers, Rotated;
  }

  lemma AbortKeeps(h: State, g: View, past: Past)
    requires Consistent(h, g, past) && h.open && !g.inPlace
    ensures var t := h.(open := false);
            && PoolsOk(t) && ReadersOk(t, Aborted(g), past) && (Abortable(g) ==> Consistent(t, Aborted(g), past))
    ensures var q := h.bccix[h.active];
            !Abortable(g) ==>
              forall owner, free :: !Table(h.memory[q.vec], q.freeList, q.highMark, owner, free, g.committed)
  {
    hide IdleInv, StagingInv, Table, Readers;
    var p, q := h.bccix[h.staging], h.bccix[h.active];
    if Abortable(g) {
      StagingAbort(p, h.memory[p.vec], q, h.memory[q.vec], g);
    } else {
      forall owner, free
        ensures !Table(h.memory[q.vec], q.freeList, q.highMark, owner, free, g.committed)
      {
        AbortLosesSlot(p, h.memory[p.vec], q, h.memory[q.vec], g, owner, free);
      }
    }
  }

  /** The state once the staged vector has been copied into one of twice the size. */
  ghost function GrownState(h: State): State
    requires PoolsOk(h)
  {
    var p := h.bccix[h.staging];
    var pools := h.bccix[h.staging := Pool(p.freeList, p.highMark, 2 * p.tabsize, h.nextRef)];
    h.(bccix := pools, nextRef := h.nextRef + 1,
       memory := Collected(pools, h.memory[h.nextRef := Doubled(h.memory[p.vec])], p.vec))
  }

  lemma GrowKeeps(h: State, g: View, past: Past)
    requires Consistent(h, g, past) && h.open && g.free == []
    ensures Consistent(GrownState(h), g, past)
  {
    var p, q, t := h.bccix[h.staging], h.bccix[h.active], GrownState(h);
    var v, p' := Doubled(h.memory[p.vec]), t.bccix[h.staging];
    RotatedApart(h.active, h.staging, past.previous, g.inPlace, past.readable, g.committed);
    StagingGrown(p, h.memory[p.vec], q, h.memory[q.vec], g, p', v);
    GrownPools(h, g, past);
    ReadersKept(h.bccix, h.memory, past.previous, past.readable, g.committed, t.bccix, t.memory);
    hide StagingInv, Readers, Rotated, Collected;
  }

  lemma GrownPools(h: State, g: View, past: Past)
    requires PoolsOk(h)
    ensures var t := GrownState(h);
            && PoolsOk(t) && t.memory[t.bccix[h.staging].vec] == Doubled(h.memory[h.bccix[h.staging].vec])
            && forall k :: 0 <= k < |t.bccix| && k != h.staging ==>
                 t.bccix[k] == h.bccix[k] && t.memory[t.bccix[k].vec] == h.memory[t.bccix[k].vec]
  {
    var t, p := GrownState(h), h.bccix[h.staging];
    var more := h.memory[h.nextRef := Doubled(h.memory[p.vec])];
    forall k | 0 <= k < |t.bccix|
      ensures t.bccix[k].vec in t.memory && t.memory[t.bccix[k].vec] == more[t.bccix[k].vec]
    {
      CollectedKeeps(t.bccix, more, p.vec, k);
    }
    assert forall r :: r in t.memory ==> r in more;
  }

  lemma OpenKeeps(h: State, g: View, past: Past, m: ModuleId)
    requires Consistent(h, g, past) && h.open && m !in g.staged
    ensures m !in g.committed && Consistent(h, Opened(g, m), past)
  {
    var p, q := h.bccix[h.staging], h.bccix[h.active];
    StagingOpenModule(p, h.memory[p.vec], q, h.memory[q.vec], g, m);
  }

  lemma TakeKeeps(h: State, g: View, past: Past, p: Pool, i: nat, m: ModuleId, cp: int)
    requires Consistent(h, g, past) && h.open && m in g.staged && m !in g.committed
    requires i < p.tabsize && NextSlot(g.owner, g.free, i)
    requires var s := h.bccix[h.staging]; p.vec == s.vec && p.tabsize == s.tabsize && HeaderTaken(s, p, g)
    ensures Consistent(h.(memory := h.memory[p.vec := h.memory[p.vec][i := Slot(cp, Head(g.staged[m].idx))]],
                          bccix := h.bccix[h.staging := p]),
                       Consed(g, i, m, cp), past)
  {
    hide StagingInv, Head, NextSlot, HeaderTaken, Given, Extended, Readers, Rotated;
    var s, q := h.bccix[h.staging], h.bccix[h.active];
    StagingTake(s, h.memory[p.vec], q, h.memory[q.vec], g, i, m, cp, p, q.vec == p.vec);
    ReadersTake(h.bccix, h.memory, past.previous, past.readable, g, h.staging, q, h.memory[q.vec], p, i,
                Slot(cp, Head(g.staged[m].idx)));
  }

  /** The facts that the code itself relies on while it conses. */
  lemma HeaderMeans(h: State, g: View, past: Past)
    requires Consistent(h, g, past) && h.open
    ensures PoolsOk(h)
    ensures var p, v := h.bccix[h.staging], h.memory[h.bccix[h.staging].vec];
            && (p.freeList >= 0 <==> g.free != []) && p.highMark <= |v|
            && (p.freeList >= 0 ==> p.freeList == g.free[0] < |v| && v[p.freeList].cdr == Head(Rest(g.free)))
            && (p.freeList < 0 ==> p.freeList == Head(Rest(g.free)) && |g.owner| == p.highMark)
  {
    TableHeader(h.memory[h.bccix[h.staging].vec], h.bccix[h.staging], g);
  }

  /** The state once the first slot of module m went back to the free list. */
  ghost function GivenState(h: State, g: View, m: ModuleId): State
    requires PoolsOk(h) && m in g.committed && g.committed[m].idx != []
    requires g.committed[m].idx[0] < h.bccix[h.active].tabsize
  {
    var q, i := h.bccix[h.active], g.committed[m].idx[0];
    h.(memory := h.memory[q.vec := h.memory[q.vec][i := Slot(0, q.freeList)]],
       bccix := h.bccix[h.active := q.(freeList := i)])
  }

  lemma GiveKeeps(h: State, g: View, past: Past, m: ModuleId)
    requires Consistent(h, g, past) && !h.open && m in g.committed && g.committed[m].idx != [] && m !in past.readable
    ensures var c, q := g.committed[m], h.bccix[h.active];
            && |c.cps| == |c.idx| && c.idx[0] < q.tabsize
            && h.memory[q.vec][c.idx[0]] == Slot(c.cps[0], Head(c.idx[1..]))
            && Consistent(GivenState(h, g, m), Released(g, m), past)
  {
    hide IdleInv, Head, Readers, Rotated;
    var q := h.bccix[h.active];
    IdleRelease(q, h.memory[q.vec], g, m);
    ReadersGive(h.bccix, h.memory, past.previous, past.readable, g, h.active, m, Slot(0, q.freeList));
  }

  /** A module about to be purged has no readers left. */
  lemma PurgeStarts(h: State, g: View, past: Past, m: ModuleId)
    requires Consistent(h, g, past) && !h.open && m in g.committed
    ensures |g.committed[m].idx| == |g.committed[m].cps|
    ensures Consistent(h, g, past.(readable := past.readable - {m}))
  {
    IdleChain(h.bccix[h.active], h.memory[h.bccix[h.active].vec], g, m);
    StillRotated(h.active, h.staging, past.previous, false, past.readable, past.readable - {m});
    ReadersForget(h.bccix, h.memory, past.previous, past.readable, g.committed, m);
    hide IdleInv, Readers, Rotated;
  }

  lemma PurgeEnds(h: State, g: View, past: Past, m: ModuleId)
    requires Consistent(h, g, past) && !h.open && m in g.committed && g.committed[m].idx == [] && m !in past.readable
    ensures Consistent(h, g.(committed := g.committed - {m}), past)
  {
    IdleForget(h.bccix[h.active], h.memory[h.bccix[h.active].vec], g, m);
    ReadersForget(h.bccix, h.memory, past.previous, past.readable, g.committed, m);
    hide IdleInv, Readers, Rotated;
  }

  lemma Bounds(h: State, g: View, past: Past)
    requires Consistent(h, g, past)
    ensures PoolsOk(h) && past.previous < |h.bccix|
  {
  }

  class CatchTable {
    var bccix: seq<Pool>
    var active: nat
    var staging: nat
    var open: bool
    var memory: map<Ref, seq<Slot>>
    var nextRef: Ref
    ghost var view: View
    ghost var past: Past

    ghost function Now(): State
      reads this
    {
      State(bccix, active, staging, open, memory, nextRef)
    }

    ghost predicate Valid()
      reads this
    {
      Consistent(Now(), view, past)
    }

    /** beam_catches_init: all pools share one empty vector; the initial load stages pool 0 in place. */
    constructor ()
      ensures Valid() && open && active == staging == 0
      ensures view.committed == map[] && view.staged == map[] && past == Past(0, map[])
    {
      var p := Pool(NIL, 0, DEFAULT_TABSIZE, 0);
      bccix := [p, p, p];
      memory := map[0 := seq(DEFAULT_TABSIZE, _ => Slot(0, 0))];
      nextRef := 1;
      active, staging, open := 0, 0, true;
      view, past := View(map[], map[], [], [], true, false, [], []), Past(0, map[]);
      new;
      InitialIsConsistent(Now());
    }

    /**
     * beam_catches_start_staging: the staging pool becomes a copy of the active one.  No reader uses
     * it, and every other pool keeps its vector.
     */
    method StartStaging()
      requires Valid() && !open
      modifies this`bccix, this`open, this`memory, this`view
      ensures Valid() && open && view == Started(old(view)) && PoolsOk(Now())
      ensures bccix == old(bccix)[staging := old(bccix)[active]] && staging != active && staging != past.previous
      ensures forall k :: 0 <= k < |bccix| && k != staging ==>
                bccix[k].vec in memory && memory[bccix[k].vec] == old(memory)[bccix[k].vec]
    {
      hide Consistent, Collected;
      ghost var h := Now();
      Bounds(h, view, past);
      StartKeeps(h, view, past);
      var prev := bccix[staging].vec;
      var pools := bccix[staging := bccix[active]];
      var left := GcOldVec(pools, memory, prev);
      bccix, memory, open := pools, left, true;
      view := Started(view);
      assert Now() == StartedState(h);
      Bounds(Now(), view, past);
    }

    /**
     * beam_catches_end_staging followed by the switch of code indices.  The next staging index is
     * neither the active nor the previously active one.
     */
    method CommitStaging()
      requires Valid() && open
      modifies this`active, this`staging, this`open, this`view, this`past
      ensures Valid() && !open && active == old(staging) && view == old(view).(committed := old(view).staged)
      ensures CodeIx.Indices(active, staging) == CodeIx.Commit(CodeIx.Indices(old(active), old(staging)))
      ensures staging != active && staging != old(active) && past == Past(old(active), old(view).committed)
    {
      hide Consistent;
      CommitKeeps(Now(), view, past);
      past := Past(active, view.committed);
      open := false;
      active := staging;
      staging := (staging + 1) % CodeIx.NUM_CODE_IX;
      view := view.(committed := view.staged);
    }

    /** An aborted staging: the active pool stays in use, with a consistent free list exactly if Abortable. */
    method AbortStaging()
      requires Valid() && open && !view.inPlace
      modifies this`open, this`view
      ensures PoolsOk(Now()) && !open && view == Aborted(old(view)) && ReadersOk(Now(), view, past)
      ensures Abortable(old(view)) ==> Valid()
      ensures var q := bccix[active];
              !Abortable(old(view)) ==>
                forall owner, free :: !Table(memory[q.vec], q.freeList, q.highMark, owner, free, view.committed)
    {
      hide Consistent, Table, ReadersOk;
      Bounds(Now(), view, past);
      AbortKeeps(Now(), view, past);
      open := false;
      view := Aborted(view);
    }

    /**
     * beam_catches_car: the address stored in a slot, at every time, for every committed module; also for a
     * process that took the code index before the last commit, unless the module has been purged.
     */
    method Car(index: nat, i: nat) returns (found: bool, cp: int)
      requires Valid() && (index == active || index == past.previous)
      ensures index < |bccix| && (found <==> i < bccix[index].tabsize)
      ensures var chains := if index == active then view.committed else past.readable;
              forall m, k :: m in chains && 0 <= k < |chains[m].idx| && chains[m].idx[k] == i ==>
                found && k < |chains[m].cps| && cp == chains[m].cps[k]
    {
      var p := bccix[index];
      ghost var chains := if index == active then view.committed else past.readable;
      assert AllHold(memory[p.vec], chains);
      forall m, k | m in chains && 0 <= k < |chains[m].idx| && chains[m].idx[k] == i
        ensures i < p.tabsize && k < |chains[m].cps| && memory[p.vec][i].cp == chains[m].cps[k]
      {
        assert Holds(memory[p.vec], chains[m]);
      }
      if i >= p.tabsize {
        return false, 0;
      }
      return true, memory[p.vec][i].cp;
    }

    /** The realloc branch of beam_catches_cons: a full table is copied into one of twice the size. */
    method Grow()
      requires Valid() && open && view.free == []
      modifies this`bccix, this`memory, this`nextRef
      ensures Valid() && PoolsOk(Now()) && bccix == old(bccix)[staging := bccix[staging]]
      ensures bccix[staging] == old(bccix)[staging].(tabsize := 2 * old(bccix)[staging].tabsize, vec := old(nextRef))
      ensures memory[old(nextRef)][..old(bccix)[staging].tabsize] == old(memory[bccix[staging].vec])
    {
      hide Consistent, Collected;
      ghost var h := Now();
      Bounds(h, view, past);
      GrownPools(h, view, past);
      GrowKeeps(h, view, past);
      var p := bccix[staging];
      var v := Doubled(memory[p.vec]);
      var pools := bccix[staging := Pool(p.freeList, p.highMark, 2 * p.tabsize, nextRef)];
      var left := GcOldVec(pools, memory[nextRef := v], p.vec);
      bccix, memory, nextRef := pools, left, nextRef + 1;
      assert Now() == GrownState(h);
    }

    /** beam_catches_cons: a slot from the free list, or else the next unused one. */
    method Cons(cp: int, cdr: int, ghost m: ModuleId) returns (i: nat)
      requires Valid() && open && m in view.staged && m !in view.committed && cdr == Head(view.staged[m].idx)
      modifies this`bccix, this`memory, this`nextRef, this`view
      ensures Valid() && view == Consed(old(view), i, m, cp) && NextSlot(old(view).owner, old(view).free, i)
      ensures staging < |bccix| && bccix == old(bccix)[staging := bccix[staging]]
    {
      hide Consistent, Head, Rest, Consed;
      HeaderMeans(Now(), view, past);
      var p := bccix[staging];
      if p.freeList >= 0 {
        i := p.freeList;
        p := p.(freeList := memory[p.vec][i].cdr);
      } else {
        if p.highMark >= p.tabsize {
          Grow();
          p := bccix[staging];
          HeaderMeans(Now(), view, past);
        }
        i := p.highMark;
        p := p.(highMark := p.highMark + 1);
      }
      Take(p, i, cp, cdr, m);
    }

    /** Storing the new pool header and the slot. */
    method Take(p: Pool, i: nat, cp: int, cdr: int, ghost m: ModuleId)
      requires Valid() && open && m in view.staged && m !in view.committed && cdr == Head(view.staged[m].idx)
      requires i < p.tabsize && NextSlot(view.owner, view.free, i) && PoolsOk(Now())
      requires p.vec == bccix[staging].vec && p.tabsize == bccix[staging].tabsize && HeaderTaken(bccix[staging], p, view)
      modifies this`bccix, this`memory, this`view
      ensures Valid() && view == Consed(old(view), i, m, cp) && bccix == old(bccix)[staging := p]
    {
      hide Consistent, Head, NextSlot, HeaderTaken, Consed;
      TakeKeeps(Now(), view, past, p, i, m, cp);
      var slots := memory[p.vec := memory[p.vec][i := Slot(cp, cdr)]];
      hide PoolsOk;
      memory, bccix := slots, bccix[staging := p];
      view := Consed(view, i, m, cp);
    }

    /** The catch loop of final_touch: every catch of a module is consed onto its list. */
    method LoadCatches(cps: seq<int>, ghost m: ModuleId) returns (catches: int)
      requires Valid() && open && m !in view.staged
      modifies this`bccix, this`memory, this`nextRef, this`view
      ensures Valid() && view.committed == old(view).committed
      ensures m in view.staged && SameBut(view.staged, old(view).staged, m)
      ensures catches == Head(view.staged[m].idx) && view.staged[m].cps == Reversed(cps)
      ensures view.inPlace == old(view).inPlace && view.activeFree == old(view).activeFree
      ensures view.clean <==> old(view).clean && (cps == [] || old(view).free == [])
      ensures staging < |bccix| && bccix == old(bccix)[staging := bccix[staging]]
    {
      hide Consistent, Loading, Consed, NextSlot;
      ghost var g := view;
      Bounds(Now(), view, past);
      OpenKeeps(Now(), view, past, m);
      LoadStart(g, m);
      view := Opened(view, m);
      catches := NIL;
      var k := 0;
      assert cps[..0] == [];
      while k < |cps|
        invariant 0 <= k <= |cps| && Valid() && Loading(g, view, m, cps[..k], catches)
        invariant staging < |bccix| && bccix == old(bccix)[staging := bccix[staging]]
      {
        LoadMeans(g, view, m, cps[..k], catches);
        ghost var before := view;
        var i := Cons(cps[k], catches, m);
        LoadStep(g, before, m, cps[..k], catches, i, cps[k]);
        assert cps[..k + 1] == cps[..k] + [cps[k]];
        catches := i;
        k := k + 1;
      }
      assert cps[..|cps|] == cps;
      LoadMeans(g, view, m, cps, catches);
    }

    /** One pass of the loop of beam_catches_delmod. */
    method ReleaseSlot(i: nat, ghost m: ModuleId) returns (cdr: int)
      requires Valid() && !open && m in view.committed && view.committed[m].idx != [] && i == view.committed[m].idx[0]
      requires PoolsOk(Now()) && i < bccix[active].tabsize && |view.committed[m].cps| == |view.committed[m].idx|
      requires m !in past.readable
      modifies this`bccix, this`memory, this`view
      ensures Valid() && view == Released(old(view), m) && cdr == Head(old(view).committed[m].idx[1..])
      ensures PoolsOk(Now()) && bccix == old(bccix)[active := bccix[active]]
    {
      hide Consistent, Head, Released;
      ghost var h := Now();
      GiveKeeps(h, view, past, m);
      var p := bccix[active];
      cdr := memory[p.vec][i].cdr;
      var slots := memory[p.vec := memory[p.vec][i := Slot(0, p.freeList)]];
      var pools := bccix[active := p.(freeList := i)];
      Bounds(GivenState(h, view, m), Released(view, m), past);
      hide PoolsOk;
      assert State(pools, active, staging, open, slots, nextRef) == GivenState(h, view, m);
      memory, bccix := slots, pools;
      view := Released(view, m);
    }

    /** beam_catches_delmod: the slots of a purged module go back to the free list. An address outside the
        module's code, reported by ok == false, stops the emulator. */
    method DelMod(head: int, code: int, codeBytes: nat, ghost m: ModuleId) returns (ok: bool)
      requires Valid() && !open && m in view.committed && head == Head(view.committed[m].idx)
      modifies this`bccix, this`memory, this`view, this`past
      ensures past == old(past).(readable := old(past).readable - {m}) && |bccix| == |old(bccix)|
      ensures forall k :: 0 <= k < |bccix| && k != active ==> bccix[k] == old(bccix)[k]
      ensures ok <==> forall cp :: cp in old(view).committed[m].cps ==> cp - code < codeBytes
      ensures ok ==> Valid() && view.committed == old(view).committed - {m}
      ensures ok ==> forall i: nat :: i in view.free <==> i in old(view).free || i in old(view).committed[m].idx
    {
      hide Consistent;
      Bounds(Now(), view, past);
      PurgeStarts(Now(), view, past, m);
      past := past.(readable := past.readable - {m});
      var i := head;
      ghost var k, c := 0, view.committed[m];
      while i != NIL
        invariant Valid() && PoolsOk(Now()) && 0 <= k && Giving(old(view), view, m, c, k) && i == Head(c.idx[k..])
        invariant past == old(past).(readable := old(past).readable - {m})
        invariant forall j :: 0 <= j < |bccix| && j != active ==> bccix[j] == old(bccix)[j]
        invariant forall j :: 0 <= j < k ==> c.cps[j] - code < codeBytes
        decreases |c.idx| - k
      {
        GiveKeeps(Now(), view, past, m);
        GivingNext(old(view), view, m, c, k);
        assert c.idx[k..][1..] == c.idx[k + 1..];
        if i >= bccix[active].tabsize {
          return false;
        }
        var cp := memory[bccix[active].vec][i].cp;
        assert cp == c.cps[k] && cp in c.cps;
        if cp - code >= codeBytes {
          return false;
        }
        i := ReleaseSlot(i, m);
        k := k + 1;
      }
      PurgeEnds(Now(), view, past, m);
      view := view.(committed := view.committed - {m});
      ok := true;
    }
  }

  /** Giving back a chain of two slots leaves at least two free. */
  lemma TwoFree(q: Pool, a: seq<Slot>, g: View, m: ModuleId, free: seq<nat>)
    requires IdleInv(q, a, g) && m in g.committed && |g.committed[m].cps| == 2
    requires forall i: nat :: i in free <==> i in g.free || i in g.committed[m].idx
    ensures |free| >= 2
  {
    var idx := g.committed[m].idx;
    assert Holds(a, g.committed[m]) && Owns(g.owner, Of(m), idx);
    assert idx[0] in idx && idx[1] in idx && idx[0] != idx[1];
    assert idx[0] in free && idx[1] in free;
  }

  /**
   * A run in which an abort would lose a slot: a module with two catches is loaded,
   * committed and purged, and then another module with one catch is staged.
   */
  method AbortWouldLoseSlot() returns (t: CatchTable)
    ensures t.Valid() && t.open && !t.view.inPlace && PoolsOk(t.Now())
    ensures forall owner, free :: !Table(t.memory[t.bccix[t.active].vec], t.bccix[t.active].freeList,
                                         t.bccix[t.active].highMark, owner, free, t.view.committed)
  {
    hide IdleInv, StagingInv, Table, Head, Readers, Rotated;
    t := new CatchTable();
    var head := t.LoadCatches([100, 104], 0);
    t.CommitStaging();
    TwoAddresses();
    ghost var q, g := t.bccix[t.active], t.view;
    ghost var a := t.memory[q.vec];
    var ok := t.DelMod(head, 100, 8, 0);
    TwoFree(q, a, g, 0, t.view.free);
    t.StartStaging();
    var catches := t.LoadCatches([200], 1);
    var p, r := t.bccix[t.staging], t.bccix[t.active];
    AbortIsSafeExactly(p, t.memory[p.vec], r, t.memory[r.vec], t.view);
  }

  lemma TwoAddresses()
    ensures Reversed([100, 104]) == [104, 100]
  {
    assert [100, 104][1..] == [104] && Reversed([104]) == [104];
  }
}

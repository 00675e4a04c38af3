/**
 * Purging old code (erts/emulator/beam/beam_bif_load.c): the processes that a
 * purge suspends because they were about to run the code, and the literal areas
 * that purged modules leave behind for the collector.
 */
module Purge {
  import opened Suspension
  import opened Wrappers

  const DEF_SPROCS: nat := 10

  lemma {:induction false} ResumedSnoc(ps: seq<Proc>, p: Proc, dead: set<Proc>, suspended: multiset<Proc>)
    ensures Resumed(ps + [p], dead, suspended)
            == if p in dead then Resumed(ps, dead, suspended) else Resumed(ps, dead, suspended) - multiset{p}
  {
    if ps == [] {
      assert [p][1..] == [] && [] + [p] == [p];
    } else {
      assert (ps + [p])[1..] == ps[1..] + [p] && (ps + [p])[0] == ps[0];
      ResumedSnoc(ps[1..], p, dead, if ps[0] in dead then suspended else suspended - multiset{ps[0]});
    }
  }

  /** The live processes suspended by the purge are exactly the listed ones. */
  ghost predicate Listed(ps: seq<Proc>, dead: set<Proc>, suspended: multiset<Proc>) {
    forall p :: p !in dead ==> suspended[p] == multiset(ps)[p]
  }

  lemma ListedSnoc(ps: seq<Proc>, p: Proc, dead: set<Proc>, suspended: multiset<Proc>)
    requires Listed(ps, dead, suspended)
    ensures Listed(ps + [p], dead, suspended + multiset{p})
  {
  }

  lemma NoneLeft(ps: seq<Proc>, dead: set<Proc>, suspended: multiset<Proc>)
    requires Listed(ps, dead, suspended)
    ensures Listed([], dead, Resumed(ps, dead, suspended))
    ensures forall p :: Resumed(ps, dead, suspended)[p] == if p in dead then suspended[p] else 0
  {
    forall p {
      ResumedCounts(ps, dead, suspended, p);
    }
  }

  datatype Prepared = BadArg | NothingToPurge | Started

  /** purge_state: the list of suspended processes starts in a built-in array and moves to larger ones. */
  class PurgeState {
    var purging: bool
    var sprocs: seq<Proc>
    var builtIn: bool
    var spIx: nat
    var suspended: multiset<Proc>
    var dead: set<Proc>

    ghost predicate Valid()
      reads this
    {
      && spIx <= |sprocs| && DEF_SPROCS <= |sprocs| && (builtIn ==> |sprocs| == DEF_SPROCS)
      && Listed(sprocs[..spIx], dead, suspended)
      && (!purging ==> spIx == 0 && builtIn)
    }

    /** init_purge_state. */
    constructor ()
      ensures Valid() && !purging && suspended == multiset{}
    {
      sprocs, builtIn, spIx, purging := seq(DEF_SPROCS, _ => 0), true, 0, false;
      suspended, dead := multiset{}, {};
    }

    /** The prepare step of a purge of a module that has old code or not. */
    method Prepare(hasOld: bool) returns (r: Prepared)
      requires Valid()
      modifies this`purging
      ensures Valid() && (purging <==> old(purging) || hasOld)
      ensures r == if old(purging) then BadArg else if hasOld then Started else NothingToPurge
      ensures suspended == old(suspended) && sprocs[..spIx] == old(sprocs[..spIx])
    {
      if purging {
        return BadArg;
      }
      if !hasOld {
        return NothingToPurge;
      }
      purging := true;
      r := Started;
    }

    /** erts_suspend_process_on_pending_purge_lambda: the list grows by a hundred when it is full. */
    method SuspendOnPurge(p: Proc)
      requires Valid()
      modifies this`sprocs, this`builtIn, this`spIx, this`suspended
      ensures Valid()
      ensures if purging then sprocs[..spIx] == old(sprocs[..spIx]) + [p] && suspended == old(suspended) + multiset{p}
              else spIx == old(spIx) && suspended == old(suspended)
      ensures |sprocs| == |old(sprocs)| + if purging && old(spIx) == |old(sprocs)| then 100 else 0
    {
      hide Listed;
      if purging {
        ghost var ps := sprocs[..spIx];
        if spIx >= |sprocs| {
          sprocs := Grown(sprocs, spIx);
          builtIn := false;
        }
        ListedSnoc(ps, p, dead, suspended);
        Stored(sprocs, spIx, p);
        sprocs := sprocs[spIx := p];
        spIx := spIx + 1;
        suspended := suspended + multiset{p};
      }
    }

    /** A process may die at any time. */
    method Exit(p: Proc)
      requires Valid()
      modifies this`dead
      ensures Valid() && dead == old(dead) + {p}
    {
      dead := dead + {p};
    }

    /** finalize_purge_operation: everyone suspended by the purge and still alive runs again. */
    method Finalize()
      requires Valid() && purging
      modifies this`purging, this`sprocs, this`builtIn, this`spIx, this`suspended
      ensures Valid() && !purging && spIx == 0
      ensures forall p :: suspended[p] == if p in dead then old(suspended)[p] else 0
    {
      hide Listed, Resumed;
      purging := false;
      var s := ResumeAll(sprocs[..spIx], dead, suspended);
      NoneLeft(sprocs[..spIx], dead, suspended);
      suspended := s;
      if !builtIn {
        sprocs, builtIn := seq(DEF_SPROCS, _ => 0), true;
      }
      spIx := 0;
      assert sprocs[..0] == [];
    }
  }

  /** A larger array with the first `n` entries copied over. */
  function Grown(a: seq<Proc>, n: nat): (b: seq<Proc>)
    requires n <= |a|
    ensures |b| == |a| + 100 && b[..n] == a[..n]
  {
    a[..n] + seq(|a| + 100 - n, _ => 0)
  }

  lemma Stored(a: seq<Proc>, n: nat, p: Proc)
    requires n < |a|
    ensures a[n := p][..n + 1] == a[..n] + [p]
  {
  }

  /** The loop that resumes the listed processes. */
  method ResumeAll(ps: seq<Proc>, dead: set<Proc>, suspended: multiset<Proc>) returns (s: multiset<Proc>)
    ensures s == Resumed(ps, dead, suspended)
  {
    s := suspended;
    var i := 0;
    while i < |ps|
      invariant 0 <= i <= |ps| && s == Resumed(ps[..i], dead, suspended)
    {
      assert ps[..i + 1] == ps[..i] + [ps[i]];
      ResumedSnoc(ps[..i], ps[i], dead, suspended);
      if ps[i] !in dead {
        s := s - multiset{ps[i]};
      }
      i := i + 1;
    }
    assert ps[..i] == ps;
  }

  // ---------- literal areas ----------

  type Area = nat

  /**
   * `queue` waits for the collector, `current` is the area being copied from,
   * `later` are handed to thread progress for release; `handed` are all areas ever queued.
   */
  datatype Areas = Areas(queue: seq<Area>, current: Option<Area>, later: multiset<Area>, released: multiset<Area>,
                         handed: set<Area>)

  /** A purge hands over its literals; the collector switches; thread progress completes a release. */
  datatype AreaEvent = Hand(a: Area) | Switch | Complete(a: Area)

  predicate Possible(x: Areas, e: AreaEvent) {
    match e
    case Hand(a) => a !in x.handed
    case Switch => true
    case Complete(a) => a in x.later
  }

  function Step(x: Areas, e: AreaEvent): Areas
    requires Possible(x, e)
  {
    match e
    case Hand(a) => x.(queue := x.queue + [a], handed := x.handed + {a})
    case Switch =>
      x.(queue := if x.queue == [] then [] else x.queue[1..],
         current := if x.queue == [] then None else Some(x.queue[0]),
         later := Left(x.later, x.current))
    case Complete(a) => x.(later := x.later - multiset{a}, released := x.released + multiset{a})
  }

  const NO_AREAS := Areas([], None, multiset{}, multiset{}, {})

  /** Where an area is, counted over all places. */
  function Places(x: Areas, a: Area): nat {
    multiset(x.queue)[a] + (if x.current == Some(a) then 1 else 0) + x.later[a] + x.released[a]
  }

  /** Every area handed over is in exactly one place. */
  ghost predicate Accounted(x: Areas) {
    forall a: Area :: Places(x, a) == if a in x.handed then 1 else 0
  }

  lemma QueueCounts(q: seq<Area>, a: Area, b: Area)
    ensures multiset(q + [a])[b] == multiset(q)[b] + if a == b then 1 else 0
    ensures q != [] ==> multiset(q)[b] == multiset(q[1..])[b] + if q[0] == b then 1 else 0
  {
    if q != [] {
      assert q == [q[0]] + q[1..];
    }
  }

  lemma StepAccounts(x: Areas, e: AreaEvent)
    requires Accounted(x) && Possible(x, e)
    ensures Accounted(Step(x, e))
  {
    forall b: Area
      ensures Places(Step(x, e), b) == if b in Step(x, e).handed then 1 else 0
    {
      assert Places(x, b) == if b in x.handed then 1 else 0;
      StepPlaces(x, e, b);
    }
  }

  /** A step moves an area from one place to the next; only a hand-over adds one. */
  lemma StepPlaces(x: Areas, e: AreaEvent, b: Area)
    requires Possible(x, e)
    ensures Places(Step(x, e), b) == Places(x, b) + if e == Hand(b) then 1 else 0
  {
    match e
    case Hand(a) => QueueCounts(x.queue, a, b);
    case Switch =>
      QueueCounts(x.queue, 0, b);
      assert Left(x.later, x.current)[b] == x.later[b] + if x.current == Some(b) then 1 else 0;
    case Complete(_) =>
  }

  predicate PossibleRun(x: Areas, es: seq<AreaEvent>)
    decreases |es|
  {
    es == [] || (Possible(x, es[0]) && PossibleRun(Step(x, es[0]), es[1..]))
  }

  function Run(x: Areas, es: seq<AreaEvent>): Areas
    requires PossibleRun(x, es)
    decreases |es|
  {
    if es == [] then x else Run(Step(x, es[0]), es[1..])
  }

  lemma {:induction false} RunAccounts(x: Areas, es: seq<AreaEvent>)
    requires Accounted(x) && PossibleRun(x, es)
    ensures Accounted(Run(x, es))
    decreases |es|
  {
    if es != [] {
      StepAccounts(x, es[0]);
      RunAccounts(Step(x, es[0]), es[1..]);
    }
  }

  /** In every run an area is released at most once, and never while it is queued, current or about to be released. */
  lemma ReleasedOnce(es: seq<AreaEvent>, a: Area)
    requires PossibleRun(NO_AREAS, es)
    ensures var x := Run(NO_AREAS, es);
            && x.released[a] <= 1 && (a in x.released ==> a in x.handed)
            && (a in x.released ==> a !in x.queue && x.current != Some(a) && a !in x.later)
            && (a in x.handed && a !in x.released ==> a in x.queue || x.current == Some(a) || a in x.later)
  {
    RunAccounts(NO_AREAS, es);
    var x := Run(NO_AREAS, es);
    assert Places(x, a) == if a in x.handed then 1 else 0;
    assert a in multiset(x.queue) <==> a in x.queue;
  }

  // ---------- what the events alone say ----------

  /** The areas in the order they were handed over. */
  function HandedOver(es: seq<AreaEvent>): seq<Area> {
    if es == [] then []
    else HandedOver(es[..|es| - 1]) + if es[|es| - 1].Hand? then [es[|es| - 1].a] else []
  }

  /** How many of them the collector has taken; a switch takes the next one if there is one. */
  function TakenUp(es: seq<AreaEvent>): (n: nat)
    ensures n <= |HandedOver(es)|
  {
    if es == [] then 0
    else
      var front := es[..|es| - 1];
      var n := TakenUp(front);
      if es[|es| - 1].Switch? && n < |HandedOver(front)| then n + 1 else n
  }

  /** Whether the last switch found one. */
  predicate Copying(es: seq<AreaEvent>) {
    if es == [] then false
    else
      var front := es[..|es| - 1];
      if es[|es| - 1].Switch? then TakenUp(front) < |HandedOver(front)| else Copying(front)
  }

  lemma {:induction false} RunSnoc(x: Areas, es: seq<AreaEvent>, e: AreaEvent)
    requires PossibleRun(x, es + [e])
    ensures PossibleRun(x, es) && Possible(Run(x, es), e) && Run(x, es + [e]) == Step(Run(x, es), e)
    decreases |es|
  {
    var t := es + [e];
    if es == [] {
      assert t == [e] && t[1..] == [];
    } else {
      assert t[0] == es[0] && t[1..] == es[1..] + [e];
      RunSnoc(Step(x, es[0]), es[1..], e);
    }
  }

  /** The first `n` of the areas have been taken up, and the last of them is the one being copied from. */
  predicate InOrder(x: Areas, all: seq<Area>, n: nat, copying: bool) {
    && n <= |all| && x.queue == all[n..] && (copying ==> n > 0)
    && x.current == if copying then Some(all[n - 1]) else None
  }

  lemma HandInOrder(x: Areas, all: seq<Area>, n: nat, copying: bool, a: Area)
    requires InOrder(x, all, n, copying) && Possible(x, Hand(a))
    ensures InOrder(Step(x, Hand(a)), all + [a], n, copying)
  {
    assert (all + [a])[n..] == all[n..] + [a];
  }

  lemma SwitchInOrder(x: Areas, all: seq<Area>, n: nat, copying: bool)
    requires InOrder(x, all, n, copying)
    ensures InOrder(Step(x, Switch), all, if n < |all| then n + 1 else n, n < |all|)
  {
    if n < |all| {
      assert all[n..][1..] == all[n + 1..];
    }
  }

  /** In every run the collector takes up the areas in the order in which they were handed over. */
  lemma {:induction false} FirstComeFirstServed(es: seq<AreaEvent>)
    requires PossibleRun(NO_AREAS, es)
    ensures InOrder(Run(NO_AREAS, es), HandedOver(es), TakenUp(es), Copying(es))
    decreases |es|
  {
    hide InOrder, Step, Possible;
    if es == [] {
      NothingHanded();
    } else {
      var front, last := es[..|es| - 1], es[|es| - 1];
      assert es == front + [last];
      RunSnoc(NO_AREAS, front, last);
      FirstComeFirstServed(front);
      var x, all, n := Run(NO_AREAS, front), HandedOver(front), TakenUp(front);
      assert all + [] == all;
      match last
      case Hand(a) => HandInOrder(x, all, n, Copying(front), a);
      case Switch => SwitchInOrder(x, all, n, Copying(front));
      case Complete(a) => CompleteInOrder(x, all, n, Copying(front), a);
    }
  }

  lemma NothingHanded()
    ensures InOrder(NO_AREAS, [], 0, false)
  {
  }

  lemma CompleteInOrder(x: Areas, all: seq<Area>, n: nat, copying: bool, a: Area)
    requires InOrder(x, all, n, copying) && Possible(x, Complete(a))
    ensures InOrder(Step(x, Complete(a)), all, n, copying)
  {
  }

  /** The queue of release_literal_areas: nodes linked from `first`, appended behind `last`. */
  datatype Node = Node(area: Area, next: Option<nat>)

  class LiteralAreas {
    var nodes: map<nat, Node>
    var first: Option<nat>
    var last: Option<nat>
    var copyArea: Option<Area>
    var nextRef: nat
    var pending: multiset<Area>
    var memory: set<Area>
    ghost var refs: seq<nat>
    ghost var view: Areas

    ghost predicate Valid()
      reads this
    {
      Linked(nodes, first, last, refs, nextRef, copyArea, pending, memory, view)
    }

    constructor ()
      ensures Valid() && view == NO_AREAS && pending == multiset{} && memory == {}
    {
      nodes, first, last, copyArea, nextRef := map[], None, None, None, 0;
      pending, memory := multiset{}, {};
      refs, view := [], NO_AREAS;
    }

    /** The end of a successful purge. */
    method HandOver(a: Area)
      requires Valid() && Possible(view, Hand(a))
      modifies this`nodes, this`first, this`last, this`nextRef, this`memory, this`refs, this`view
      ensures Valid() && view == Step(old(view), Hand(a)) && memory == old(memory) + {a}
    {
      HandLinked(nodes, first, last, refs, nextRef, copyArea, pending, memory, view, a);
      ghost var refs', view' := refs + [nextRef], Step(view, Hand(a));
      hide Linked, Step;
      var ref, nodes', first' := nextRef, nodes, first;
      if last.Some? {
        nodes' := nodes'[last.value := nodes'[last.value].(next := Some(ref))];
      } else {
        first' := Some(ref);
      }
      nodes' := nodes'[ref := Node(a, None)];
      assert Linked(nodes', first', Some(ref), refs', ref + 1, copyArea, pending, memory + {a}, view');
      nodes, first, last, nextRef, memory := nodes', first', Some(ref), ref + 1, memory + {a};
      refs, view := refs', view';
    }

    /** erts_internal_release_literal_area_switch: the area copied from so far is left to thread progress. */
    method SwitchArea() returns (more: bool)
      requires Valid()
      modifies this`nodes, this`first, this`last, this`copyArea, this`pending, this`refs, this`view
      ensures Valid() && view == Step(old(view), Switch)
      ensures more <==> old(view.queue) != []
    {
      hide Linked, Step, Left;
      ghost var refs', view' := refs, view;
      var nodes', first', last', area := nodes, first, last, None;
      SwitchLinked(nodes, first, last, refs, nextRef, copyArea, pending, memory, view);
      if first'.Some? {
        var node := nodes'[first'.value];
        nodes', refs' := nodes' - {first'.value}, refs'[1..];
        first', area := node.next, Some(node.area);
        if first'.None? {
          last' := None;
        }
      }
      var pending' := Left(pending, copyArea);
      more := first.Some?;
      assert Linked(nodes', first', last', refs', nextRef, area, pending', memory, Step(view', Switch));
      nodes, first, last, copyArea, pending := nodes', first', last', area, pending';
      refs, view := refs', Step(view', Switch);
    }

    /** erts_release_literal_area, once every thread has made progress: the area is still there, and then is not. */
    method Release(a: Area)
      requires Valid() && a in pending
      modifies this`pending, this`memory, this`view
      ensures Valid() && view == Step(old(view), Complete(a))
      ensures a in old(memory) && memory == old(memory) - {a}
      ensures a !in view.queue && copyArea != Some(a) && a !in pending
    {
      StepAccounts(view, Complete(a));
      StepKeeps(view, Complete(a), memory);
      NowhereElse(view, a);
      hide Chained, Accounted, AreasOf, Kept;
      pending := pending - multiset{a};
      memory := memory - {a};
      view := Step(view, Complete(a));
    }
  }

  /** The linked list, the current area, the pending releases and the memory are those of the view. */
  ghost predicate Linked(nodes: map<nat, Node>, first: Option<nat>, last: Option<nat>, refs: seq<nat>, nextRef: nat,
                         copyArea: Option<Area>, pending: multiset<Area>, memory: set<Area>, view: Areas) {
    && Chained(nodes, first, last, refs, nextRef)
    && view.queue == AreasOf(nodes, refs) && view.current == copyArea && view.later == pending
    && Accounted(view) && Kept(view, memory)
  }

  /** The releases pending once the area copied from so far is left to thread progress. */
  function Left(pending: multiset<Area>, area: Option<Area>): multiset<Area> {
    if area.Some? then pending[area.value := pending[area.value] + 1] else pending
  }

  lemma HandLinked(nodes: map<nat, Node>, first: Option<nat>, last: Option<nat>, refs: seq<nat>, nextRef: nat,
                   copyArea: Option<Area>, pending: multiset<Area>, memory: set<Area>, view: Areas, a: Area)
    requires Linked(nodes, first, last, refs, nextRef, copyArea, pending, memory, view) && Possible(view, Hand(a))
    ensures last.Some? ==> last.value in nodes
    ensures Linked(Hung(nodes, last, nextRef, a), if last.Some? then first else Some(nextRef), Some(nextRef),
                   refs + [nextRef], nextRef + 1, copyArea, pending, memory + {a}, Step(view, Hand(a)))
  {
    LastIsNode(nodes, first, last, refs, nextRef);
    Appended(nodes, first, last, refs, nextRef, a);
    AppendedArea(nodes, first, last, refs, nextRef, a);
    StepAccounts(view, Hand(a));
    StepKeeps(view, Hand(a), memory);
    hide Chained, AreasOf, Accounted, Kept;
  }

  lemma SwitchLinked(nodes: map<nat, Node>, first: Option<nat>, last: Option<nat>, refs: seq<nat>, nextRef: nat,
                     copyArea: Option<Area>, pending: multiset<Area>, memory: set<Area>, view: Areas)
    requires Linked(nodes, first, last, refs, nextRef, copyArea, pending, memory, view)
    ensures (first.Some? <==> view.queue != []) && (first.Some? <==> refs != [])
    ensures first.None? ==>
              Linked(nodes, first, last, refs, nextRef, None, Left(pending, copyArea), memory, Step(view, Switch))
    ensures first.Some? ==>
              && first.value in nodes
              && var rest := nodes[first.value].next;
                 Linked(nodes - {first.value}, rest, if rest.None? then None else last, refs[1..], nextRef,
                        Some(nodes[first.value].area), Left(pending, copyArea), memory, Step(view, Switch))
  {
    StepKeeps(view, Switch, memory);
    StepAccounts(view, Switch);
    Switched(view);
    Popped(nodes, first, last, refs, nextRef);
    hide Chained, Accounted, AreasOf, Step, Kept;
  }

  /** The areas in memory are those handed over and not released yet. */
  ghost predicate Kept(x: Areas, memory: set<Area>) {
    forall a: Area :: a in memory <==> a in x.handed && a !in x.released
  }

  function MemoryAfter(e: AreaEvent, memory: set<Area>): set<Area> {
    match e
    case Hand(a) => memory + {a}
    case Switch => memory
    case Complete(a) => memory - {a}
  }

  lemma StepKeeps(x: Areas, e: AreaEvent, memory: set<Area>)
    requires Accounted(x) && Possible(x, e) && Kept(x, memory)
    ensures Kept(Step(x, e), MemoryAfter(e, memory))
  {
    if e.Hand? {
      assert Places(x, e.a) == if e.a in x.handed then 1 else 0;
    }
  }

  /** An area about to be released is in memory and in no other place. */
  lemma NowhereElse(x: Areas, a: Area)
    requires Accounted(x) && a in x.later
    ensures a in x.handed && a !in x.released && a !in x.queue && x.current != Some(a) && x.later[a] == 1
  {
    assert Places(x, a) == if a in x.handed then 1 else 0;
    assert a in multiset(x.queue) <==> a in x.queue;
  }

  lemma Switched(x: Areas)
    ensures var t := Step(x, Switch);
            && t.queue == (if x.queue == [] then [] else x.queue[1..])
            && t.current == (if x.queue == [] then None else Some(x.queue[0]))
            && t.later == Left(x.later, x.current)
  {
  }

  ghost predicate Chained(nodes: map<nat, Node>, first: Option<nat>, last: Option<nat>, refs: seq<nat>, nextRef: nat) {
    && (forall i :: 0 <= i < |refs| ==> refs[i] in nodes && refs[i] < nextRef)
    && (forall r :: r in nodes ==> r < nextRef)
    && (forall i, j :: 0 <= i < j < |refs| ==> refs[i] != refs[j])
    && first == (if refs == [] then None else Some(refs[0]))
    && last == (if refs == [] then None else Some(refs[|refs| - 1]))
    && (forall i :: 0 <= i < |refs| ==> nodes[refs[i]].next == Following(refs, i))
  }

  function Following(refs: seq<nat>, i: nat): Option<nat> {
    if i + 1 < |refs| then Some(refs[i + 1]) else None
  }

  ghost function AreasOf(nodes: map<nat, Node>, refs: seq<nat>): seq<Area> {
    seq(|refs|, i requires 0 <= i < |refs| => if refs[i] in nodes then nodes[refs[i]].area else 0)
  }

  /** The nodes after a new one has been hung behind the last. */
  ghost function Hung(nodes: map<nat, Node>, last: Option<nat>, ref: nat, a: Area): map<nat, Node>
    requires last.Some? ==> last.value in nodes
  {
    (if last.Some? then nodes[last.value := nodes[last.value].(next := Some(ref))] else nodes)[ref := Node(a, None)]
  }

  lemma LastIsNode(nodes: map<nat, Node>, first: Option<nat>, last: Option<nat>, refs: seq<nat>, nextRef: nat)
    requires Chained(nodes, first, last, refs, nextRef)
    ensures last.Some? ==> last.value in nodes
  {
  }

  lemma Appended(nodes: map<nat, Node>, first: Option<nat>, last: Option<nat>, refs: seq<nat>, nextRef: nat, a: Area)
    requires Chained(nodes, first, last, refs, nextRef) && (last.Some? ==> last.value in nodes)
    ensures Chained(Hung(nodes, last, nextRef, a), if last.Some? then first else Some(nextRef), Some(nextRef),
                    refs + [nextRef], nextRef + 1)
  {
    var refs', nodes' := refs + [nextRef], Hung(nodes, last, nextRef, a);
    forall i | 0 <= i < |refs'|
      ensures refs'[i] in nodes' && nodes'[refs'[i]].next == Following(refs', i)
    {
      if i < |refs| {
        assert nodes[refs[i]].next == Following(refs, i);
        assert i + 1 < |refs| ==> refs[i] != refs[|refs| - 1];
      }
    }
  }

  lemma AppendedArea(nodes: map<nat, Node>, first: Option<nat>, last: Option<nat>, refs: seq<nat>, nextRef: nat, a: Area)
    requires Chained(nodes, first, last, refs, nextRef) && (last.Some? ==> last.value in nodes)
    ensures AreasOf(Hung(nodes, last, nextRef, a), refs + [nextRef]) == AreasOf(nodes, refs) + [a]
  {
    var nodes' := Hung(nodes, last, nextRef, a);
    forall i | 0 <= i < |refs|
      ensures refs[i] in nodes' && nodes'[refs[i]].area == nodes[refs[i]].area
    {
      assert refs[i] < nextRef;
    }
  }

  lemma Popped(nodes: map<nat, Node>, first: Option<nat>, last: Option<nat>, refs: seq<nat>, nextRef: nat)
    requires Chained(nodes, first, last, refs, nextRef)
    ensures |AreasOf(nodes, refs)| == |refs| && (first.Some? <==> refs != [])
    ensures first.Some? ==>
              && first.value in nodes && AreasOf(nodes, refs)[0] == nodes[first.value].area
              && var rest := nodes[first.value].next;
                 && Chained(nodes - {first.value}, rest, if rest.None? then None else last, refs[1..], nextRef)
                 && AreasOf(nodes - {first.value}, refs[1..]) == AreasOf(nodes, refs)[1..]
  {
    if first.Some? {
      Tail(nodes, first, last, refs, nextRef);
      TailAreas(nodes, first, last, refs, nextRef);
    }
  }

  lemma Tail(nodes: map<nat, Node>, first: Option<nat>, last: Option<nat>, refs: seq<nat>, nextRef: nat)
    requires Chained(nodes, first, last, refs, nextRef) && refs != []
    ensures var next := nodes[refs[0]].next;
            Chained(nodes - {refs[0]}, next, if next.None? then None else last, refs[1..], nextRef)
  {
    var rest, tail := nodes - {refs[0]}, refs[1..];
    assert nodes[refs[0]].next == Following(refs, 0);
    forall i | 0 <= i < |tail|
      ensures tail[i] in rest && tail[i] < nextRef && rest[tail[i]].next == Following(tail, i)
    {
      assert tail[i] == refs[i + 1] && refs[0] != refs[i + 1];
      assert nodes[refs[i + 1]].next == Following(refs, i + 1);
    }
  }

  lemma TailAreas(nodes: map<nat, Node>, first: Option<nat>, last: Option<nat>, refs: seq<nat>, nextRef: nat)
    requires Chained(nodes, first, last, refs, nextRef) && refs != []
    ensures AreasOf(nodes - {refs[0]}, refs[1..]) == AreasOf(nodes, refs)[1..]
  {
    forall i | 0 <= i < |refs| - 1
      ensures AreasOf(nodes - {refs[0]}, refs[1..])[i] == AreasOf(nodes, refs)[1..][i]
    {
      assert refs[0] != refs[i + 1];
    }
  }
}

/**
 * Code indices and the permission to change code (erts/emulator/beam/code_ix.c):
 * one process at a time may stage code; others that ask are suspended in a queue
 * until the holder releases the permission and wakes all of them to try again.
 */
module CodeIx {
  import opened Suspension
  import opened Wrappers

  /**
   * `suspended` and `refs` count, for each process, the suspensions and the
   * references that the queue is responsible for; `believers` are the processes
   * whose last attempt succeeded and that have not released the permission.
   */
  datatype State = State(holder: Option<Proc>, queue: seq<Proc>, suspended: multiset<Proc>, refs: multiset<Proc>,
                         exiting: set<Proc>, believers: set<Proc>)

  /** What any process may do next; Exit is a process dying, whether it runs or waits. */
  datatype Event = Seize(p: Proc) | Release(p: Proc) | Exit(p: Proc)

  predicate Enabled(s: State, e: Event) {
    match e
    case Seize(p) => p !in s.exiting && p !in s.suspended && p !in s.believers
    case Release(p) => p in s.believers
    case Exit(_) => true
  }

  function Step(s: State, e: Event): State
    requires Enabled(s, e)
  {
    match e
    case Seize(p) =>
      if s.holder.None? then s.(holder := Some(p), believers := s.believers + {p})
      else s.(queue := [p] + s.queue, suspended := s.suspended + multiset{p}, refs := s.refs + multiset{p})
    case Release(p) =>
      s.(holder := None, queue := [], suspended := Resumed(s.queue, s.exiting, s.suspended),
         refs := s.refs - multiset(s.queue), believers := s.believers - {p})
    case Exit(p) => s.(exiting := s.exiting + {p})
  }

  const INIT := State(None, [], multiset{}, multiset{}, {}, {})

  /** Exactly the holder believes to have the permission; who waits is queued once, suspended and referenced. */
  ghost predicate Inv(s: State) {
    && s.believers == (if s.holder.Some? then {s.holder.value} else {})
    && (s.holder.None? ==> s.queue == [])
    && s.refs == multiset(s.queue)
    && (forall p :: p !in s.exiting ==> s.suspended[p] == multiset(s.queue)[p])
    && (forall i, j :: 0 <= i < j < |s.queue| && s.queue[i] == s.queue[j] ==> s.queue[i] in s.exiting)
  }

  lemma Queued(p: Proc, queue: seq<Proc>)
    ensures multiset([p] + queue) == multiset{p} + multiset(queue)
    ensures forall q :: multiset([p] + queue)[q] == multiset(queue)[q] + if q == p then 1 else 0
  {
  }

  lemma SeizeKeeps(s: State, p: Proc)
    requires Inv(s) && Enabled(s, Seize(p))
    ensures Inv(Step(s, Seize(p)))
  {
    if s.holder.Some? {
      Queued(p, s.queue);
      assert s.suspended[p] == 0 == multiset(s.queue)[p];
      forall i | 0 <= i < |s.queue|
        ensures s.queue[i] != p
      {
        assert s.queue[i] in multiset(s.queue);
      }
      Distinct(p, s.queue, s.exiting);
    }
  }

  lemma Distinct(p: Proc, queue: seq<Proc>, exiting: set<Proc>)
    requires forall i, j :: 0 <= i < j < |queue| && queue[i] == queue[j] ==> queue[i] in exiting
    requires forall i :: 0 <= i < |queue| ==> queue[i] != p
    ensures var t := [p] + queue;
            forall i, j :: 0 <= i < j < |t| && t[i] == t[j] ==> t[i] in exiting
  {
    var t := [p] + queue;
    forall i, j | 0 <= i < j < |t| && t[i] == t[j]
      ensures t[i] in exiting
    {
      if i > 0 {
        assert queue[i - 1] == queue[j - 1];
      }
    }
  }

  lemma ReleaseKeeps(s: State, p: Proc)
    requires Inv(s) && Enabled(s, Release(p))
    ensures Inv(Step(s, Release(p)))
  {
    forall q {
      ResumedCounts(s.queue, s.exiting, s.suspended, q);
    }
  }

  lemma StepKeeps(s: State, e: Event)
    requires Inv(s) && Enabled(s, e)
    ensures Inv(Step(s, e))
  {
    match e
    case Seize(p) => SeizeKeeps(s, p);
    case Release(p) => ReleaseKeeps(s, p);
    case Exit(_) =>
  }

  /** A run: every event is possible when it happens. */
  predicate Possible(s: State, es: seq<Event>)
    decreases |es|
  {
    es == [] || (Enabled(s, es[0]) && Possible(Step(s, es[0]), es[1..]))
  }

  function Run(s: State, es: seq<Event>): State
    requires Possible(s, es)
    decreases |es|
  {
    if es == [] then s else Run(Step(s, es[0]), es[1..])
  }

  lemma {:induction false} RunKeeps(s: State, es: seq<Event>)
    requires Inv(s) && Possible(s, es)
    ensures Inv(Run(s, es))
    decreases |es|
  {
    if es != [] {
      StepKeeps(s, es[0]);
      RunKeeps(Step(s, es[0]), es[1..]);
    }
  }

  /**
   * Whatever the interleaving, at most one process has the permission, and when
   * it is free nobody waits: the queue is empty and no live process is suspended by it.
   */
  lemma Exclusion(es: seq<Event>, p: Proc, q: Proc)
    requires Possible(INIT, es)
    ensures var s := Run(INIT, es);
            && (p in s.believers && q in s.believers ==> p == q)
            && (s.holder.None? ==> s.queue == [] && s.refs == multiset{} && (p !in s.exiting ==> p !in s.suspended))
            && (p !in s.exiting && p in s.suspended ==> p in s.queue && s.holder.Some?)
  {
    RunKeeps(INIT, es);
    var s := Run(INIT, es);
    assert p !in s.exiting ==> s.suspended[p] == multiset(s.queue)[p];
    assert p in multiset(s.queue) <==> p in s.queue;
  }

  // ---------- what the events alone say ----------

  /** Who has the permission: the first to ask since it was last released. */
  function Winner(es: seq<Event>): Option<Proc> {
    if es == [] then None
    else
      var before := Winner(es[..|es| - 1]);
      match es[|es| - 1]
      case Seize(p) => if before.Some? then before else Some(p)
      case Release(_) => None
      case Exit(_) => before
  }

  /** The last attempt of `p` was refused, and the permission has not been released since. */
  predicate Refused(es: seq<Event>, p: Proc) {
    if es == [] then false
    else
      var front := es[..|es| - 1];
      match es[|es| - 1]
      case Seize(q) => if q == p then Winner(front).Some? else Refused(front, p)
      case Release(_) => false
      case Exit(_) => Refused(front, p)
  }

  lemma {:induction false} RunSnoc(s: State, es: seq<Event>, e: Event)
    requires Possible(s, es + [e])
    ensures Possible(s, es) && Enabled(Run(s, es), e) && Run(s, es + [e]) == Step(Run(s, es), e)
    decreases |es|
  {
    var t := es + [e];
    if es == [] {
      assert t == [e] && t[1..] == [];
    } else {
      assert t[0] == es[0] && t[1..] == es[1..] + [e];
      RunSnoc(Step(s, es[0]), es[1..], e);
    }
  }

  /** The state shows `p` as the events say. */
  ghost predicate Told(s: State, es: seq<Event>, p: Proc) {
    var n := if Refused(es, p) then 1 else 0;
    && s.holder == Winner(es)
    && multiset(s.queue)[p] == n && s.refs[p] == n
    && (p in s.exiting <==> Exit(p) in es)
    && (p !in s.exiting ==> s.suspended[p] == n)
  }

  lemma StepTold(s: State, es: seq<Event>, e: Event, p: Proc)
    requires Inv(s) && Enabled(s, e) && Told(s, es, p)
    ensures Told(Step(s, e), es + [e], p)
  {
    var t := es + [e];
    assert t[..|t| - 1] == es && t[|t| - 1] == e;
    match e
    case Seize(q) => Queued(q, s.queue);
    case Release(_) => ResumedCounts(s.queue, s.exiting, s.suspended, p);
    case Exit(_) =>
  }

  /**
   * In every run a process is in the queue exactly if its last attempt was refused and the
   * permission has not been released since; it is there and referenced once, and suspended
   * once while it lives.  After a release it is none of these.
   */
  lemma {:induction false} RefusedWait(es: seq<Event>, p: Proc)
    requires Possible(INIT, es)
    ensures var s, n := Run(INIT, es), if Refused(es, p) then 1 else 0;
            && s.holder == Winner(es)
            && multiset(s.queue)[p] == n && s.refs[p] == n
            && (Exit(p) !in es ==> s.suspended[p] == n)
    ensures Told(Run(INIT, es), es, p)
    decreases |es|
  {
    if es != [] {
      var front, last := es[..|es| - 1], es[|es| - 1];
      assert es == front + [last];
      RunSnoc(INIT, front, last);
      RefusedWait(front, p);
      RunKeeps(INIT, front);
      StepTold(Run(INIT, front), front, last, p);
    }
  }

  /** Who may ask is neither queued nor referenced. */
  lemma Waiting(s: State, p: Proc)
    requires Inv(s) && Enabled(s, Seize(p))
    ensures p !in s.refs && (s.holder.None? ==> s.queue == [] && s.believers == {})
  {
    assert s.suspended[p] == multiset(s.queue)[p];
  }

  /** What a release leaves. */
  lemma Released(s: State, p: Proc)
    requires Inv(s) && Enabled(s, Release(p))
    ensures s.refs == multiset(s.queue)
    ensures Step(s, Release(p)).refs == multiset{} && Step(s, Release(p)).believers == {}
    ensures forall q :: Step(s, Release(p)).suspended[q] == if q in s.exiting then s.suspended[q] else 0
  {
    NothingLeft(s);
    forall q {
      ResumedCounts(s.queue, s.exiting, s.suspended, q);
    }
  }

  lemma NothingLeft(s: State)
    requires s.refs == multiset(s.queue)
    ensures s.refs - multiset(s.queue) == multiset{}
  {
  }

  /** The loop that unleashes the entire herd. */
  method WakeAll(queue: seq<Proc>, exiting: set<Proc>, suspended: multiset<Proc>, refs: multiset<Proc>)
    returns (asleep: multiset<Proc>, counts: multiset<Proc>)
    requires refs == multiset(queue)
    ensures asleep == Resumed(queue, exiting, suspended) && counts == multiset{}
  {
    var rest := queue;
    asleep, counts := suspended, refs;
    while rest != []
      invariant counts == multiset(rest)
      invariant Resumed(rest, exiting, asleep) == Resumed(queue, exiting, suspended)
      decreases |rest|
    {
      var q := rest[0];
      Popped(rest);
      if q !in exiting {
        asleep := asleep - multiset{q};
      }
      counts := counts - multiset{q};
      rest := rest[1..];
    }
  }

  lemma Popped(queue: seq<Proc>)
    requires queue != []
    ensures multiset(queue) - multiset{queue[0]} == multiset(queue[1..])
  {
    assert queue == [queue[0]] + queue[1..];
  }

  class Permission {
    var holder: Option<Proc>
    var queue: seq<Proc>
    var suspended: multiset<Proc>
    var refs: multiset<Proc>
    var exiting: set<Proc>
    ghost var believers: set<Proc>

    ghost function Now(): State
      reads this
    {
      State(holder, queue, suspended, refs, exiting, believers)
    }

    ghost predicate Valid()
      reads this
    {
      Inv(Now())
    }

    constructor ()
      ensures Valid() && Now() == INIT
    {
      holder, queue, suspended, refs, exiting, believers := None, [], multiset{}, multiset{}, {}, {};
    }

    /** erts_try_seize_code_write_permission. */
    method TrySeize(p: Proc) returns (success: bool)
      requires Valid() && Enabled(Now(), Seize(p))
      modifies this
      ensures Valid() && Now() == Step(old(Now()), Seize(p)) && exiting == old(exiting)
      ensures success <==> old(holder).None?
      ensures success ==> holder == Some(p) && believers == {p} && queue == [] && p !in suspended && p !in refs
      ensures !success ==> holder == old(holder) && believers == old(believers) && queue == [p] + old(queue)
      ensures !success ==> suspended == old(suspended) + multiset{p} && refs == old(refs) + multiset{p}
      ensures !success ==> suspended[p] == 1 && refs[p] == 1
    {
      hide Inv;
      StepKeeps(Now(), Seize(p));
      Waiting(Now(), p);
      success := holder.None?;
      if success {
        holder := Some(p);
        believers := believers + {p};
      } else {
        refs := refs + multiset{p};
        queue := [p] + queue;
        suspended := suspended + multiset{p};
      }
    }

    /** erts_release_code_write_permission. */
    method ReleaseAll(ghost p: Proc)
      requires Valid() && Enabled(Now(), Release(p))
      modifies this
      ensures Valid() && Now() == Step(old(Now()), Release(p)) && exiting == old(exiting)
      ensures holder.None? && believers == {} && queue == [] && refs == multiset{}
      ensures forall q :: suspended[q] == if q in exiting then old(suspended)[q] else 0
    {
      hide Resumed, Inv;
      StepKeeps(Now(), Release(p));
      Released(Now(), p);
      var asleep, counts := WakeAll(queue, exiting, suspended, refs);
      holder, queue, suspended, refs := None, [], asleep, counts;
      believers := believers - {p};
    }

    method ProcessExits(p: Proc)
      requires Valid() && Enabled(Now(), Exit(p))
      modifies this`exiting
      ensures Valid() && Now() == Step(old(Now()), Exit(p)) && exiting == old(exiting) + {p}
    {
      StepKeeps(Now(), Exit(p));
      exiting := exiting + {p};
    }
  }

  // ---------- the indices ----------

  const NUM_CODE_IX: nat := 3

  datatype Indices = Indices(active: nat, staging: nat)

  /** erts_commit_staging_code_ix. */
  function Commit(x: Indices): Indices {
    Indices(x.staging, (x.staging + 1) % NUM_CODE_IX)
  }

  function Commits(n: nat): Indices {
    if n == 0 then Indices(0, 0) else Commit(Commits(n - 1))
  }

  lemma {:induction false} Rotation(n: nat)
    ensures var x := Commits(n);
            x.active < NUM_CODE_IX && (if n == 0 then x.staging == 0 else x.staging == (x.active + 1) % NUM_CODE_IX)
  {
    if n > 0 {
      Rotation(n - 1);
    }
  }

  /** After any commit the staging index is neither the active nor the previously active one. */
  lemma StagingIsApart(n: nat)
    requires n > 0
    ensures Commits(n).staging != Commits(n).active && Commits(n).staging != Commits(n - 1).active
  {
    Rotation(n);
    Rotation(n - 1);
  }
}

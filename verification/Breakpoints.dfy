/**
 * Generic breakpoints (erts/emulator/beam/beam_bp.c): every traced function
 * owns two halves of breakpoint data, one active and one staged; match
 * specifications, meta tracers, call counters and time tables are shared by
 * reference count.  A cycle stages a change, installs breakpoint words,
 * swaps the halves, removes dead words and makes the halves agree again.
 */
module Breakpoints {
  import opened Wrappers

  /** A reference-counted object, by address. */
  type Obj = nat

  /** An ERTS_BPF bit mask, one field per bit. */
  datatype Flags = Flags(localTrace: bool, metaTrace: bool, count: bool, countActive: bool,
                         debug: bool, time: bool, timeActive: bool, globalTrace: bool)

  const NONE := Flags(false, false, false, false, false, false, false, false)
  const LOCAL_TRACE := NONE.(localTrace := true)
  const GLOBAL_TRACE := NONE.(globalTrace := true)
  const META_TRACE := NONE.(metaTrace := true)
  const DEBUG := NONE.(debug := true)
  const COUNT := NONE.(count := true, countActive := true)
  const TIME := NONE.(time := true, timeActive := true)
  const ALL := Flags(true, true, true, true, true, true, true, true)

  function And(a: Flags, b: Flags): Flags {
    Flags(a.localTrace && b.localTrace, a.metaTrace && b.metaTrace, a.count && b.count,
          a.countActive && b.countActive, a.debug && b.debug, a.time && b.time,
          a.timeActive && b.timeActive, a.globalTrace && b.globalTrace)
  }

  function Or(a: Flags, b: Flags): Flags {
    Flags(a.localTrace || b.localTrace, a.metaTrace || b.metaTrace, a.count || b.count,
          a.countActive || b.countActive, a.debug || b.debug, a.time || b.time,
          a.timeActive || b.timeActive, a.globalTrace || b.globalTrace)
  }

  function AndNot(a: Flags, b: Flags): Flags {
    Flags(a.localTrace && !b.localTrace, a.metaTrace && !b.metaTrace, a.count && !b.count,
          a.countActive && !b.countActive, a.debug && !b.debug, a.time && !b.time,
          a.timeActive && !b.timeActive, a.globalTrace && !b.globalTrace)
  }

  datatype BreakOp = NoOp | Set | Restart | Pause

  /** Restart and pause change a breakpoint but never make one. */
  predicate Creates(op: BreakOp) {
    op == NoOp || op == Set
  }

  /** One half of the breakpoint data (GenericBpData). A field means something only under its flag. */
  datatype Half = Half(flags: Flags, localMs: Option<Obj>, metaMs: Option<Obj>,
                       metaTracer: Obj, count: Obj, time: Obj)

  datatype Word = Breakpoint | Instr(op: nat)

  datatype GenericBp = GenericBp(orig: Word, data: seq<Half>)

  /** A function: its module, the code word at its entry and its breakpoint structure, if any. */
  datatype Function = Function(mod: nat, word: Word, bp: Option<GenericBp>)

  /** What one half says: the flags, and a field only where its flag is set. */
  datatype Seen = Seen(flags: Flags, local: Option<Option<Obj>>, meta: Option<(Option<Obj>, Obj)>,
                       count: Option<Obj>, time: Option<Obj>)

  const NOTHING := Seen(NONE, None, None, None, None)
  const EMPTY_HALF := Half(NONE, None, None, 0, 0, 0)

  predicate Traced(flags: Flags) {
    flags.localTrace || flags.globalTrace
  }

  function See(h: Half): Seen {
    Seen(h.flags,
         if Traced(h.flags) then Some(h.localMs) else None,
         if h.flags.metaTrace then Some((h.metaMs, h.metaTracer)) else None,
         if h.flags.count then Some(h.count) else None,
         if h.flags.time then Some(h.time) else None)
  }

  /** The half a running process acts on when it enters the function. */
  function Visible(f: Function, active: nat): Seen
    requires WellFormed(f) && active < 2
  {
    if f.word.Breakpoint? then See(f.bp.value.data[active]) else NOTHING
  }

  /** The half the next commit will make active. */
  function Staged(f: Function, active: nat): Seen
    requires WellFormed(f) && active < 2
  {
    if f.bp.Some? then See(f.bp.value.data[1 - active]) else NOTHING
  }

  // ---------- reference counts ----------

  /** One slot that points at a match specification (which may be null). */
  function MsHeld(on: bool, ms: Option<Obj>, o: Obj): nat {
    if on && ms == Some(o) then 1 else 0
  }

  /** One slot that points at an object of its own. */
  function ObjHeld(on: bool, x: Obj, o: Obj): nat {
    if on && x == o then 1 else 0
  }

  /** The number of flagged slots of a half that point at `o`. */
  function HalfHeld(h: Half, o: Obj): nat {
    MsHeld(Traced(h.flags), h.localMs, o)
    + MsHeld(h.flags.metaTrace, h.metaMs, o)
    + ObjHeld(h.flags.metaTrace, h.metaTracer, o)
    + ObjHeld(h.flags.count, h.count, o)
    + ObjHeld(h.flags.time, h.time, o)
  }

  function FunctionHeld(f: Function, o: Obj): nat
    requires WellFormed(f)
  {
    if f.bp.Some? then HalfHeld(f.bp.value.data[0], o) + HalfHeld(f.bp.value.data[1], o) else 0
  }

  predicate AllWellFormed(fs: seq<Function>) {
    forall i :: 0 <= i < |fs| ==> WellFormed(fs[i])
  }

  /** The number of flagged slots in all breakpoint data that point at `o`. */
  function Held(fs: seq<Function>, o: Obj): nat
    requires AllWellFormed(fs)
  {
    if fs == [] then 0 else FunctionHeld(fs[0], o) + Held(fs[1..], o)
  }

  /** Local and global call trace share the match specification slot. */
  predicate Exclusive(flags: Flags) {
    !(flags.localTrace && flags.globalTrace) && Measured(flags)
  }

  /** Only a counter or a time table that is there can be active. */
  predicate Measured(flags: Flags) {
    (flags.countActive ==> flags.count) && (flags.timeActive ==> flags.time)
  }

  /** The function's own instruction: its entry word, or what the breakpoint word stands for. */
  function Own(f: Function): Word {
    if f.word.Breakpoint? && f.bp.Some? then f.bp.value.orig else f.word
  }

  /** A breakpoint word always has live data behind it. */
  predicate WellFormed(f: Function) {
    && (f.word.Breakpoint? ==> f.bp.Some?)
    && (f.bp.Some? ==>
          && |f.bp.value.data| == 2
          && f.bp.value.orig.Instr?
          && (f.word.Breakpoint? || f.word == f.bp.value.orig)
          && Exclusive(f.bp.value.data[0].flags)
          && Exclusive(f.bp.value.data[1].flags))
  }

  lemma {:induction false} HeldUpdate(fs: seq<Function>, i: nat, g: Function, o: Obj)
    requires AllWellFormed(fs) && i < |fs| && WellFormed(g)
    ensures AllWellFormed(fs[i := g])
    ensures Held(fs[i := g], o) + FunctionHeld(fs[i], o) == Held(fs, o) + FunctionHeld(g, o)
  {
    hide WellFormed, FunctionHeld;
    if i == 0 {
      assert fs[0 := g][1..] == fs[1..];
    } else {
      HeldUpdate(fs[1..], i - 1, g, o);
      assert fs[i := g][1..] == fs[1..][i - 1 := g];
    }
  }

  lemma {:induction false} HeldByFunction(fs: seq<Function>, i: nat, o: Obj)
    requires AllWellFormed(fs) && i < |fs|
    ensures FunctionHeld(fs[i], o) <= Held(fs, o)
  {
    hide WellFormed, FunctionHeld;
    if i > 0 {
      HeldByFunction(fs[1..], i - 1, o);
    }
  }

  /** The counts moved exactly as the references of the half did, up to one reference to `leak`. */
  ghost predicate Balanced(h: Half, rc: multiset<Obj>, h': Half, rc': multiset<Obj>, leak: Option<Obj>) {
    forall o: Obj :: rc'[o] + HalfHeld(h, o) == rc[o] + HalfHeld(h', o) + MsHeld(true, leak, o)
  }

  /** Every slot of the half is counted. */
  ghost predicate Counted(h: Half, rc: multiset<Obj>) {
    forall o: Obj :: HalfHeld(h, o) <= rc[o]
  }

  /** erts_refc_dectest: an object whose count reaches zero is gone. */
  function Unref(rc: multiset<Obj>, x: Obj): (r: multiset<Obj>)
    requires x in rc
    ensures forall o: Obj :: r[o] + ObjHeld(true, x, o) == rc[o]
  {
    rc[x := rc[x] - 1]
  }

  function UnrefMs(rc: multiset<Obj>, ms: Option<Obj>): (r: multiset<Obj>)
    requires ms.Some? ==> ms.value in rc
    ensures forall o: Obj :: r[o] + MsHeld(true, ms, o) == rc[o]
  {
    if ms.Some? then rc[ms.value := rc[ms.value] - 1] else rc
  }

  /** erts_refc_inc and MatchSetRef: only a live object can be shared again. */
  function Ref(rc: multiset<Obj>, x: Obj): (r: multiset<Obj>)
    requires x in rc
    ensures forall o: Obj :: r[o] == rc[o] + ObjHeld(true, x, o)
  {
    rc[x := rc[x] + 1]
  }

  function RefMs(rc: multiset<Obj>, ms: Option<Obj>): (r: multiset<Obj>)
    requires ms.Some? ==> ms.value in rc
    ensures forall o: Obj :: r[o] == rc[o] + MsHeld(true, ms, o)
  {
    if ms.Some? then rc[ms.value := rc[ms.value] + 1] else rc
  }

  /** A new object starts with one reference. */
  function Alloc(rc: multiset<Obj>, x: Obj): (r: multiset<Obj>)
    requires x !in rc
    ensures forall o: Obj :: r[o] == rc[o] + ObjHeld(true, x, o)
  {
    rc[x := 1]
  }

  lemma NotHeld()
    ensures forall ms, o {:trigger MsHeld(false, ms, o)} :: MsHeld(false, ms, o) == 0
    ensures forall on, o {:trigger MsHeld(on, None, o)} :: MsHeld(on, None, o) == 0
    ensures forall x, o {:trigger ObjHeld(false, x, o)} :: ObjHeld(false, x, o) == 0
  {
  }

  lemma Elsewhere(ms: Option<Obj>, o: Obj)
    requires ms != Some(o)
    ensures MsHeld(true, ms, o) == 0
  {
  }

  /** Everything a counted half points at is live. */
  lemma Live(h: Half, rc: multiset<Obj>)
    requires Counted(h, rc)
    ensures Traced(h.flags) && h.localMs.Some? ==> h.localMs.value in rc
    ensures h.flags.metaTrace && h.metaMs.Some? ==>
              MsHeld(true, h.metaMs, h.metaMs.value) == 1 && HalfHeld(h, h.metaMs.value) <= rc[h.metaMs.value]
    ensures h.flags.metaTrace ==>
              ObjHeld(true, h.metaTracer, h.metaTracer) == 1 && HalfHeld(h, h.metaTracer) <= rc[h.metaTracer]
    ensures h.flags.count ==> ObjHeld(true, h.count, h.count) == 1 && HalfHeld(h, h.count) <= rc[h.count]
    ensures h.flags.time ==> ObjHeld(true, h.time, h.time) == 1 && HalfHeld(h, h.time) <= rc[h.time]
  {
    assert h.localMs.Some? ==> HalfHeld(h, h.localMs.value) <= rc[h.localMs.value];
  }

  // ---------- staging one function ----------

  /** The flag combinations the entry points of the file pass to set_break. */
  predicate SetFlags(f: Flags) {
    f == LOCAL_TRACE || f == GLOBAL_TRACE || f == META_TRACE || f == DEBUG || f == COUNT || f == TIME
  }

  /** An active bit is never cleared without the bit it belongs to, and the other way round. */
  predicate ClearFlags(f: Flags) {
    (f.count <==> f.countActive) && (f.time <==> f.timeActive)
  }

  /** Setting `f` on a half that shows `v`; `obj` is the object allocated if one is needed. */
  function SetSeen(v: Seen, f: Flags, ms: Option<Obj>, op: BreakOp, obj: Obj): Seen {
    if Traced(f) then v.(flags := Or(v.flags, f), local := Some(ms))
    else if f.metaTrace then v.(flags := Or(v.flags, f), meta := Some((ms, obj)))
    else if f.count && v.flags.count then
      v.(flags := v.flags.(countActive := op != Pause))
    else if f.count then v.(flags := Or(v.flags, f), count := Some(obj))
    else if f.time && v.flags.time then
      v.(flags := v.flags.(timeActive := op != Pause))
    else if f.time then v.(flags := Or(v.flags, f), time := Some(obj))
    else v.(flags := Or(v.flags, f))
  }

  /** Clearing `f` keeps exactly the slots whose flag survives. */
  function ClearSeen(v: Seen, f: Flags): Seen {
    var flags := AndNot(v.flags, f);
    Seen(flags,
         if Traced(flags) then v.local else None,
         if flags.metaTrace then v.meta else None,
         if flags.count then v.count else None,
         if flags.time then v.time else None)
  }

  /** Setting one kind of call trace over the other kind. */
  predicate Mixes(flags: Flags, f: Flags) {
    Traced(f) && Traced(flags) && And(f, flags) == NONE
  }

  /** The references a mixed setting loses: the overwritten match specification. */
  function Leak(h: Half, f: Flags): Option<Obj> {
    if Mixes(h.flags, f) then h.localMs else None
  }

  // The branches of set_function_break on one half.

  lemma CallTraceSeen(h: Half, f: Flags, ms: Option<Obj>, op: BreakOp, obj: Obj)
    requires f == LOCAL_TRACE || f == GLOBAL_TRACE
    ensures var h' := h.(localMs := ms, flags := Or(h.flags, f));
            && See(h') == SetSeen(See(h), f, ms, op, obj)
            && (!Mixes(h.flags, f) && Exclusive(h.flags) ==> Exclusive(h'.flags))
            && h'.flags != NONE
  {
  }

  /** What a call-trace setting changes in the slots that point at `o`. */
  lemma CallTraceSlots(h: Half, f: Flags, ms: Option<Obj>, o: Obj)
    requires f == LOCAL_TRACE || f == GLOBAL_TRACE
    ensures var old' := if Traced(h.flags) then MsHeld(true, h.localMs, o) else 0;
            && HalfHeld(h.(localMs := ms, flags := Or(h.flags, f)), o) + old' == HalfHeld(h, o) + MsHeld(true, ms, o)
            && old' <= HalfHeld(h, o)
  {
    hide MsHeld, ObjHeld;
    NotHeld();
  }

  method SetCallTrace(h: Half, rc: multiset<Obj>, f: Flags, ms: Option<Obj>, ghost op: BreakOp, ghost obj: Obj)
    returns (h': Half, rc': multiset<Obj>)
    requires f == LOCAL_TRACE || f == GLOBAL_TRACE
    requires Exclusive(h.flags) && Counted(h, rc)
    requires ms.Some? ==> rc[ms.value] > HalfHeld(h, ms.value)
    ensures Balanced(h, rc, h', rc', Leak(h, f))
    ensures See(h') == SetSeen(See(h), f, ms, op, obj)
    ensures !Mixes(h.flags, f) ==> Exclusive(h'.flags)
    ensures h'.flags != NONE
  {
    hide MsHeld, ObjHeld, HalfHeld, UnrefMs, RefMs, See, SetSeen;
    NotHeld();
    Live(h, rc);
    CallTraceSeen(h, f, ms, op, obj);
    forall o {
      CallTraceSlots(h, f, ms, o);
    }
    rc' := rc;
    if Traced(And(f, h.flags)) {
      rc' := UnrefMs(rc', h.localMs);
    }
    rc' := RefMs(rc', ms);
    h' := h.(localMs := ms, flags := Or(h.flags, f));
  }

  lemma MetaTraceSeen(h: Half, ms: Option<Obj>, op: BreakOp, obj: Obj)
    ensures var h' := h.(metaMs := ms, metaTracer := obj, flags := Or(h.flags, META_TRACE));
            && See(h') == SetSeen(See(h), META_TRACE, ms, op, obj)
            && (Exclusive(h.flags) ==> Exclusive(h'.flags))
            && h'.flags != NONE
  {
  }

  lemma MetaTraceSlots(h: Half, ms: Option<Obj>, obj: Obj, o: Obj)
    ensures var old' := if h.flags.metaTrace then MsHeld(true, h.metaMs, o) + ObjHeld(true, h.metaTracer, o) else 0;
            && HalfHeld(h.(metaMs := ms, metaTracer := obj, flags := Or(h.flags, META_TRACE)), o) + old'
               == HalfHeld(h, o) + MsHeld(true, ms, o) + ObjHeld(true, obj, o)
            && old' <= HalfHeld(h, o)
  {
    hide MsHeld, ObjHeld;
    NotHeld();
  }

  method SetMetaTrace(h: Half, rc: multiset<Obj>, f: Flags, ms: Option<Obj>, ghost op: BreakOp, obj: Obj)
    returns (h': Half, rc': multiset<Obj>)
    requires f == META_TRACE
    requires Exclusive(h.flags) && Counted(h, rc)
    requires ms.Some? ==> rc[ms.value] > HalfHeld(h, ms.value)
    requires obj !in rc
    ensures Balanced(h, rc, h', rc', None)
    ensures See(h') == SetSeen(See(h), f, ms, op, obj)
    ensures Exclusive(h'.flags) && h'.flags != NONE
  {
    hide MsHeld, ObjHeld, HalfHeld, UnrefMs, Unref, RefMs, Alloc, See, SetSeen, Exclusive;
    NotHeld();
    MetaTraceSeen(h, ms, op, obj);
    Live(h, rc);
    forall o {
      MetaTraceSlots(h, ms, obj, o);
    }
    rc' := rc;
    if h.flags.metaTrace {
      rc' := UnrefMs(rc', h.metaMs);
      rc' := Unref(rc', h.metaTracer);
    }
    assert MsHeld(true, ms, obj) == 0 by { Elsewhere(ms, obj); }
    rc' := RefMs(rc', ms);
    rc' := Alloc(rc', obj);
    h' := h.(metaMs := ms, metaTracer := obj, flags := Or(h.flags, f));
  }

  method SetCount(h: Half, rc: multiset<Obj>, f: Flags, ghost ms: Option<Obj>, op: BreakOp, obj: Obj)
    returns (h': Half, rc': multiset<Obj>)
    requires f == COUNT && Exclusive(h.flags)
    requires obj !in rc
    ensures Balanced(h, rc, h', rc', None)
    ensures See(h') == SetSeen(See(h), f, ms, op, obj)
    ensures Exclusive(h'.flags) && h'.flags != NONE
  {
    if h.flags.count {
      h' := h.(flags := h.flags.(countActive := op != Pause));
      rc' := rc;
    } else {
      rc' := Alloc(rc, obj);
      h' := h.(count := obj, flags := Or(h.flags, f));
    }
  }

  method SetTime(h: Half, rc: multiset<Obj>, f: Flags, ghost ms: Option<Obj>, op: BreakOp, obj: Obj)
    returns (h': Half, rc': multiset<Obj>)
    requires f == TIME && Exclusive(h.flags)
    requires obj !in rc
    ensures Balanced(h, rc, h', rc', None)
    ensures See(h') == SetSeen(See(h), f, ms, op, obj)
    ensures Exclusive(h'.flags) && h'.flags != NONE
  {
    if h.flags.time {
      h' := h.(flags := h.flags.(timeActive := op != Pause));
      rc' := rc;
    } else {
      rc' := Alloc(rc, obj);
      h' := h.(time := obj, flags := Or(h.flags, f));
    }
  }

  method SetDebug(h: Half, rc: multiset<Obj>, f: Flags, ghost ms: Option<Obj>, ghost op: BreakOp, ghost obj: Obj)
    returns (h': Half, rc': multiset<Obj>)
    requires f == DEBUG && Exclusive(h.flags)
    ensures Balanced(h, rc, h', rc', None)
    ensures See(h') == SetSeen(See(h), f, ms, op, obj)
    ensures Exclusive(h'.flags) && h'.flags != NONE
  {
    hide MsHeld, ObjHeld;
    NotHeld();
    h', rc' := h.(flags := Or(h.flags, f)), rc;
  }

  method SetHalf(h: Half, rc: multiset<Obj>, f: Flags, ms: Option<Obj>, op: BreakOp, obj: Obj)
    returns (h': Half, rc': multiset<Obj>)
    requires SetFlags(f)
    requires Exclusive(h.flags) && Counted(h, rc)
    requires ms.Some? ==> rc[ms.value] > HalfHeld(h, ms.value)
    requires obj !in rc
    ensures Balanced(h, rc, h', rc', Leak(h, f))
    ensures See(h') == SetSeen(See(h), f, ms, op, obj)
    ensures !Mixes(h.flags, f) ==> Exclusive(h'.flags)
    ensures h'.flags != NONE
  {
    hide HalfHeld, Balanced, Counted, See, SetSeen, Exclusive;
    if Traced(f) {
      h', rc' := SetCallTrace(h, rc, f, ms, op, obj);
    } else if f.metaTrace {
      h', rc' := SetMetaTrace(h, rc, f, ms, op, obj);
    } else if f.count {
      h', rc' := SetCount(h, rc, f, ms, op, obj);
    } else if f.time {
      h', rc' := SetTime(h, rc, f, ms, op, obj);
    } else {
      h', rc' := SetDebug(h, rc, f, ms, op, obj);
    }
  }

  /** A setting keeps every count exact unless it mixes the two kinds of call trace over a match specification. */
  lemma ExactUnlessMixed(h: Half, rc: multiset<Obj>, f: Flags, h': Half, rc': multiset<Obj>)
    requires Balanced(h, rc, h', rc', Leak(h, f))
    ensures Balanced(h, rc, h', rc', None) <==> !(Mixes(h.flags, f) && h.localMs.Some?)
  {
    hide HalfHeld;
    if Leak(h, f).Some? {
      var o := Leak(h, f).value;
      assert rc'[o] + HalfHeld(h, o) == rc[o] + HalfHeld(h', o) + 1;
    }
  }

  /** The slots that point at `o`, from what the half shows. */
  function SeenHeld(v: Seen, o: Obj): nat {
    (if v.local == Some(Some(o)) then 1 else 0)
    + (if v.meta.Some? && v.meta.value.0 == Some(o) then 1 else 0)
    + (if v.meta.Some? && v.meta.value.1 == o then 1 else 0)
    + (if v.count == Some(o) then 1 else 0)
    + (if v.time == Some(o) then 1 else 0)
  }

  lemma SlotsSeen(h: Half, o: Obj)
    ensures HalfHeld(h, o) == SeenHeld(See(h), o)
  {
  }

  const GLOBALLY_TRACED := EMPTY_HALF.(flags := GLOBAL_TRACE, localMs := Some(1))

  lemma OneSlot(h: Half, o: Obj)
    requires h.flags == GLOBAL_TRACE && h.localMs == Some(1)
    ensures HalfHeld(h, o) == if o == 1 then 1 else 0
  {
  }

  lemma MixedBefore(h: Half)
    requires h.flags == GLOBAL_TRACE && h.localMs == Some(1)
    ensures Counted(h, multiset{1, 2}) && Leak(h, LOCAL_TRACE) == Some(1)
    ensures HalfHeld(h, 1) == 1 && HalfHeld(h, 2) == 0
  {
    hide HalfHeld;
    forall o {
      OneSlot(h, o);
    }
    assert multiset{1, 2}[1] == 1;
  }

  lemma MixedAfter(h: Half, op: BreakOp)
    requires See(h) == SetSeen(See(GLOBALLY_TRACED), LOCAL_TRACE, Some(2), op, 3)
    ensures HalfHeld(h, 1) == 0
  {
    assert See(h).flags == Or(GLOBAL_TRACE, LOCAL_TRACE) && See(h).local == Some(Some(2));
  }

  /** A run that mixes them: the old match specification stays counted although no slot holds it. */
  method MixedTraceLosesReference(op: BreakOp) returns (h': Half, rc': multiset<Obj>)
    ensures rc'[1] == 1 && HalfHeld(h', 1) == 0
  {
    hide Balanced, Counted, HalfHeld, See, SetSeen, Leak;
    MixedBefore(GLOBALLY_TRACED);
    h', rc' := SetHalf(GLOBALLY_TRACED, multiset{1, 2}, LOCAL_TRACE, Some(2), op, 3);
    MixedAfter(h', op);
    BalancedAt(GLOBALLY_TRACED, multiset{1, 2}, h', rc', Some(1), 1);
  }

  lemma BalancedAt(h: Half, rc: multiset<Obj>, h': Half, rc': multiset<Obj>, leak: Option<Obj>, o: Obj)
    requires Balanced(h, rc, h', rc', leak)
    ensures rc'[o] + HalfHeld(h, o) == rc[o] + HalfHeld(h', o) + MsHeld(true, leak, o)
  {
  }

  /** Drops the reference behind every flagged slot. */
  method UnrefSlots(h: Half, rc: multiset<Obj>) returns (rc': multiset<Obj>)
    requires Counted(h, rc)
    ensures forall o: Obj :: rc'[o] + HalfHeld(h, o) == rc[o]
  {
    hide MsHeld, ObjHeld, UnrefMs, Unref;
    NotHeld();
    Live(h, rc);
    rc' := rc;
    if Traced(h.flags) {
      rc' := UnrefMs(rc', h.localMs);
    }
    if h.flags.metaTrace {
      rc' := UnrefMs(rc', h.metaMs);
      rc' := Unref(rc', h.metaTracer);
    }
    if h.flags.count {
      rc' := Unref(rc', h.count);
    }
    if h.flags.time {
      rc' := Unref(rc', h.time);
    }
  }

  /** A setting points at nothing but the old objects, the given specification and the new object. */
  lemma NewSlots(h: Half, h': Half, f: Flags, ms: Option<Obj>, op: BreakOp, obj: Obj, o: Obj)
    requires See(h') == SetSeen(See(h), f, ms, op, obj)
    requires HalfHeld(h, o) == 0 && ms != Some(o) && obj != o
    ensures HalfHeld(h', o) == 0
  {
    SlotsSeen(h, o);
    SlotsSeen(h', o);
    hide See, HalfHeld;
  }

  /** clear_function_break on the staged half. */
  method ClearHalf(h: Half, rc: multiset<Obj>, f: Flags) returns (h': Half, rc': multiset<Obj>)
    requires ClearFlags(f)
    requires Exclusive(h.flags) && Counted(h, rc)
    ensures Balanced(h, rc, h', rc', None)
    ensures See(h') == ClearSeen(See(h), f)
    ensures Exclusive(h'.flags)
    ensures forall o: Obj :: rc'[o] <= rc[o]
  {
    h' := h.(flags := AndNot(h.flags, f));
    forall o {
      ClearedSlots(h, f, o);
    }
    rc' := UnrefSlots(h.(flags := And(h.flags, f)), rc);
  }

  lemma ClearedSlots(h: Half, f: Flags, o: Obj)
    requires Exclusive(h.flags)
    ensures HalfHeld(h.(flags := AndNot(h.flags, f)), o) + HalfHeld(h.(flags := And(h.flags, f)), o) == HalfHeld(h, o)
  {
    hide MsHeld, ObjHeld;
    NotHeld();
  }

  /** Takes one more reference for every flagged slot of the active half. */
  method CopySlots(src: Half, dst: Half, rc: multiset<Obj>) returns (dst': Half, rc': multiset<Obj>)
    requires dst.flags == src.flags
    requires Counted(src, rc)
    ensures See(dst') == See(src)
    ensures forall o: Obj :: rc'[o] == rc[o] + HalfHeld(dst', o)
  {
    hide MsHeld, ObjHeld, RefMs, Ref;
    NotHeld();
    Live(src, rc);
    dst', rc' := dst, rc;
    if Traced(src.flags) {
      dst' := dst'.(localMs := src.localMs);
      rc' := RefMs(rc', dst'.localMs);
    }
    if src.flags.metaTrace {
      dst' := dst'.(metaTracer := src.metaTracer);
      rc' := Ref(rc', dst'.metaTracer);
      dst' := dst'.(metaMs := src.metaMs);
      rc' := RefMs(rc', dst'.metaMs);
    }
    if src.flags.count {
      dst' := dst'.(count := src.count);
      rc' := Ref(rc', dst'.count);
    }
    if src.flags.time {
      dst' := dst'.(time := src.time);
      rc' := Ref(rc', dst'.time);
    }
  }

  // ---------- the steps of a cycle on one function ----------

  /** Between cycles: a breakpoint structure goes with a breakpoint word, and its halves agree. */
  predicate Settled(f: Function) {
    && WellFormed(f)
    && (f.bp.Some? <==> f.word.Breakpoint?)
    && (f.bp.Some? ==> See(f.bp.value.data[0]) == See(f.bp.value.data[1]) && f.bp.value.data[0].flags != NONE)
  }

  /** After set_break: new structures are staged but not yet reachable from the code. */
  predicate SetStaged(f: Function, active: nat)
    requires active < 2
  {
    && WellFormed(f)
    && (f.bp.Some? ==>
          && f.bp.value.data[1 - active].flags != NONE
          && (f.word.Breakpoint? <==> f.bp.value.data[active].flags != NONE))
  }

  /** Every structure is reachable from the code. */
  predicate Installed(f: Function) {
    WellFormed(f) && (f.bp.Some? <==> f.word.Breakpoint?)
  }

  predicate SetInstalled(f: Function, active: nat)
    requires active < 2
  {
    Installed(f) && (f.bp.Some? ==> f.bp.value.data[1 - active].flags != NONE)
  }

  /** The breakpoint word is there exactly if the active half does something. */
  predicate Cleaned(f: Function, active: nat)
    requires active < 2
  {
    && WellFormed(f)
    && (f.bp.Some? ==> (f.word.Breakpoint? <==> f.bp.value.data[active].flags != NONE))
  }

  ghost predicate FunctionCounted(f: Function, rc: multiset<Obj>)
    requires WellFormed(f)
  {
    forall o: Obj :: FunctionHeld(f, o) <= rc[o]
  }

  /** The counts moved exactly as the references of the function did. */
  ghost predicate Moved(f: Function, rc: multiset<Obj>, g: Function, rc': multiset<Obj>)
    requires WellFormed(f) && WellFormed(g)
  {
    forall o: Obj :: rc'[o] + FunctionHeld(f, o) == rc[o] + FunctionHeld(g, o)
  }

  /** What a whole set cycle makes visible: restart and pause never create a breakpoint. */
  function SetVisible(v: Seen, f: Flags, ms: Option<Obj>, op: BreakOp, obj: Obj): Seen {
    if v.flags == NONE && !Creates(op) then v else SetSeen(v, f, ms, op, obj)
  }

  lemma EmptyHalf()
    ensures See(EMPTY_HALF) == NOTHING
    ensures forall o: Obj :: HalfHeld(EMPTY_HALF, o) == 0
  {
  }

  /** The structure of a function, allocated with two empty halves if there is none. */
  function BpOf(f: Function): GenericBp {
    if f.bp.Some? then f.bp.value else GenericBp(f.word, [EMPTY_HALF, EMPTY_HALF])
  }

  function StoreHalf(f: Function, active: nat, h: Half): Function
    requires active < 2 && WellFormed(f)
  {
    f.(bp := Some(BpOf(f).(data := BpOf(f).data[1 - active := h])))
  }

  lemma HalfCounted(f: Function, active: nat, rc: multiset<Obj>)
    requires active < 2 && WellFormed(f) && FunctionCounted(f, rc)
    ensures Counted(BpOf(f).data[1 - active], rc)
    ensures Exclusive(BpOf(f).data[1 - active].flags)
    ensures forall o: Obj :: HalfHeld(BpOf(f).data[1 - active], o) <= FunctionHeld(f, o)
  {
    EmptyHalf();
    forall o: Obj
      ensures HalfHeld(BpOf(f).data[1 - active], o) <= FunctionHeld(f, o) <= rc[o]
    {
      hide HalfHeld;
    }
  }

  /** Replacing the staged half moves the references of the function and shows no process anything. */
  lemma HalfStored(f: Function, active: nat, h: Half, rc: multiset<Obj>, rc': multiset<Obj>)
    requires active < 2 && WellFormed(f) && Exclusive(h.flags)
    requires Balanced(BpOf(f).data[1 - active], rc, h, rc', None)
    ensures var g := StoreHalf(f, active, h);
            && WellFormed(g) && Moved(f, rc, g, rc')
            && Visible(g, active) == Visible(f, active)
            && Staged(g, active) == See(h) && Own(g) == Own(f)
  {
    hide HalfHeld, See;
    EmptyHalf();
    NotHeld();
  }

  /** Between cycles what is staged is what is visible. */
  lemma SettledAgree(f: Function, active: nat)
    requires active < 2 && Settled(f)
    ensures Visible(f, active) == Staged(f, active)
  {
  }

  lemma StagedIs(f: Function, active: nat)
    requires active < 2 && WellFormed(f)
    ensures Staged(f, active) == See(BpOf(f).data[1 - active])
    ensures SetStaged(f, active) ==> (Staged(f, active).flags == NONE <==> f.bp.None?)
  {
    EmptyHalf();
  }

  lemma OnlyFresh(f: Function, rc: multiset<Obj>, g: Function, rc': multiset<Obj>, active: nat,
                  h: Half, flags: Flags, ms: Option<Obj>, op: BreakOp, obj: Obj)
    requires active < 2 && WellFormed(f) && Exclusive(h.flags) && g == StoreHalf(f, active, h)
    requires See(h) == SetSeen(See(BpOf(f).data[1 - active]), flags, ms, op, obj)
    requires WellFormed(g) && Moved(f, rc, g, rc') && FunctionCounted(f, rc)
    requires ms.Some? ==> ms.value in rc
    ensures forall o: Obj :: o in rc' ==> o in rc || o == obj
  {
    HalfCounted(f, active, rc);
    forall o: Obj | o !in rc && o != obj
      ensures o !in rc'
    {
      assert FunctionHeld(f, o) <= rc[o];
      assert HalfHeld(BpOf(f).data[1 - active], o) == 0;
      NewSlots(BpOf(f).data[1 - active], h, flags, ms, op, obj, o);
      hide HalfHeld;
      EmptyHalf();
      assert FunctionHeld(g, o) == 0;
    }
  }

  method SetFunctionBreak(f: Function, rc: multiset<Obj>, active: nat, flags: Flags, ms: Option<Obj>,
                          op: BreakOp, obj: Obj)
    returns (g: Function, rc': multiset<Obj>)
    requires active < 2 && SetFlags(flags) && SetStaged(f, active)
    requires !Mixes(Staged(f, active).flags, flags)
    requires FunctionCounted(f, rc)
    requires ms.Some? ==> rc[ms.value] > FunctionHeld(f, ms.value)
    requires obj !in rc
    ensures SetStaged(g, active) && g.mod == f.mod && g.word == f.word && Own(g) == Own(f)
    ensures Visible(g, active) == Visible(f, active)
    ensures Staged(g, active) == SetVisible(Staged(f, active), flags, ms, op, obj)
    ensures Moved(f, rc, g, rc')
    ensures forall o: Obj :: o in rc' ==> o in rc || o == obj
  {
    hide HalfHeld, FunctionHeld, SetSeen, Mixes, FunctionCounted, Counted, Balanced, SetFlags, Exclusive;
    StagedIs(f, active);
    if f.bp.None? && !Creates(op) {
      return f, rc;
    }
    HalfCounted(f, active, rc);
    var h, rc1 := SetHalf(BpOf(f).data[1 - active], rc, flags, ms, op, obj);
    rc' := rc1;
    g := StoreHalf(f, active, h);
    HalfStored(f, active, h, rc, rc');
    OnlyFresh(f, rc, g, rc', active, h, flags, ms, op, obj);
  }

  method ClearFunctionBreak(f: Function, rc: multiset<Obj>, active: nat, flags: Flags)
    returns (g: Function, rc': multiset<Obj>)
    requires active < 2 && ClearFlags(flags) && Installed(f)
    requires FunctionCounted(f, rc)
    ensures Installed(g) && g.mod == f.mod && g.word == f.word && Own(g) == Own(f)
    ensures Visible(g, active) == Visible(f, active)
    ensures Staged(g, active) == ClearSeen(Staged(f, active), flags)
    ensures Moved(f, rc, g, rc')
    ensures forall o: Obj :: o in rc' ==> o in rc
  {
    hide HalfHeld, FunctionHeld, FunctionCounted, Counted, Balanced, Exclusive;
    StagedIs(f, active);
    if f.bp.None? {
      return f, rc;
    }
    HalfCounted(f, active, rc);
    var h, rc1 := ClearHalf(f.bp.value.data[1 - active], rc, flags);
    rc' := rc1;
    g := StoreHalf(f, active, h);
    HalfStored(f, active, h, rc, rc');
  }

  /** erts_install_breakpoints on one function. */
  method InstallWord(f: Function, ghost active: nat) returns (g: Function, installed: bool)
    requires active < 2 && SetStaged(f, active)
    ensures SetInstalled(g, active) && g.mod == f.mod && g.bp == f.bp && Own(g) == Own(f)
    ensures Visible(g, active) == Visible(f, active)
    ensures Staged(g, active) == Staged(f, active)
    ensures installed <==> f.bp.Some? && !f.word.Breakpoint?
  {
    installed := !f.word.Breakpoint? && f.bp.Some?;
    g := if installed then f.(word := Breakpoint) else f;
  }

  /** uninstall_breakpoint. */
  method UninstallWord(f: Function, active: nat) returns (g: Function)
    requires active < 2 && (Installed(f) || Cleaned(f, active))
    ensures Cleaned(g, active) && g.mod == f.mod && g.bp == f.bp && Own(g) == Own(f)
    ensures Visible(g, active) == Visible(f, active)
  {
    g := f;
    if f.word.Breakpoint? && f.bp.value.data[active].flags == NONE {
      g := f.(word := f.bp.value.orig);
    }
  }

  lemma Unflagged(h: Half, o: Obj)
    requires h.flags == NONE
    ensures HalfHeld(h, o) == 0
    ensures See(h) == NOTHING
  {
  }

  lemma SeeHeld(h: Half, h': Half, o: Obj)
    requires See(h) == See(h')
    ensures HalfHeld(h, o) == HalfHeld(h', o)
  {
  }

  /** consolidate_bp_data for a local breakpoint. */
  method ConsolidateFunction(f: Function, rc: multiset<Obj>, active: nat)
    returns (g: Function, rc': multiset<Obj>, freed: bool)
    requires active < 2 && Cleaned(f, active)
    requires FunctionCounted(f, rc)
    ensures Settled(g) && g.mod == f.mod && g.word == f.word && Own(g) == Own(f)
    ensures Visible(g, active) == Visible(f, active)
    ensures Moved(f, rc, g, rc')
    ensures freed <==> f.bp.Some? && g.bp.None?
    ensures g.bp.Some? ==> f.bp.Some?
    ensures forall o: Obj :: o in rc' ==> o in rc
  {
    if f.bp.None? {
      return f, rc, false;
    }
    hide HalfHeld, FunctionHeld, Exclusive, See;
    var src, dst := f.bp.value.data[active], f.bp.value.data[1 - active];
    HalfCounted(f, active, rc);
    ActiveCounted(f, active, rc);
    var rc1 := UnrefSlots(dst, rc);
    if src.flags == NONE {
      rc', freed := rc1, true;
      g := f.(bp := None);
      Dropped(f, active, rc, rc1);
    } else {
      var dst', rc2 := CopySlots(src, dst.(flags := src.flags), rc1);
      rc', freed := rc2, false;
      g := StoreHalf(f, active, dst');
      SharedFlags(src, dst');
      NotHeld();
      HalfStored(f, active, dst', rc, rc2);
      forall o {
        SeeHeld(src, dst', o);
      }
    }
  }

  /** The active half stays counted when the other one is released. */
  lemma ActiveCounted(f: Function, active: nat, rc: multiset<Obj>)
    requires active < 2 && WellFormed(f) && f.bp.Some? && FunctionCounted(f, rc)
    ensures forall o: Obj :: HalfHeld(f.bp.value.data[0], o) + HalfHeld(f.bp.value.data[1], o) <= rc[o]
  {
    hide HalfHeld;
    forall o: Obj
      ensures HalfHeld(f.bp.value.data[0], o) + HalfHeld(f.bp.value.data[1], o) <= rc[o]
    {
      assert FunctionHeld(f, o) <= rc[o];
    }
  }

  lemma SharedFlags(h: Half, h': Half)
    requires See(h) == See(h')
    ensures h.flags == h'.flags
  {
  }

  /** With an empty active half, releasing the staged one releases everything. */
  lemma Dropped(f: Function, active: nat, rc: multiset<Obj>, rc': multiset<Obj>)
    requires active < 2 && Cleaned(f, active) && f.bp.Some? && f.bp.value.data[active].flags == NONE
    requires forall o: Obj :: rc'[o] + HalfHeld(f.bp.value.data[1 - active], o) == rc[o]
    ensures Moved(f, rc, f.(bp := None), rc') && Settled(f.(bp := None))
    ensures Visible(f.(bp := None), active) == Visible(f, active)
  {
    forall o {
      Unflagged(f.bp.value.data[active], o);
    }
    hide HalfHeld;
  }

  // ---------- a cycle on all matched functions ----------

  /** How far the current cycle is. */
  datatype Phase = Idle | Setting | Clearing | Ready | Committed | Done

  predicate InPhase(f: Function, active: nat, phase: Phase)
    requires active < 2
  {
    match phase
    case Idle => Settled(f)
    case Setting => SetStaged(f, active)
    case Clearing => Installed(f)
    case Ready => SetInstalled(f, active)
    case Committed => Installed(f)
    case Done => Cleaned(f, active)
  }

  /** Matched functions are in the phase of the cycle; all others are settled throughout. */
  predicate AllInPhase(fs: seq<Function>, active: nat, phase: Phase, matched: seq<nat>)
    requires active < 2
  {
    forall i :: 0 <= i < |fs| ==> InPhase(fs[i], active, if i in matched then phase else Idle)
  }

  predicate Matching(fs: seq<Function>, matched: seq<nat>) {
    && (forall k :: 0 <= k < |matched| ==> matched[k] < |fs|)
    && (forall j, k :: 0 <= j < k < |matched| ==> matched[j] != matched[k])
  }

  /** Every count is the references held elsewhere plus the flagged slots. */
  ghost predicate Conserved(fs: seq<Function>, rc: multiset<Obj>, ext: multiset<Obj>)
    requires AllWellFormed(fs)
  {
    forall o: Obj :: rc[o] == ext[o] + Held(fs, o)
  }

  /** All counted objects are below the next address the allocator hands out. */
  predicate Below(rc: multiset<Obj>, next: Obj) {
    forall o: Obj :: o in rc ==> o < next
  }

  lemma ConservedStep(fs: seq<Function>, rc: multiset<Obj>, ext: multiset<Obj>, i: nat, g: Function, rc': multiset<Obj>)
    requires AllWellFormed(fs) && i < |fs| && WellFormed(g)
    requires Conserved(fs, rc, ext) && Moved(fs[i], rc, g, rc')
    ensures AllWellFormed(fs[i := g]) && Conserved(fs[i := g], rc', ext)
  {
    hide WellFormed, FunctionHeld, Held;
    forall o: Obj
      ensures rc'[o] == ext[o] + Held(fs[i := g], o)
    {
      HeldUpdate(fs, i, g, o);
    }
  }

  lemma ConservedCounts(fs: seq<Function>, rc: multiset<Obj>, ext: multiset<Obj>, i: nat)
    requires AllWellFormed(fs) && i < |fs|
    requires Conserved(fs, rc, ext)
    ensures FunctionCounted(fs[i], rc)
    ensures forall o: Obj :: o in ext ==> rc[o] > FunctionHeld(fs[i], o)
  {
    hide WellFormed, FunctionHeld, Held;
    forall o: Obj
      ensures FunctionHeld(fs[i], o) + ext[o] <= rc[o]
    {
      HeldByFunction(fs, i, o);
    }
  }

  /** Still the same function, with its own instruction. */
  predicate Same(f: Function, g: Function) {
    g.mod == f.mod && Own(g) == Own(f)
  }

  /** The first `k` matched functions have been taken from `pre` to `post`; the rest are untouched. */
  ghost predicate Progress(fs: seq<Function>, cur: seq<Function>, active: nat, pre: Phase, post: Phase,
                           matched: seq<nat>, k: nat)
    requires active < 2 && k <= |matched|
  {
    && |cur| == |fs|
    && Matching(fs, matched)
    && (forall i :: 0 <= i < |fs| && i !in matched ==> cur[i] == fs[i])
    && (forall j :: k <= j < |matched| ==> cur[matched[j]] == fs[matched[j]])
    && AllInPhase(fs, active, pre, matched)
    && (forall j :: 0 <= j < k ==> InPhase(cur[matched[j]], active, post) && Same(fs[matched[j]], cur[matched[j]]))
  }

  lemma PhaseWellFormed(f: Function, active: nat, phase: Phase)
    requires active < 2 && InPhase(f, active, phase)
    ensures WellFormed(f)
  {
  }

  lemma ProgressWellFormed(fs: seq<Function>, cur: seq<Function>, active: nat, pre: Phase, post: Phase,
                           matched: seq<nat>, k: nat)
    requires active < 2 && k <= |matched|
    requires Progress(fs, cur, active, pre, post, matched, k)
    ensures AllWellFormed(fs) && AllWellFormed(cur)
    ensures k < |matched| ==> InPhase(cur[matched[k]], active, pre)
  {
    hide InPhase, WellFormed;
    forall i | 0 <= i < |fs|
      ensures WellFormed(fs[i]) && WellFormed(cur[i])
    {
      PhaseWellFormed(fs[i], active, if i in matched then pre else Idle);
      if i in matched {
        var j :| 0 <= j < |matched| && matched[j] == i;
        if j < k {
          PhaseWellFormed(cur[matched[j]], active, post);
        }
      }
    }
  }

  lemma ProgressStep(fs: seq<Function>, cur: seq<Function>, active: nat, pre: Phase, post: Phase,
                     matched: seq<nat>, k: nat, g: Function)
    requires active < 2 && k < |matched|
    requires Progress(fs, cur, active, pre, post, matched, k)
    requires InPhase(g, active, post) && Same(cur[matched[k]], g)
    ensures Progress(fs, cur[matched[k] := g], active, pre, post, matched, k + 1)
  {
    hide InPhase;
  }

  lemma ProgressEnd(fs: seq<Function>, cur: seq<Function>, active: nat, pre: Phase, post: Phase, matched: seq<nat>)
    requires active < 2
    requires Progress(fs, cur, active, pre, post, matched, |matched|)
    ensures AllInPhase(cur, active, post, matched)
  {
    hide InPhase;
    forall i | 0 <= i < |cur|
      ensures InPhase(cur[i], active, if i in matched then post else Idle)
    {
      if i in matched {
        var j :| 0 <= j < |matched| && matched[j] == i;
        assert InPhase(cur[matched[j]], active, post);
      }
    }
  }

  /** The functions and counts as other schedulers can find them between two functions of a loop. */
  datatype Snapshot = Snapshot(fs: seq<Function>, rc: multiset<Obj>)

  /** Every breakpoint word has data, and every count covers the slots that point at the object. */
  ghost predicate Safe(x: Snapshot, ext: multiset<Obj>) {
    AllWellFormed(x.fs) && Conserved(x.fs, x.rc, ext)
  }

  /** A loop over the matched functions goes from `a` to `b` one function at a time, through safe states. */
  ghost predicate Passes(seen: seq<Snapshot>, a: Snapshot, b: Snapshot, matched: seq<nat>, ext: multiset<Obj>) {
    && |seen| == |matched| + 1 && seen[0] == a && seen[|matched|] == b
    && (forall k :: 0 <= k < |seen| ==> Safe(seen[k], ext))
    && (forall k :: 0 <= k < |matched| ==> OnlyAt(seen[k].fs, seen[k + 1].fs, matched[k]))
  }

  /** Only one function changes, and it keeps its own instruction. */
  predicate OnlyAt(fs: seq<Function>, gs: seq<Function>, i: nat) {
    |gs| == |fs| && forall j :: 0 <= j < |fs| ==> if j == i then Same(fs[j], gs[j]) else gs[j] == fs[j]
  }

  lemma PassStart(a: Snapshot, ext: multiset<Obj>)
    requires Safe(a, ext)
    ensures Passes([a], a, a, [], ext)
  {
  }

  lemma PassStep(seen: seq<Snapshot>, a: Snapshot, b: Snapshot, matched: seq<nat>, k: nat, ext: multiset<Obj>,
                 g: Function, rc: multiset<Obj>)
    requires k < |matched| && Passes(seen, a, b, matched[..k], ext) && matched[k] < |b.fs|
    requires Same(b.fs[matched[k]], g)
    requires Safe(Snapshot(b.fs[matched[k] := g], rc), ext)
    ensures var c := Snapshot(b.fs[matched[k] := g], rc);
            Passes(seen + [c], a, c, matched[..k + 1], ext)
  {
    hide Safe;
    var c := Snapshot(b.fs[matched[k] := g], rc);
    var t, m := seen + [c], matched[..k + 1];
    forall j | 0 <= j < |m|
      ensures OnlyAt(t[j].fs, t[j + 1].fs, m[j])
    {
      if j < k {
        assert m[j] == matched[..k][j];
      }
    }
  }

  lemma SameBpMoved(f: Function, g: Function, rc: multiset<Obj>)
    requires WellFormed(f) && WellFormed(g) && f.bp == g.bp
    ensures Moved(f, rc, g, rc)
  {
  }

  /** What every function shows to running processes. */
  function AllVisible(fs: seq<Function>, active: nat): seq<Seen>
    requires active < 2 && AllWellFormed(fs)
  {
    seq(|fs|, i requires 0 <= i < |fs| => Visible(fs[i], active))
  }

  /** What the next commit would show. */
  function AllStaged(fs: seq<Function>, active: nat): seq<Seen>
    requires active < 2 && AllWellFormed(fs)
  {
    seq(|fs|, i requires 0 <= i < |fs| => Staged(fs[i], active))
  }

  lemma SetReady(f: Function, active: nat, pre: Phase)
    requires active < 2 && InPhase(f, active, pre) && (pre == Idle || pre == Setting)
    ensures SetStaged(f, active)
  {
  }

  lemma ClearReady(f: Function, active: nat, pre: Phase)
    requires active < 2 && InPhase(f, active, pre) && (pre == Idle || pre == Clearing)
    ensures Installed(f)
  {
  }

  /** set_break; a cycle may call it several times for the same functions. */
  method SetAll(fs: seq<Function>, rc: multiset<Obj>, active: nat, next: Obj, matched: seq<nat>,
                flags: Flags, ms: Option<Obj>, op: BreakOp, ghost ext: multiset<Obj>,
                ghost pre: Phase)
    returns (cur: seq<Function>, rc': multiset<Obj>, next': Obj, ghost seen: seq<Snapshot>)
    requires active < 2 && SetFlags(flags) && Matching(fs, matched)
    requires AllInPhase(fs, active, pre, matched) && (pre == Idle || pre == Setting)
    requires AllWellFormed(fs) && Conserved(fs, rc, ext) && Below(rc, next)
    requires ms.Some? ==> ms.value in ext
    requires forall k :: 0 <= k < |matched| ==> !Mixes(Staged(fs[matched[k]], active).flags, flags)
    ensures Progress(fs, cur, active, pre, Setting, matched, |matched|)
    ensures AllWellFormed(cur) && Conserved(cur, rc', ext) && Below(rc', next') && next' == next + |matched|
    ensures Passes(seen, Snapshot(fs, rc), Snapshot(cur, rc'), matched, ext)
    ensures forall k :: 0 <= k < |matched| ==>
              && cur[matched[k]].word == fs[matched[k]].word
              && Visible(cur[matched[k]], active) == Visible(fs[matched[k]], active)
              && Staged(cur[matched[k]], active)
                 == SetVisible(Staged(fs[matched[k]], active), flags, ms, op, next + k)
  {
    hide Passes, WellFormed, Settled, SetStaged, Visible, Staged, Mixes, SetVisible, Moved, FunctionCounted, Conserved, InPhase;
    cur, rc', next', seen := fs, rc, next, [Snapshot(fs, rc)];
    PassStart(Snapshot(fs, rc), ext);
    assert matched[..0] == [];
    for k := 0 to |matched|
      invariant Progress(fs, cur, active, pre, Setting, matched, k)
      invariant next' == next + k && Below(rc', next')
      invariant AllWellFormed(cur) && Conserved(cur, rc', ext)
      invariant Passes(seen, Snapshot(fs, rc), Snapshot(cur, rc'), matched[..k], ext)
      invariant forall j :: 0 <= j < k ==>
                  && cur[matched[j]].word == fs[matched[j]].word
                  && Visible(cur[matched[j]], active) == Visible(fs[matched[j]], active)
                  && Staged(cur[matched[j]], active)
                     == SetVisible(Staged(fs[matched[j]], active), flags, ms, op, next + j)
    {
      var i := matched[k];
      ProgressWellFormed(fs, cur, active, pre, Setting, matched, k);
      ConservedCounts(cur, rc', ext, i);
      SetReady(cur[i], active, pre);
      var g, rc1 := SetFunctionBreak(cur[i], rc', active, flags, ms, op, next');
      assert InPhase(g, active, Setting) by { PhaseMeans(g, active); }
      PhaseWellFormed(g, active, Setting);
      ConservedStep(cur, rc', ext, i, g, rc1);
      ProgressStep(fs, cur, active, pre, Setting, matched, k, g);
      PassStep(seen, Snapshot(fs, rc), Snapshot(cur, rc'), matched, k, ext, g, rc1);
      cur, rc', next' := cur[i := g], rc1, next' + 1;
      seen := seen + [Snapshot(cur, rc')];
    }
    assert matched[..|matched|] == matched;
  }

  lemma PhaseMeans(f: Function, active: nat)
    requires active < 2
    ensures InPhase(f, active, Idle) <==> Settled(f)
    ensures InPhase(f, active, Setting) <==> SetStaged(f, active)
    ensures InPhase(f, active, Clearing) <==> Installed(f)
    ensures InPhase(f, active, Ready) <==> SetInstalled(f, active)
    ensures InPhase(f, active, Committed) <==> Installed(f)
    ensures InPhase(f, active, Done) <==> Cleaned(f, active)
  {
  }

  /** clear_break. */
  method ClearAll(fs: seq<Function>, rc: multiset<Obj>, active: nat, ghost next: Obj, matched: seq<nat>,
                  flags: Flags, ghost ext: multiset<Obj>, ghost pre: Phase)
    returns (cur: seq<Function>, rc': multiset<Obj>, ghost seen: seq<Snapshot>)
    requires active < 2 && ClearFlags(flags) && Matching(fs, matched)
    requires AllInPhase(fs, active, pre, matched) && (pre == Idle || pre == Clearing)
    requires AllWellFormed(fs) && Conserved(fs, rc, ext) && Below(rc, next)
    ensures Progress(fs, cur, active, pre, Clearing, matched, |matched|)
    ensures AllWellFormed(cur) && Conserved(cur, rc', ext) && Below(rc', next)
    ensures Passes(seen, Snapshot(fs, rc), Snapshot(cur, rc'), matched, ext)
    ensures forall k :: 0 <= k < |matched| ==>
              && cur[matched[k]].word == fs[matched[k]].word
              && Visible(cur[matched[k]], active) == Visible(fs[matched[k]], active)
              && Staged(cur[matched[k]], active) == ClearSeen(Staged(fs[matched[k]], active), flags)
  {
    hide Passes, WellFormed, Settled, Installed, Visible, Staged, ClearSeen, Moved, FunctionCounted, Conserved, InPhase;
    cur, rc', seen := fs, rc, [Snapshot(fs, rc)];
    PassStart(Snapshot(fs, rc), ext);
    assert matched[..0] == [];
    for k := 0 to |matched|
      invariant Progress(fs, cur, active, pre, Clearing, matched, k)
      invariant AllWellFormed(cur) && Conserved(cur, rc', ext) && Below(rc', next)
      invariant Passes(seen, Snapshot(fs, rc), Snapshot(cur, rc'), matched[..k], ext)
      invariant forall j :: 0 <= j < k ==>
                  && cur[matched[j]].word == fs[matched[j]].word
                  && Visible(cur[matched[j]], active) == Visible(fs[matched[j]], active)
                  && Staged(cur[matched[j]], active) == ClearSeen(Staged(fs[matched[j]], active), flags)
    {
      var i := matched[k];
      ProgressWellFormed(fs, cur, active, pre, Clearing, matched, k);
      ConservedCounts(cur, rc', ext, i);
      ClearReady(cur[i], active, pre);
      var g, rc1 := ClearFunctionBreak(cur[i], rc', active, flags);
      assert InPhase(g, active, Clearing) by { PhaseMeans(g, active); }
      PhaseWellFormed(g, active, Clearing);
      ConservedStep(cur, rc', ext, i, g, rc1);
      ProgressStep(fs, cur, active, pre, Clearing, matched, k, g);
      PassStep(seen, Snapshot(fs, rc), Snapshot(cur, rc'), matched, k, ext, g, rc1);
      cur, rc' := cur[i := g], rc1;
      seen := seen + [Snapshot(cur, rc')];
    }
    assert matched[..|matched|] == matched;
  }

  // ---------- the number of breakpoints of a module ----------

  /** Whether a function is charged to module `m`: by its code word, or by its data while words are removed. */
  predicate Charged(f: Function, m: nat, byData: bool) {
    f.mod == m && if byData then f.bp.Some? else f.word.Breakpoint?
  }

  function Charge(fs: seq<Function>, m: nat, byData: bool): nat {
    if fs == [] then 0 else (if Charged(fs[0], m, byData) then 1 else 0) + Charge(fs[1..], m, byData)
  }

  predicate Numbered(fs: seq<Function>, nums: seq<int>, byData: bool) {
    && (forall i :: 0 <= i < |fs| ==> fs[i].mod < |nums|)
    && (forall m :: 0 <= m < |nums| ==> nums[m] == Charge(fs, m, byData))
  }

  lemma {:induction false} ChargeUpdate(fs: seq<Function>, i: nat, g: Function, m: nat, byData: bool)
    requires i < |fs|
    ensures Charge(fs[i := g], m, byData) + (if Charged(fs[i], m, byData) then 1 else 0)
            == Charge(fs, m, byData) + (if Charged(g, m, byData) then 1 else 0)
  {
    hide Charged;
    if i == 0 {
      assert fs[0 := g][1..] == fs[1..];
    } else {
      ChargeUpdate(fs[1..], i - 1, g, m, byData);
      assert fs[i := g][1..] == fs[1..][i - 1 := g];
    }
  }

  lemma {:induction false} ChargeSame(fs: seq<Function>, gs: seq<Function>, m: nat, by1: bool, by2: bool)
    requires |fs| == |gs|
    requires forall i :: 0 <= i < |fs| ==> (Charged(fs[i], m, by1) <==> Charged(gs[i], m, by2))
    ensures Charge(fs, m, by1) == Charge(gs, m, by2)
  {
    hide Charged;
    if fs != [] {
      ChargeSame(fs[1..], gs[1..], m, by1, by2);
    }
  }

  /** Recharging one function moves one count. */
  lemma NumberedStep(fs: seq<Function>, nums: seq<int>, byData: bool, i: nat, g: Function, nums': seq<int>)
    requires Numbered(fs, nums, byData) && i < |fs| && g.mod == fs[i].mod
    requires nums' == nums[g.mod := nums[g.mod] + (if Charged(g, g.mod, byData) then 1 else 0)
                                               - (if Charged(fs[i], g.mod, byData) then 1 else 0)]
    ensures Numbered(fs[i := g], nums', byData)
  {
    forall m | 0 <= m < |nums|
      ensures nums'[m] == Charge(fs[i := g], m, byData)
    {
      ChargeUpdate(fs, i, g, m, byData);
    }
  }

  lemma NumberedSame(fs: seq<Function>, gs: seq<Function>, nums: seq<int>, by1: bool, by2: bool)
    requires Numbered(fs, nums, by1) && |fs| == |gs|
    requires forall i :: 0 <= i < |fs| ==> fs[i].mod == gs[i].mod && (Charged(fs[i], fs[i].mod, by1) <==> Charged(gs[i], fs[i].mod, by2))
    ensures Numbered(gs, nums, by2)
  {
    forall m | 0 <= m < |nums|
      ensures nums[m] == Charge(gs, m, by2)
    {
      ChargeSame(fs, gs, m, by1, by2);
    }
  }

  /** erts_install_breakpoints. */
  method InstallAll(fs: seq<Function>, ghost active: nat, nums: seq<int>, matched: seq<nat>,
                    ghost rc: multiset<Obj>, ghost ext: multiset<Obj>)
    returns (cur: seq<Function>, nums': seq<int>, ghost seen: seq<Snapshot>)
    requires active < 2 && Matching(fs, matched)
    requires AllInPhase(fs, active, Setting, matched)
    requires AllWellFormed(fs) && Numbered(fs, nums, false) && Conserved(fs, rc, ext)
    ensures Progress(fs, cur, active, Setting, Ready, matched, |matched|)
    ensures AllWellFormed(cur) && |nums'| == |nums| && Numbered(cur, nums', false)
    ensures Passes(seen, Snapshot(fs, rc), Snapshot(cur, rc), matched, ext)
    ensures forall k :: 0 <= k < |matched| ==>
              && cur[matched[k]].bp == fs[matched[k]].bp
              && Visible(cur[matched[k]], active) == Visible(fs[matched[k]], active)
              && Staged(cur[matched[k]], active) == Staged(fs[matched[k]], active)
  {
    hide Passes, WellFormed, Visible, Staged, InPhase, Numbered, Conserved, Moved;
    cur, nums', seen := fs, nums, [Snapshot(fs, rc)];
    PassStart(Snapshot(fs, rc), ext);
    assert matched[..0] == [];
    for k := 0 to |matched|
      invariant Progress(fs, cur, active, Setting, Ready, matched, k)
      invariant AllWellFormed(cur) && |nums'| == |nums| && Numbered(cur, nums', false) && Conserved(cur, rc, ext)
      invariant Passes(seen, Snapshot(fs, rc), Snapshot(cur, rc), matched[..k], ext)
      invariant forall j :: 0 <= j < k ==>
                  && cur[matched[j]].bp == fs[matched[j]].bp
                  && Visible(cur[matched[j]], active) == Visible(fs[matched[j]], active)
                  && Staged(cur[matched[j]], active) == Staged(fs[matched[j]], active)
    {
      var i := matched[k];
      ProgressWellFormed(fs, cur, active, Setting, Ready, matched, k);
      PhaseMeans(cur[i], active);
      ModInRange(cur, nums', false, i);
      var g, installed := InstallWord(cur[i], active);
      PhaseMeans(g, active);
      PhaseWellFormed(g, active, Ready);
      ProgressStep(fs, cur, active, Setting, Ready, matched, k, g);
      ghost var nums1 := nums';
      if installed {
        nums' := nums'[g.mod := nums'[g.mod] + 1];
      }
      InstallCharges(cur[i], g, active);
      assert nums' == nums1[g.mod := nums1[g.mod] + (if Charged(g, g.mod, false) then 1 else 0)
                                                 - (if Charged(cur[i], g.mod, false) then 1 else 0)];
      NumberedStep(cur, nums1, false, i, g, nums');
      WellFormedAt(cur, i);
      SameBpMoved(cur[i], g, rc);
      ConservedStep(cur, rc, ext, i, g, rc);
      PassStep(seen, Snapshot(fs, rc), Snapshot(cur, rc), matched, k, ext, g, rc);
      cur := cur[i := g];
      seen := seen + [Snapshot(cur, rc)];
    }
    assert matched[..|matched|] == matched;
  }

  lemma WellFormedAt(fs: seq<Function>, i: nat)
    requires AllWellFormed(fs) && i < |fs|
    ensures WellFormed(fs[i])
  {
  }

  lemma ModInRange(fs: seq<Function>, nums: seq<int>, byData: bool, i: nat)
    requires Numbered(fs, nums, byData) && i < |fs|
    ensures fs[i].mod < |nums|
  {
  }

  lemma InstallCharges(f: Function, g: Function, active: nat)
    requires active < 2 && SetStaged(f, active) && SetInstalled(g, active) && g.mod == f.mod && g.bp == f.bp
    ensures (if Charged(g, g.mod, false) then 1 else 0) - (if Charged(f, g.mod, false) then 1 else 0)
            == if f.bp.Some? && !f.word.Breakpoint? then 1 else 0
  {
  }

  /** erts_uninstall_breakpoints. */
  method UninstallAll(fs: seq<Function>, active: nat, matched: seq<nat>, ghost pre: Phase,
                      ghost rc: multiset<Obj>, ghost ext: multiset<Obj>)
    returns (cur: seq<Function>, ghost seen: seq<Snapshot>)
    requires active < 2 && Matching(fs, matched) && (pre == Committed || pre == Done)
    requires AllInPhase(fs, active, pre, matched)
    requires AllWellFormed(fs) && Conserved(fs, rc, ext)
    ensures Progress(fs, cur, active, pre, Done, matched, |matched|)
    ensures AllWellFormed(cur)
    ensures Passes(seen, Snapshot(fs, rc), Snapshot(cur, rc), matched, ext)
    ensures forall k :: 0 <= k < |matched| ==>
              && cur[matched[k]].bp == fs[matched[k]].bp
              && Visible(cur[matched[k]], active) == Visible(fs[matched[k]], active)
  {
    hide Passes, WellFormed, Visible, InPhase, Installed, Cleaned, Conserved, Moved;
    cur, seen := fs, [Snapshot(fs, rc)];
    PassStart(Snapshot(fs, rc), ext);
    assert matched[..0] == [];
    for k := 0 to |matched|
      invariant Progress(fs, cur, active, pre, Done, matched, k)
      invariant AllWellFormed(cur) && Conserved(cur, rc, ext)
      invariant Passes(seen, Snapshot(fs, rc), Snapshot(cur, rc), matched[..k], ext)
      invariant forall j :: 0 <= j < k ==>
                  && cur[matched[j]].bp == fs[matched[j]].bp
                  && Visible(cur[matched[j]], active) == Visible(fs[matched[j]], active)
    {
      var i := matched[k];
      ProgressWellFormed(fs, cur, active, pre, Done, matched, k);
      PhaseMeans(cur[i], active);
      var g := UninstallWord(cur[i], active);
      PhaseMeans(g, active);
      PhaseWellFormed(g, active, Done);
      ProgressStep(fs, cur, active, pre, Done, matched, k, g);
      WellFormedAt(cur, i);
      SameBpMoved(cur[i], g, rc);
      ConservedStep(cur, rc, ext, i, g, rc);
      PassStep(seen, Snapshot(fs, rc), Snapshot(cur, rc), matched, k, ext, g, rc);
      cur := cur[i := g];
      seen := seen + [Snapshot(cur, rc)];
    }
    assert matched[..|matched|] == matched;
  }

  /** erts_consolidate_bp_data with local breakpoints. */
  method ConsolidateAll(fs: seq<Function>, rc: multiset<Obj>, active: nat, nums: seq<int>, matched: seq<nat>,
                        ghost ext: multiset<Obj>, ghost next: Obj)
    returns (cur: seq<Function>, rc': multiset<Obj>, nums': seq<int>, ghost seen: seq<Snapshot>)
    requires active < 2 && Matching(fs, matched)
    requires AllInPhase(fs, active, Done, matched)
    requires AllWellFormed(fs) && Conserved(fs, rc, ext) && Numbered(fs, nums, true) && Below(rc, next)
    ensures Progress(fs, cur, active, Done, Idle, matched, |matched|)
    ensures AllWellFormed(cur) && Conserved(cur, rc', ext) && Below(rc', next)
    ensures |nums'| == |nums| && Numbered(cur, nums', true)
    ensures Passes(seen, Snapshot(fs, rc), Snapshot(cur, rc'), matched, ext)
    ensures forall k :: 0 <= k < |matched| ==> Visible(cur[matched[k]], active) == Visible(fs[matched[k]], active)
  {
    hide Passes, WellFormed, Visible, InPhase, Settled, Cleaned, Numbered, Conserved, Moved, FunctionCounted;
    cur, rc', nums', seen := fs, rc, nums, [Snapshot(fs, rc)];
    PassStart(Snapshot(fs, rc), ext);
    assert matched[..0] == [];
    for k := 0 to |matched|
      invariant Progress(fs, cur, active, Done, Idle, matched, k)
      invariant AllWellFormed(cur) && Conserved(cur, rc', ext) && Below(rc', next)
      invariant |nums'| == |nums| && Numbered(cur, nums', true)
      invariant Passes(seen, Snapshot(fs, rc), Snapshot(cur, rc'), matched[..k], ext)
      invariant forall j :: 0 <= j < k ==> Visible(cur[matched[j]], active) == Visible(fs[matched[j]], active)
    {
      var i := matched[k];
      ProgressWellFormed(fs, cur, active, Done, Idle, matched, k);
      PhaseMeans(cur[i], active);
      ConservedCounts(cur, rc', ext, i);
      ModInRange(cur, nums', true, i);
      var g, rc1, freed := ConsolidateFunction(cur[i], rc', active);
      PhaseMeans(g, active);
      PhaseWellFormed(g, active, Idle);
      ConservedStep(cur, rc', ext, i, g, rc1);
      ProgressStep(fs, cur, active, Done, Idle, matched, k, g);
      ghost var nums1 := nums';
      if freed {
        nums' := nums'[g.mod := nums'[g.mod] - 1];
      }
      assert nums' == nums1[g.mod := nums1[g.mod] + (if Charged(g, g.mod, true) then 1 else 0)
                                                 - (if Charged(cur[i], g.mod, true) then 1 else 0)];
      NumberedStep(cur, nums1, true, i, g, nums');
      PassStep(seen, Snapshot(fs, rc), Snapshot(cur, rc'), matched, k, ext, g, rc1);
      cur, rc' := cur[i := g], rc1;
      seen := seen + [Snapshot(cur, rc')];
    }
    assert matched[..|matched|] == matched;
  }

  // ---------- the table ----------

  /**
   * Where a cycle stands, the functions it matched, the references held outside breakpoint
   * data, and the instruction that every function was loaded with.
   */
  datatype View = View(phase: Phase, matched: seq<nat>, ext: multiset<Obj>, loaded: seq<Word>)

  /** The invariant of every step of every cycle. */
  ghost predicate Inv(fs: seq<Function>, active: nat, rc: multiset<Obj>, nums: seq<int>, next: Obj, v: View) {
    && active < 2
    && Matching(fs, v.matched)
    && AllInPhase(fs, active, v.phase, v.matched)
    && AllWellFormed(fs)
    && Conserved(fs, rc, v.ext)
    && Below(rc, next)
    && Numbered(fs, nums, v.phase == Done)
    && Keeps(fs, v.loaded)
  }

  /** Every function still has the instruction it was loaded with. */
  predicate Keeps(fs: seq<Function>, loaded: seq<Word>) {
    |loaded| == |fs| && forall i :: 0 <= i < |fs| ==> Own(fs[i]) == loaded[i]
  }

  lemma StillKeeps(fs: seq<Function>, cur: seq<Function>, active: nat, pre: Phase, post: Phase, matched: seq<nat>,
                   loaded: seq<Word>)
    requires active < 2
    requires Progress(fs, cur, active, pre, post, matched, |matched|) && Keeps(fs, loaded)
    ensures Keeps(cur, loaded)
  {
    hide InPhase;
    ProgressAll(fs, cur, active, pre, post, matched);
  }

  /** Between cycles the entry of a function holds a breakpoint word exactly if it shows something. */
  lemma IdleWords(fs: seq<Function>, active: nat, matched: seq<nat>, loaded: seq<Word>)
    requires active < 2 && AllInPhase(fs, active, Idle, matched) && AllWellFormed(fs) && Keeps(fs, loaded)
    ensures forall i :: 0 <= i < |fs| ==>
              fs[i].word == if AllVisible(fs, active)[i].flags == NONE then loaded[i] else Breakpoint
  {
    AllSettled(fs, active, matched);
  }

  /** Between cycles no function is special. */
  lemma IdleAny(fs: seq<Function>, active: nat, matched: seq<nat>, matched': seq<nat>)
    requires active < 2 && AllInPhase(fs, active, Idle, matched)
    ensures AllInPhase(fs, active, Idle, matched')
  {
    hide InPhase;
    forall i | 0 <= i < |fs|
      ensures InPhase(fs[i], active, Idle)
    {
      assert InPhase(fs[i], active, if i in matched then Idle else Idle);
    }
  }

  /** Unmatched functions are untouched, so a property of the matched ones holds of all. */
  lemma ProgressAll(fs: seq<Function>, cur: seq<Function>, active: nat, pre: Phase, post: Phase, matched: seq<nat>)
    requires active < 2
    requires Progress(fs, cur, active, pre, post, matched, |matched|)
    ensures forall i :: 0 <= i < |fs| ==> Same(fs[i], cur[i])
    ensures forall i :: 0 <= i < |fs| ==> cur[i] == fs[i] || exists k :: 0 <= k < |matched| && matched[k] == i
  {
    hide InPhase;
    forall i | 0 <= i < |fs|
      ensures Same(fs[i], cur[i])
    {
      if i in matched {
        var k :| 0 <= k < |matched| && matched[k] == i;
        assert Same(fs[matched[k]], cur[matched[k]]);
      }
    }
  }

  /** A step that leaves what every matched function shows leaves what every function shows. */
  lemma AllShown(fs: seq<Function>, cur: seq<Function>, active: nat, pre: Phase, post: Phase, matched: seq<nat>)
    requires active < 2 && AllWellFormed(fs) && AllWellFormed(cur)
    requires Progress(fs, cur, active, pre, post, matched, |matched|)
    requires forall k :: 0 <= k < |matched| ==> Visible(cur[matched[k]], active) == Visible(fs[matched[k]], active)
    ensures AllVisible(cur, active) == AllVisible(fs, active)
  {
    hide InPhase, Visible, WellFormed;
    ProgressAll(fs, cur, active, pre, post, matched);
    forall i | 0 <= i < |fs|
      ensures Visible(cur[i], active) == Visible(fs[i], active)
    {
    }
  }

  lemma SameWords(fs: seq<Function>, cur: seq<Function>, active: nat, pre: Phase, post: Phase, matched: seq<nat>, nums: seq<int>)
    requires active < 2
    requires Progress(fs, cur, active, pre, post, matched, |matched|)
    requires forall k :: 0 <= k < |matched| ==> cur[matched[k]].word == fs[matched[k]].word
    requires Numbered(fs, nums, false)
    ensures Numbered(cur, nums, false)
  {
    hide InPhase, Numbered;
    ProgressAll(fs, cur, active, pre, post, matched);
    NumberedSame(fs, cur, nums, false, false);
  }

  lemma {:induction false} HeldSame(fs: seq<Function>, gs: seq<Function>, o: Obj)
    requires AllWellFormed(fs) && AllWellFormed(gs) && |fs| == |gs|
    requires forall i :: 0 <= i < |fs| ==> fs[i].bp == gs[i].bp
    ensures Held(fs, o) == Held(gs, o)
  {
    hide WellFormed;
    if fs != [] {
      HeldSame(fs[1..], gs[1..], o);
    }
  }

  lemma SameData(fs: seq<Function>, cur: seq<Function>, active: nat, pre: Phase, post: Phase, matched: seq<nat>,
                 rc: multiset<Obj>, ext: multiset<Obj>)
    requires active < 2 && AllWellFormed(fs) && AllWellFormed(cur)
    requires Progress(fs, cur, active, pre, post, matched, |matched|)
    requires forall k :: 0 <= k < |matched| ==> cur[matched[k]].bp == fs[matched[k]].bp
    requires Conserved(fs, rc, ext)
    ensures Conserved(cur, rc, ext)
    ensures forall i :: 0 <= i < |fs| ==> cur[i].bp == fs[i].bp
  {
    hide InPhase, WellFormed, Held;
    ProgressAll(fs, cur, active, pre, post, matched);
    forall o {
      HeldSame(fs, cur, o);
    }
  }

  /** When words and data go together, counting either gives the same number. */
  lemma WordsAreData(fs: seq<Function>, nums: seq<int>, by1: bool, by2: bool)
    requires Numbered(fs, nums, by1)
    requires forall i :: 0 <= i < |fs| ==> (fs[i].bp.Some? <==> fs[i].word.Breakpoint?)
    ensures Numbered(fs, nums, by2)
  {
    hide Numbered;
    NumberedSame(fs, fs, nums, by1, by2);
  }

  /** Swapping the indices: settled functions do not notice, matched ones show what was staged. */
  lemma Swapped(f: Function, active: nat, phase: Phase)
    requires active < 2 && (phase == Idle || phase == Ready || phase == Clearing)
    requires InPhase(f, active, phase)
    ensures f.bp.Some? <==> f.word.Breakpoint?
    ensures phase == Idle ==> InPhase(f, 1 - active, Idle) && Visible(f, 1 - active) == Visible(f, active)
    ensures phase == Ready ==> InPhase(f, 1 - active, Done)
    ensures phase == Clearing ==> InPhase(f, 1 - active, Committed)
    ensures Visible(f, 1 - active) == Staged(f, active)
  {
  }

  function AfterCommit(phase: Phase): Phase {
    if phase == Ready then Done else Committed
  }

  lemma CommitKeeps(fs: seq<Function>, active: nat, rc: multiset<Obj>, nums: seq<int>, next: Obj, v: View)
    requires Inv(fs, active, rc, nums, next, v) && (v.phase == Ready || v.phase == Clearing)
    ensures Inv(fs, 1 - active, rc, nums, next, v.(phase := AfterCommit(v.phase)))
    ensures forall i :: 0 <= i < |fs| && i in v.matched ==> Visible(fs[i], 1 - active) == Staged(fs[i], active)
    ensures forall i :: 0 <= i < |fs| && i !in v.matched ==> Visible(fs[i], 1 - active) == Visible(fs[i], active)
  {
    hide InPhase, WellFormed, Visible, Staged, Conserved, Numbered;
    forall i | 0 <= i < |fs|
      ensures fs[i].bp.Some? <==> fs[i].word.Breakpoint?
      ensures InPhase(fs[i], 1 - active, if i in v.matched then AfterCommit(v.phase) else Idle)
      ensures i in v.matched ==> Visible(fs[i], 1 - active) == Staged(fs[i], active)
      ensures i !in v.matched ==> Visible(fs[i], 1 - active) == Visible(fs[i], active)
    {
      Swapped(fs[i], active, if i in v.matched then v.phase else Idle);
    }
    WordsAreData(fs, nums, false, v.phase == Ready);
  }

  lemma IdleStaged(fs: seq<Function>, active: nat, matched: seq<nat>)
    requires active < 2 && AllInPhase(fs, active, Idle, matched) && AllWellFormed(fs)
    ensures AllStaged(fs, active) == AllVisible(fs, active)
  {
    AllSettled(fs, active, matched);
    hide Settled, WellFormed, Visible, Staged;
    forall i | 0 <= i < |fs|
      ensures Staged(fs[i], active) == Visible(fs[i], active)
    {
      SettledAgree(fs[i], active);
    }
  }

  lemma AllSettled(fs: seq<Function>, active: nat, matched: seq<nat>)
    requires active < 2 && AllInPhase(fs, active, Idle, matched)
    ensures forall i :: 0 <= i < |fs| ==> Settled(fs[i])
  {
    forall i | 0 <= i < |fs|
      ensures Settled(fs[i])
    {
      assert InPhase(fs[i], active, if i in matched then Idle else Idle);
    }
  }

  lemma {:induction false} NothingHeld(fs: seq<Function>, o: Obj)
    requires forall i :: 0 <= i < |fs| ==> fs[i].bp.None? && fs[i].word.Instr?
    ensures AllWellFormed(fs) && Held(fs, o) == 0
  {
    if fs != [] {
      NothingHeld(fs[1..], o);
    }
  }

  lemma {:induction false} NothingInstalled(fs: seq<Function>, m: nat)
    requires forall i :: 0 <= i < |fs| ==> fs[i].word.Instr?
    ensures Charge(fs, m, false) == 0
  {
    if fs != [] {
      NothingInstalled(fs[1..], m);
    }
  }

  lemma UninstallReady(fs: seq<Function>, active: nat, rc: multiset<Obj>, nums: seq<int>, next: Obj, v: View)
    requires Inv(fs, active, rc, nums, next, v) && (v.phase == Committed || v.phase == Done)
    ensures Numbered(fs, nums, true)
  {
    hide Numbered, Conserved, Below;
    if v.phase == Committed {
      forall i | 0 <= i < |fs|
        ensures fs[i].bp.Some? <==> fs[i].word.Breakpoint?
      {
        PhaseMeans(fs[i], active);
        assert InPhase(fs[i], active, if i in v.matched then Committed else Idle);
      }
      WordsAreData(fs, nums, false, true);
    }
  }

  lemma SameCharge(fs: seq<Function>, cur: seq<Function>, active: nat, pre: Phase, post: Phase, matched: seq<nat>, nums: seq<int>)
    requires active < 2
    requires Progress(fs, cur, active, pre, post, matched, |matched|)
    requires forall k :: 0 <= k < |matched| ==> cur[matched[k]].bp == fs[matched[k]].bp
    requires Numbered(fs, nums, true)
    ensures Numbered(cur, nums, true)
  {
    hide InPhase, Numbered;
    ProgressAll(fs, cur, active, pre, post, matched);
    NumberedSame(fs, cur, nums, true, true);
  }

  lemma SettledNumbered(fs: seq<Function>, nums: seq<int>)
    requires forall i :: 0 <= i < |fs| ==> Settled(fs[i])
    requires Numbered(fs, nums, true)
    ensures Numbered(fs, nums, false)
  {
    forall i | 0 <= i < |fs|
      ensures fs[i].bp.Some? <==> fs[i].word.Breakpoint?
    {
      assert Settled(fs[i]);
    }
    WordsAreData(fs, nums, true, false);
  }

  /** The number of functions of module `m` whose entry holds a breakpoint word. */
  function InstalledIn(fs: seq<Function>, m: nat): nat {
    if fs == [] then 0
    else (if fs[0].mod == m && fs[0].word.Breakpoint? then 1 else 0) + InstalledIn(fs[1..], m)
  }

  lemma {:induction false} ChargeIsInstalled(fs: seq<Function>, m: nat)
    ensures Charge(fs, m, false) == InstalledIn(fs, m)
  {
    if fs != [] {
      ChargeIsInstalled(fs[1..], m);
    }
  }

  /**
   * What consolidation establishes: the halves of every breakpoint agree, every
   * count equals the flagged slots that point at the object plus the references
   * held elsewhere, and a module's count is its number of installed breakpoints.
   */
  lemma Consolidated(fs: seq<Function>, active: nat, rc: multiset<Obj>, nums: seq<int>, next: Obj, v: View)
    requires Inv(fs, active, rc, nums, next, v) && v.phase == Idle
    ensures forall i :: 0 <= i < |fs| && fs[i].bp.Some? ==> See(fs[i].bp.value.data[0]) == See(fs[i].bp.value.data[1])
    ensures forall o: Obj :: rc[o] == v.ext[o] + Held(fs, o)
    ensures forall m :: 0 <= m < |nums| ==> nums[m] == InstalledIn(fs, m)
  {
    AllSettled(fs, active, v.matched);
    forall m | 0 <= m < |nums|
      ensures nums[m] == InstalledIn(fs, m)
    {
      ChargeIsInstalled(fs, m);
    }
  }

  /** In every safe state a breakpoint word has live data, and everything the data points at is live. */
  lemma NeverDangling(fs: seq<Function>, rc: multiset<Obj>, ext: multiset<Obj>, i: nat)
    requires Safe(Snapshot(fs, rc), ext) && i < |fs| && fs[i].word.Breakpoint?
    ensures fs[i].bp.Some? && |fs[i].bp.value.data| == 2
    ensures forall k, o: Obj :: 0 <= k < 2 && HalfHeld(fs[i].bp.value.data[k], o) > 0 ==> o in rc
  {
    ConservedCounts(fs, rc, ext, i);
    assert WellFormed(fs[i]);
    hide HalfHeld, Conserved, Held;
    forall k, o: Obj | 0 <= k < 2 && HalfHeld(fs[i].bp.value.data[k], o) > 0
      ensures o in rc
    {
      assert FunctionHeld(fs[i], o) <= rc[o];
    }
  }

  // ---------- whole cycles ----------

  /** The kinds of breakpoint one trace pattern turns on or off. */
  datatype Settings = Settings(local: bool, meta: bool, count: bool, time: bool)

  predicate AnySelected(s: Settings) {
    s.local || s.meta || s.count || s.time
  }

  /** The flags of the selected kinds. */
  function Selected(s: Settings): Flags {
    Flags(s.local, s.meta, s.count, s.count, false, s.time, s.time, false)
  }

  /**
   * What a function that showed `v` shows after the selected kinds were turned on.
   * Counters and time tables that exist are kept and paused or resumed; a new one
   * runs, and restart and pause make one only where some breakpoint is.
   */
  function TurnedOn(v: Seen, s: Settings, ms: Option<Obj>, metaMs: Option<Obj>, op: BreakOp,
                    tracer: Obj, counter: Obj, table: Obj): Seen {
    var there := v.flags != NONE || s.local || s.meta || Creates(op);
    var count, time := s.count && there, s.time && there;
    Seen(v.flags.(localTrace := v.flags.localTrace || s.local,
                  metaTrace := v.flags.metaTrace || s.meta,
                  count := v.flags.count || count,
                  countActive := if count then !v.flags.count || op != Pause else v.flags.countActive,
                  time := v.flags.time || time,
                  timeActive := if time then !v.flags.time || op != Pause else v.flags.timeActive),
         if s.local then Some(ms) else v.local,
         if s.meta then Some((metaMs, tracer)) else v.meta,
         if count && !v.flags.count then Some(counter) else v.count,
         if time && !v.flags.time then Some(table) else v.time)
  }

  function SetWhen(on: bool, v: Seen, f: Flags, ms: Option<Obj>, op: BreakOp, obj: Obj): Seen {
    if on then SetVisible(v, f, ms, op, obj) else v
  }

  function ClearWhen(on: bool, v: Seen, f: Flags): Seen {
    if on then ClearSeen(v, f) else v
  }

  // Where the objects a cycle over n functions allocates for function k come to lie.

  function TracerAt(s: Settings, next: Obj, n: nat, k: nat): Obj {
    next + (if s.local then n else 0) + k
  }

  function CounterAt(s: Settings, next: Obj, n: nat, k: nat): Obj {
    TracerAt(s, next, n, k) + if s.meta then n else 0
  }

  function TableAt(s: Settings, next: Obj, n: nat, k: nat): Obj {
    CounterAt(s, next, n, k) + if s.count then n else 0
  }

  lemma SetTraces(v: Seen, s: Settings, ms: Option<Obj>, metaMs: Option<Obj>, x: Obj, tracer: Obj)
    requires Measured(v.flags)
    ensures SetWhen(s.meta, SetWhen(s.local, v, LOCAL_TRACE, ms, NoOp, x), META_TRACE, metaMs, NoOp, tracer)
            == TurnedOn(v, s.(count := false, time := false), ms, metaMs, NoOp, tracer, 0, 0)
  {
  }

  lemma SetMeasures(v: Seen, s: Settings, op: BreakOp, counter: Obj, table: Obj)
    requires Measured(v.flags)
    ensures SetWhen(s.time, SetWhen(s.count, v, COUNT, None, op, counter), TIME, None, op, table)
            == TurnedOn(v, s.(local := false, meta := false), None, None, op, 0, counter, table)
  {
  }

  /** Turning on the traces and then the measures turns on all of them. */
  lemma TurnedOnInTurn(v: Seen, s: Settings, ms: Option<Obj>, metaMs: Option<Obj>, op: BreakOp,
                       tracer: Obj, counter: Obj, table: Obj)
    ensures TurnedOn(TurnedOn(v, s.(count := false, time := false), ms, metaMs, NoOp, tracer, 0, 0),
                     s.(local := false, meta := false), None, None, op, 0, counter, table)
            == TurnedOn(v, s, ms, metaMs, op, tracer, counter, table)
  {
  }

  /** Clearing the kinds one after the other clears all of them. */
  lemma ClearTogether(v: Seen, s: Settings)
    requires AnySelected(s)
    ensures var v1 := ClearWhen(s.local, v, LOCAL_TRACE);
            var v2 := ClearWhen(s.meta, v1, META_TRACE);
            var v3 := ClearWhen(s.count, v2, COUNT);
            ClearWhen(s.time, v3, TIME) == ClearSeen(v, Selected(s))
  {
  }

  /** Only call trace can meet call trace of the other kind. */
  lemma NotMixed()
    ensures forall flags :: !Mixes(flags, META_TRACE) && !Mixes(flags, COUNT) && !Mixes(flags, TIME) && !Mixes(flags, DEBUG)
  {
  }

  lemma AllMeasured(fs: seq<Function>, active: nat)
    requires active < 2 && AllWellFormed(fs)
    ensures forall i :: 0 <= i < |fs| ==> Measured(AllStaged(fs, active)[i].flags)
  {
  }

  lemma DebugSet(v: Seen, obj: Obj)
    ensures SetVisible(v, DEBUG, None, NoOp, obj) == v.(flags := v.flags.(debug := true))
  {
  }

  lemma DebugCleared(v: Seen)
    requires Shaped(v)
    ensures ClearSeen(v, DEBUG) == v.(flags := v.flags.(debug := false))
  {
  }

  /** A field is shown exactly under its flag. */
  predicate Shaped(v: Seen) {
    && (v.local.Some? <==> Traced(v.flags)) && (v.meta.Some? <==> v.flags.metaTrace)
    && (v.count.Some? <==> v.flags.count) && (v.time.Some? <==> v.flags.time)
  }

  lemma AllShaped(fs: seq<Function>, active: nat)
    requires active < 2 && AllWellFormed(fs)
    ensures forall i :: 0 <= i < |fs| ==> Shaped(AllVisible(fs, active)[i])
  {
  }

  /** What happens to a counter or a time table: pause stops one that is there, everything else starts it. */
  predicate MeasureAsAsked(before: Option<Obj>, ran: bool, after: Option<Obj>, runs: bool, asked: bool, op: BreakOp) {
    if !asked then after == before && (runs <==> ran)
    else if before.Some? then after == before && (runs <==> op != Pause)
    else after.Some? && runs
  }

  /**
   * What a trace pattern promises of a function that showed `b` and now shows `a`.  Restart
   * and pause ask nothing of a function without any breakpoint.
   */
  predicate AsAsked(b: Seen, a: Seen, s: Settings, ms: Option<Obj>, metaMs: Option<Obj>, op: BreakOp) {
    var measured := !(b.flags == NONE && !s.local && !s.meta && (op == Restart || op == Pause));
    && (if s.local then a.flags.localTrace && a.local == Some(ms)
        else (a.flags.localTrace <==> b.flags.localTrace) && a.local == b.local)
    && (if s.meta then a.flags.metaTrace && a.meta.Some? && a.meta.value.0 == metaMs
        else (a.flags.metaTrace <==> b.flags.metaTrace) && a.meta == b.meta)
    && MeasureAsAsked(b.count, b.flags.countActive, a.count, a.flags.countActive, s.count && measured, op)
    && MeasureAsAsked(b.time, b.flags.timeActive, a.time, a.flags.timeActive, s.time && measured, op)
    && (a.flags.debug <==> b.flags.debug) && (a.flags.globalTrace <==> b.flags.globalTrace)
  }

  lemma TurnedOnAsAsked(v: Seen, s: Settings, ms: Option<Obj>, metaMs: Option<Obj>, op: BreakOp,
                        tracer: Obj, counter: Obj, table: Obj)
    requires Shaped(v)
    ensures AsAsked(v, TurnedOn(v, s, ms, metaMs, op, tracer, counter, table), s, ms, metaMs, op)
  {
  }

  /** What a trace pattern that turns kinds off promises: the selected ones are gone, the others are as they were. */
  predicate Removed(b: Seen, a: Seen, s: Settings) {
    && (a.flags.localTrace <==> b.flags.localTrace && !s.local)
    && a.local == (if s.local && !b.flags.globalTrace then None else b.local)
    && (a.flags.metaTrace <==> b.flags.metaTrace && !s.meta) && a.meta == (if s.meta then None else b.meta)
    && (a.flags.count <==> b.flags.count && !s.count) && a.count == (if s.count then None else b.count)
    && (a.flags.countActive <==> b.flags.countActive && !s.count)
    && (a.flags.time <==> b.flags.time && !s.time) && a.time == (if s.time then None else b.time)
    && (a.flags.timeActive <==> b.flags.timeActive && !s.time)
    && (a.flags.debug <==> b.flags.debug) && (a.flags.globalTrace <==> b.flags.globalTrace)
  }

  lemma ClearedIsRemoved(v: Seen, s: Settings)
    requires Shaped(v)
    ensures Removed(v, ClearSeen(v, Selected(s)), s)
  {
  }

  class Table {
    var functions: seq<Function>
    var active: nat
    var staging: nat
    var refc: multiset<Obj>
    var numBreakpoints: seq<int>
    var next: Obj
    ghost var view: View

    ghost predicate Valid()
      reads this
    {
      Inv(functions, active, refc, numBreakpoints, next, view) && staging == 1 - active
    }

    /** erts_bp_init, with freshly loaded code: no breakpoint anywhere. */
    constructor (modules: nat, code: seq<Function>, held: multiset<Obj>, free: Obj)
      requires forall i :: 0 <= i < |code| ==> code[i].bp.None? && code[i].word.Instr? && code[i].mod < modules
      requires Below(held, free)
      ensures Valid() && view.phase == Idle && view.matched == [] && view.ext == held
      ensures |view.loaded| == |code| && forall i :: 0 <= i < |code| ==> view.loaded[i] == code[i].word
      ensures functions == code && refc == held
    {
      functions, refc, next := code, held, free;
      active, staging := 0, 1;
      numBreakpoints := seq(modules, _ => 0);
      view := View(Idle, [], held, seq(|code|, i requires 0 <= i < |code| => code[i].word));
      forall o {
        NothingHeld(code, o);
      }
      forall m {
        NothingInstalled(code, m);
      }
    }

    /** erts_bp_match_functions: the functions the next cycle is about. */
    ghost method Match(matched: seq<nat>)
      requires Valid() && view.phase == Idle && Matching(functions, matched)
      modifies this`view
      ensures Valid() && view == old(view).(matched := matched)
      ensures AllStaged(functions, active) == AllVisible(functions, active)
    {
      hide AllWellFormed, Conserved, Below, Numbered, Keeps, InPhase, Visible, Staged;
      IdleAny(functions, active, view.matched, matched);
      IdleStaged(functions, active, matched);
      view := view.(matched := matched);
    }

    /** set_break, once or several times in a cycle. */
    method SetBreak(matched: seq<nat>, flags: Flags, ms: Option<Obj>, op: BreakOp)
      returns (ghost seen: seq<Snapshot>)
      requires Valid() && (view.phase == Idle || view.phase == Setting) && matched == view.matched
      requires SetFlags(flags) && (ms.Some? ==> ms.value in view.ext)
      requires forall k :: 0 <= k < |matched| ==> !Mixes(AllStaged(functions, active)[matched[k]].flags, flags)
      modifies this`functions, this`refc, this`next, this`view
      ensures Valid() && view == old(view).(phase := Setting)
      ensures |functions| == |old(functions)| && next == old(next) + |matched|
      ensures AllVisible(functions, active) == old(AllVisible(functions, active))
      ensures forall k :: 0 <= k < |matched| ==>
                AllStaged(functions, active)[matched[k]]
                == SetVisible(old(AllStaged(functions, active))[matched[k]], flags, ms, op, old(next) + k)
      ensures Passes(seen, old(Snapshot(functions, refc)), Snapshot(functions, refc), matched, view.ext)
    {
      hide AllInPhase, AllWellFormed, Conserved, Below, Numbered, Keeps, InPhase, Visible, Staged, SetVisible, SetFlags, Mixes, Passes;
      ghost var v := view;
      var cur, rc', next', snaps := SetAll(functions, refc, active, next, matched, flags, ms, op, v.ext, v.phase);
      seen := snaps;
      ProgressEnd(functions, cur, active, v.phase, Setting, matched);
      AllShown(functions, cur, active, v.phase, Setting, matched);
      StillKeeps(functions, cur, active, v.phase, Setting, matched, v.loaded);
      SameWords(functions, cur, active, v.phase, Setting, matched, numBreakpoints);
      functions, refc, next := cur, rc', next';
      view := v.(phase := Setting);
    }

    /** clear_break, once or several times in a cycle. */
    method ClearBreak(matched: seq<nat>, flags: Flags) returns (ghost seen: seq<Snapshot>)
      requires Valid() && (view.phase == Idle || view.phase == Clearing) && matched == view.matched
      requires ClearFlags(flags)
      modifies this`functions, this`refc, this`view
      ensures Valid() && view == old(view).(phase := Clearing)
      ensures |functions| == |old(functions)|
      ensures AllVisible(functions, active) == old(AllVisible(functions, active))
      ensures forall k :: 0 <= k < |matched| ==>
                AllStaged(functions, active)[matched[k]]
                == ClearSeen(old(AllStaged(functions, active))[matched[k]], flags)
      ensures Passes(seen, old(Snapshot(functions, refc)), Snapshot(functions, refc), matched, view.ext)
    {
      hide AllInPhase, AllWellFormed, Conserved, Below, Numbered, Keeps, InPhase, Visible, Staged, ClearSeen, ClearFlags, Passes;
      ghost var v := view;
      var cur, rc', snaps := ClearAll(functions, refc, active, next, matched, flags, v.ext, v.phase);
      seen := snaps;
      ProgressEnd(functions, cur, active, v.phase, Clearing, matched);
      AllShown(functions, cur, active, v.phase, Clearing, matched);
      StillKeeps(functions, cur, active, v.phase, Clearing, matched, v.loaded);
      SameWords(functions, cur, active, v.phase, Clearing, matched, numBreakpoints);
      functions, refc := cur, rc';
      view := v.(phase := Clearing);
    }

    method Install(matched: seq<nat>) returns (ghost seen: seq<Snapshot>)
      requires Valid() && view.phase == Setting && matched == view.matched
      modifies this`functions, this`numBreakpoints, this`view
      ensures Valid() && view == old(view).(phase := Ready)
      ensures |functions| == |old(functions)|
      ensures AllVisible(functions, active) == old(AllVisible(functions, active))
      ensures forall k :: 0 <= k < |matched| ==>
                AllStaged(functions, active)[matched[k]] == old(AllStaged(functions, active))[matched[k]]
      ensures Passes(seen, old(Snapshot(functions, refc)), Snapshot(functions, refc), matched, view.ext)
    {
      hide AllInPhase, AllWellFormed, Conserved, Below, Numbered, Keeps, InPhase, Visible, Staged, Passes;
      ghost var v := view;
      var cur, nums, snaps := InstallAll(functions, active, numBreakpoints, matched, refc, v.ext);
      seen := snaps;
      ProgressEnd(functions, cur, active, Setting, Ready, matched);
      AllShown(functions, cur, active, Setting, Ready, matched);
      StillKeeps(functions, cur, active, Setting, Ready, matched, v.loaded);
      SameData(functions, cur, active, Setting, Ready, matched, refc, v.ext);
      functions, numBreakpoints := cur, nums;
      view := v.(phase := Ready);
    }

    /** erts_commit_staged_bp: the only step that changes what any function shows. */
    method CommitStaged()
      requires Valid() && (view.phase == Ready || view.phase == Clearing)
      modifies this`active, this`staging, this`view
      ensures Valid() && view == old(view).(phase := AfterCommit(old(view.phase)))
      ensures forall i :: 0 <= i < |functions| ==>
                AllVisible(functions, active)[i]
                == if i in view.matched then old(AllStaged(functions, active))[i] else old(AllVisible(functions, active))[i]
    {
      CommitKeeps(functions, active, refc, numBreakpoints, next, view);
      hide Visible, Staged, AllInPhase, Conserved, Below, Numbered, Keeps, WellFormed;
      active, staging := staging, active;
      view := view.(phase := AfterCommit(view.phase));
    }

    method Uninstall(matched: seq<nat>) returns (ghost seen: seq<Snapshot>)
      requires Valid() && (view.phase == Committed || view.phase == Done) && matched == view.matched
      modifies this`functions, this`view
      ensures Valid() && view == old(view).(phase := Done)
      ensures |functions| == |old(functions)|
      ensures AllVisible(functions, active) == old(AllVisible(functions, active))
      ensures Passes(seen, old(Snapshot(functions, refc)), Snapshot(functions, refc), matched, view.ext)
    {
      hide AllInPhase, AllWellFormed, Conserved, Below, Numbered, Keeps, InPhase, Visible, Passes;
      ghost var v := view;
      UninstallReady(functions, active, refc, numBreakpoints, next, v);
      var cur, snaps := UninstallAll(functions, active, matched, v.phase, refc, v.ext);
      seen := snaps;
      ProgressEnd(functions, cur, active, v.phase, Done, matched);
      AllShown(functions, cur, active, v.phase, Done, matched);
      StillKeeps(functions, cur, active, v.phase, Done, matched, v.loaded);
      SameData(functions, cur, active, v.phase, Done, matched, refc, v.ext);
      SameCharge(functions, cur, active, v.phase, Done, matched, numBreakpoints);
      functions := cur;
      view := v.(phase := Done);
    }

    method Consolidate(matched: seq<nat>) returns (ghost seen: seq<Snapshot>)
      requires Valid() && view.phase == Done && matched == view.matched
      modifies this`functions, this`refc, this`numBreakpoints, this`view
      ensures Valid() && view == old(view).(phase := Idle)
      ensures |functions| == |old(functions)|
      ensures AllVisible(functions, active) == old(AllVisible(functions, active))
      ensures Passes(seen, old(Snapshot(functions, refc)), Snapshot(functions, refc), matched, view.ext)
    {
      hide AllInPhase, AllWellFormed, Conserved, Below, Numbered, Keeps, InPhase, Visible, Passes;
      ghost var v := view;
      var cur, rc', nums, snaps := ConsolidateAll(functions, refc, active, numBreakpoints, matched, v.ext, next);
      seen := snaps;
      ProgressEnd(functions, cur, active, Done, Idle, matched);
      AllShown(functions, cur, active, Done, Idle, matched);
      StillKeeps(functions, cur, active, Done, Idle, matched, v.loaded);
      AllSettled(cur, active, matched);
      SettledNumbered(cur, nums);
      functions, refc, numBreakpoints := cur, rc', nums;
      view := v.(phase := Idle);
    }

    /** The rest of a cycle that set something. */
    method FinishSetting(matched: seq<nat>)
      requires Valid() && view.phase == Setting && matched == view.matched
      modifies this`functions, this`refc, this`numBreakpoints, this`active, this`staging, this`view
      ensures Valid() && view == old(view).(phase := Idle) && |functions| == |old(functions)|
      ensures forall i :: 0 <= i < |functions| ==>
                AllVisible(functions, active)[i]
                == if i in matched then old(AllStaged(functions, active))[i] else old(AllVisible(functions, active))[i]
      ensures forall i :: 0 <= i < |functions| ==>
                functions[i].word == if AllVisible(functions, active)[i].flags == NONE then view.loaded[i] else Breakpoint
    {
      hide AllInPhase, Conserved, Below, Numbered, Keeps, WellFormed, Visible, Staged, Passes;
      ghost var seen := Install(matched);
      CommitStaged();
      seen := Consolidate(matched);
      IdleWords(functions, active, view.matched, view.loaded);
    }

    /** The rest of a cycle that cleared something. */
    method FinishClearing(matched: seq<nat>)
      requires Valid() && view.phase == Clearing && matched == view.matched
      modifies this`functions, this`refc, this`numBreakpoints, this`active, this`staging, this`view
      ensures Valid() && view == old(view).(phase := Idle) && |functions| == |old(functions)|
      ensures forall i :: 0 <= i < |functions| ==>
                AllVisible(functions, active)[i]
                == if i in matched then old(AllStaged(functions, active))[i] else old(AllVisible(functions, active))[i]
      ensures forall i :: 0 <= i < |functions| ==>
                functions[i].word == if AllVisible(functions, active)[i].flags == NONE then view.loaded[i] else Breakpoint
    {
      hide AllInPhase, Conserved, Below, Numbered, Keeps, WellFormed, Visible, Staged, Passes;
      CommitStaged();
      ghost var seen := Uninstall(matched);
      seen := Consolidate(matched);
      IdleWords(functions, active, view.matched, view.loaded);
    }

    /** One of the settings of a trace pattern, if it is selected. */
    method SetBreakWhen(on: bool, matched: seq<nat>, flags: Flags, ms: Option<Obj>, op: BreakOp)
      requires Valid() && (view.phase == Idle || view.phase == Setting) && matched == view.matched
      requires SetFlags(flags) && (ms.Some? ==> ms.value in view.ext)
      requires on ==> forall k :: 0 <= k < |matched| ==> !Mixes(AllStaged(functions, active)[matched[k]].flags, flags)
      modifies this`functions, this`refc, this`next, this`view
      ensures Valid() && view == old(view).(phase := if on then Setting else old(view).phase)
      ensures |functions| == |old(functions)| && next == old(next) + if on then |matched| else 0
      ensures AllVisible(functions, active) == old(AllVisible(functions, active))
      ensures forall k :: 0 <= k < |matched| ==>
                AllStaged(functions, active)[matched[k]]
                == SetWhen(on, old(AllStaged(functions, active))[matched[k]], flags, ms, op, old(next) + k)
    {
      hide AllInPhase, Conserved, Below, Numbered, Keeps, WellFormed, Visible, Staged, SetVisible, SetFlags, Mixes, Passes;
      if on {
        ghost var seen := SetBreak(matched, flags, ms, op);
      }
    }

    method ClearBreakWhen(on: bool, matched: seq<nat>, flags: Flags)
      requires Valid() && (view.phase == Idle || view.phase == Clearing) && matched == view.matched
      requires ClearFlags(flags)
      modifies this`functions, this`refc, this`view
      ensures Valid() && view == old(view).(phase := if on then Clearing else old(view).phase)
      ensures |functions| == |old(functions)|
      ensures AllVisible(functions, active) == old(AllVisible(functions, active))
      ensures forall k :: 0 <= k < |matched| ==>
                AllStaged(functions, active)[matched[k]]
                == ClearWhen(on, old(AllStaged(functions, active))[matched[k]], flags)
    {
      hide AllInPhase, Conserved, Below, Numbered, Keeps, WellFormed, Visible, Staged, ClearSeen, ClearFlags, Passes;
      if on {
        ghost var seen := ClearBreak(matched, flags);
      }
    }

    /** Stages the selected traces. */
    method StageTraces(matched: seq<nat>, s: Settings, ms: Option<Obj>, metaMs: Option<Obj>)
      requires Valid() && view.phase == Idle && matched == view.matched
      requires (ms.Some? ==> ms.value in view.ext) && (metaMs.Some? ==> metaMs.value in view.ext)
      requires s.local ==> forall k :: 0 <= k < |matched| ==>
                 !Mixes(AllStaged(functions, active)[matched[k]].flags, LOCAL_TRACE)
      modifies this`functions, this`refc, this`next, this`view
      ensures Valid() && view == old(view).(phase := if s.local || s.meta then Setting else Idle)
      ensures |functions| == |old(functions)| && next == CounterAt(s, old(next), |matched|, 0)
      ensures AllVisible(functions, active) == old(AllVisible(functions, active))
      ensures forall k :: 0 <= k < |matched| ==>
                AllStaged(functions, active)[matched[k]]
                == TurnedOn(old(AllStaged(functions, active))[matched[k]], s.(count := false, time := false),
                            ms, metaMs, NoOp, TracerAt(s, old(next), |matched|, k), 0, 0)
    {
      hide AllInPhase, Conserved, Below, Numbered, Keeps, WellFormed, Visible, Staged, SetWhen, Mixes, TurnedOn, Measured;
      NotMixed();
      AllMeasured(functions, active);
      ghost var before := AllStaged(functions, active);
      SetBreakWhen(s.local, matched, LOCAL_TRACE, ms, NoOp);
      SetBreakWhen(s.meta, matched, META_TRACE, metaMs, NoOp);
      forall k | 0 <= k < |matched|
        ensures AllStaged(functions, active)[matched[k]]
                == TurnedOn(before[matched[k]], s.(count := false, time := false),
                            ms, metaMs, NoOp, TracerAt(s, old(next), |matched|, k), 0, 0)
      {
        SetTraces(before[matched[k]], s, ms, metaMs, old(next) + k, TracerAt(s, old(next), |matched|, k));
      }
    }

    /** Stages the selected counters and time tables. */
    method StageMeasures(matched: seq<nat>, s: Settings, op: BreakOp)
      requires Valid() && (view.phase == Idle || view.phase == Setting) && matched == view.matched
      modifies this`functions, this`refc, this`next, this`view
      ensures Valid() && view == old(view).(phase := if s.count || s.time then Setting else old(view).phase)
      ensures |functions| == |old(functions)|
      ensures AllVisible(functions, active) == old(AllVisible(functions, active))
      ensures forall k :: 0 <= k < |matched| ==>
                AllStaged(functions, active)[matched[k]]
                == TurnedOn(old(AllStaged(functions, active))[matched[k]], s.(local := false, meta := false),
                            None, None, op, 0, old(next) + k, old(next) + (if s.count then |matched| else 0) + k)
    {
      hide AllInPhase, Conserved, Below, Numbered, Keeps, WellFormed, Visible, Staged, SetWhen, Mixes, TurnedOn, Measured;
      NotMixed();
      AllMeasured(functions, active);
      ghost var before := AllStaged(functions, active);
      SetBreakWhen(s.count, matched, COUNT, None, op);
      ghost var table := next;
      SetBreakWhen(s.time, matched, TIME, None, op);
      forall k | 0 <= k < |matched|
        ensures AllStaged(functions, active)[matched[k]]
                == TurnedOn(before[matched[k]], s.(local := false, meta := false), None, None, op, 0, old(next) + k, table + k)
      {
        SetMeasures(before[matched[k]], s, op, old(next) + k, table + k);
      }
    }

    /** A trace pattern that turns local breakpoints on: all selected kinds become visible in one commit. */
    method TraceOn(matched: seq<nat>, s: Settings, ms: Option<Obj>, metaMs: Option<Obj>, op: BreakOp)
      requires Valid() && view.phase == Idle && Matching(functions, matched) && AnySelected(s)
      requires (ms.Some? ==> ms.value in view.ext) && (metaMs.Some? ==> metaMs.value in view.ext)
      requires s.local ==> forall k :: 0 <= k < |matched| ==>
                 !Mixes(AllVisible(functions, active)[matched[k]].flags, LOCAL_TRACE)
      modifies this
      ensures Valid() && view == old(view).(matched := matched) && |functions| == |old(functions)|
      ensures forall k :: 0 <= k < |matched| ==>
                AllVisible(functions, active)[matched[k]]
                == TurnedOn(old(AllVisible(functions, active))[matched[k]], s, ms, metaMs, op,
                            TracerAt(s, old(next), |matched|, k), CounterAt(s, old(next), |matched|, k),
                            TableAt(s, old(next), |matched|, k))
      ensures forall k :: 0 <= k < |matched| ==>
                AsAsked(old(AllVisible(functions, active))[matched[k]], AllVisible(functions, active)[matched[k]],
                        s, ms, metaMs, op)
      ensures forall i :: 0 <= i < |functions| && i !in matched ==>
                AllVisible(functions, active)[i] == old(AllVisible(functions, active))[i]
      ensures forall i :: 0 <= i < |functions| ==>
                functions[i].word == if AllVisible(functions, active)[i].flags == NONE then view.loaded[i] else Breakpoint
    {
      hide AllInPhase, Conserved, Below, Numbered, Keeps, WellFormed, Visible, Staged, TurnedOn, Mixes, AsAsked, Shaped;
      ghost var before := AllVisible(functions, active);
      AllShaped(functions, active);
      Match(matched);
      StageTraces(matched, s, ms, metaMs);
      StageMeasures(matched, s, op);
      forall k | 0 <= k < |matched|
        ensures AllStaged(functions, active)[matched[k]]
                == TurnedOn(before[matched[k]], s, ms, metaMs, op, TracerAt(s, old(next), |matched|, k),
                            CounterAt(s, old(next), |matched|, k), TableAt(s, old(next), |matched|, k))
      {
        TurnedOnInTurn(before[matched[k]], s, ms, metaMs, op, TracerAt(s, old(next), |matched|, k),
                       CounterAt(s, old(next), |matched|, k), TableAt(s, old(next), |matched|, k));
      }
      FinishSetting(matched);
      forall k | 0 <= k < |matched|
        ensures AsAsked(before[matched[k]], AllVisible(functions, active)[matched[k]], s, ms, metaMs, op)
      {
        TurnedOnAsAsked(before[matched[k]], s, ms, metaMs, op, TracerAt(s, old(next), |matched|, k),
                        CounterAt(s, old(next), |matched|, k), TableAt(s, old(next), |matched|, k));
      }
    }

    /** A trace pattern that turns local breakpoints off. */
    method TraceOff(matched: seq<nat>, s: Settings)
      requires Valid() && view.phase == Idle && Matching(functions, matched) && AnySelected(s)
      modifies this
      ensures Valid() && view == old(view).(matched := matched) && |functions| == |old(functions)|
      ensures forall i :: 0 <= i < |functions| ==>
                AllVisible(functions, active)[i]
                == if i in matched then ClearSeen(old(AllVisible(functions, active))[i], Selected(s))
                   else old(AllVisible(functions, active))[i]
      ensures forall k :: 0 <= k < |matched| ==>
                Removed(old(AllVisible(functions, active))[matched[k]], AllVisible(functions, active)[matched[k]], s)
      ensures forall i :: 0 <= i < |functions| ==>
                functions[i].word == if AllVisible(functions, active)[i].flags == NONE then view.loaded[i] else Breakpoint
    {
      hide AllInPhase, Conserved, Below, Numbered, Keeps, WellFormed, Visible, Staged, ClearWhen, ClearSeen, Removed, Shaped;
      ghost var before := AllVisible(functions, active);
      AllShaped(functions, active);
      Match(matched);
      ClearBreakWhen(s.local, matched, LOCAL_TRACE);
      ClearBreakWhen(s.meta, matched, META_TRACE);
      ClearBreakWhen(s.count, matched, COUNT);
      ClearBreakWhen(s.time, matched, TIME);
      ghost var staged := AllStaged(functions, active);
      forall k | 0 <= k < |matched|
        ensures staged[matched[k]] == ClearSeen(before[matched[k]], Selected(s))
      {
        ClearTogether(before[matched[k]], s);
      }
      FinishClearing(matched);
      forall k | 0 <= k < |matched|
        ensures Removed(before[matched[k]], AllVisible(functions, active)[matched[k]], s)
      {
        ClearedIsRemoved(before[matched[k]], s);
      }
    }

    /** A trace pattern that turns global call trace on first clears every local breakpoint of the functions. */
    method ClearAllBreaks(matched: seq<nat>)
      requires Valid() && view.phase == Idle && Matching(functions, matched)
      modifies this
      ensures Valid() && view == old(view).(matched := matched) && |functions| == |old(functions)|
      ensures forall i :: 0 <= i < |functions| ==>
                AllVisible(functions, active)[i] == if i in matched then NOTHING else old(AllVisible(functions, active))[i]
      ensures forall i :: 0 <= i < |functions| && i in matched ==> functions[i].word == view.loaded[i]
      ensures forall i :: 0 <= i < |functions| && i !in matched ==>
                functions[i].word == if AllVisible(functions, active)[i].flags == NONE then view.loaded[i] else Breakpoint
    {
      hide AllInPhase, Conserved, Below, Numbered, Keeps, WellFormed, Visible, Staged, Passes;
      Match(matched);
      ghost var seen := ClearBreak(matched, ALL);
      FinishClearing(matched);
    }

    /** A debugger breakpoint, set or cleared. */
    method DebugBreakpoint(matched: seq<nat>, on: bool)
      requires Valid() && view.phase == Idle && Matching(functions, matched)
      modifies this
      ensures Valid() && view == old(view).(matched := matched) && |functions| == |old(functions)|
      ensures forall i :: 0 <= i < |functions| ==>
                var before := old(AllVisible(functions, active))[i];
                AllVisible(functions, active)[i]
                == if i in matched then before.(flags := before.flags.(debug := on)) else before
      ensures forall i :: 0 <= i < |functions| ==>
                functions[i].word == if AllVisible(functions, active)[i].flags == NONE then view.loaded[i] else Breakpoint
    {
      hide AllInPhase, Conserved, Below, Numbered, Keeps, WellFormed, Visible, Staged, SetVisible, ClearSeen, Mixes, Passes, Shaped;
      NotMixed();
      AllShaped(functions, active);
      ghost var before := AllVisible(functions, active);
      Match(matched);
      if on {
        ghost var seen := SetBreak(matched, DEBUG, None, NoOp);
        forall k | 0 <= k < |matched|
          ensures AllStaged(functions, active)[matched[k]]
                  == before[matched[k]].(flags := before[matched[k]].flags.(debug := true))
        {
          DebugSet(before[matched[k]], old(next) + k);
        }
        FinishSetting(matched);
      } else {
        ghost var seen := ClearBreak(matched, DEBUG);
        forall k | 0 <= k < |matched|
          ensures AllStaged(functions, active)[matched[k]]
                  == before[matched[k]].(flags := before[matched[k]].flags.(debug := false))
        {
          DebugCleared(before[matched[k]]);
        }
        FinishClearing(matched);
      }
    }
  }
}

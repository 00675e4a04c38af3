/**
 * Operand packing: the loader runs a small program over the operands it has just
 * emitted (erts/emulator/beam/beam_load.c); the disassembler undoes it by running
 * the same program backwards (erts/emulator/beam/beam_debug.c).
 */
module Packer {
  import opened Digits
  import Bits
  import Bitwise

  /** The letters of a pack program: g, i, 0, 6, w, p, P. */
  datatype Op = Get | Init | Tight | Loose | Wide | Put | PutPacked

  /** BEAM_*_SHIFT and BEAM_*_MASK for 64-bit words. */
  function ShiftOf(op: Op): nat {
    if op == Wide then 32 else 16
  }

  const MASK: Digit := 0xFFFF

  predicate IsShift(op: Op) {
    op == Tight || op == Loose || op == Wide
  }

  /** The operands up to the current position, the stack (top last) and the accumulator. */
  datatype State = State(code: seq<Digit>, stack: seq<Digit>, packed: Digit)

  function Last(s: seq<Digit>): Digit
    requires s != []
  {
    s[|s| - 1]
  }

  function Front(s: seq<Digit>): seq<Digit>
    requires s != []
  {
    s[..|s| - 1]
  }

  function Factor(op: Op): Digit {
    if op == Wide then 0x1_0000_0000 else 0x1_0000
  }

  /** The accumulator with one more field at its low end. */
  function Pushed(op: Op, packed: Digit, x: Digit): Digit {
    Bitwise.DOr((packed * Factor(op)) % B, x)
  }

  // ---------- one step ----------

  /** Whether the loader can execute the letter: something to read, and fields that fit. */
  predicate Ready(op: Op, s: State) {
    match op
    case Get => s.code != []
    case Init => s.code != []
    case Put => s.stack != []
    case PutPacked => true
    case _ => s.code != [] && Last(s.code) < Factor(op) && s.packed < B / Factor(op)
  }

  /** The loader's packing engine. */
  function Forward(op: Op, s: State): State
    requires Ready(op, s)
  {
    match op
    case Get => State(Front(s.code), s.stack + [Last(s.code)], s.packed)
    case Init => State(Front(s.code), s.stack, Last(s.code))
    case Put => State(s.code + [Last(s.stack)], Front(s.stack), s.packed)
    case PutPacked => State(s.code, s.stack + [s.packed], 0)
    case _ => State(Front(s.code), s.stack, Pushed(op, s.packed, Last(s.code)))
  }

  /** Whether the disassembler can undo the letter. */
  predicate Undoable(op: Op, s: State) {
    match op
    case Get => s.stack != []
    case Put => s.code != []
    case PutPacked => s.stack != []
    case _ => true
  }

  /** The disassembler, on the same letter. */
  function Backward(op: Op, s: State): State
    requires Undoable(op, s)
  {
    match op
    case Get => State(s.code + [Last(s.stack)], Front(s.stack), s.packed)
    case Init => State(s.code + [s.packed], s.stack, s.packed)
    case Put => State(Front(s.code), s.stack + [Last(s.code)], s.packed)
    case PutPacked => State(s.code, Front(s.stack), Last(s.stack))
    case _ => State(s.code + [Bitwise.DAnd(s.packed, MASK)], s.stack, s.packed / Factor(op))
  }

  /** The accumulator holds operands after i or a shift, until P stores them; then it is 0 again. */
  predicate Allowed(op: Op, loaded: bool) {
    match op
    case Init => !loaded
    case PutPacked => loaded
    case _ => true
  }

  function Loaded(op: Op, loaded: bool): bool {
    if op == Init || IsShift(op) then true else if op == PutPacked then false else loaded
  }

  predicate Clean(s: State, loaded: bool) {
    !loaded ==> s.packed == 0
  }

  /** Equal up to an accumulator that holds nothing. */
  predicate Same(s: State, t: State, loaded: bool) {
    s.code == t.code && s.stack == t.stack && (loaded ==> s.packed == t.packed)
  }

  lemma WideField(packed: int, x: int)
    requires 0 <= x < 0x1_0000_0000 && 0 <= packed < 0x1_0000_0000
    ensures var w := packed * 0x1_0000_0000 + x; w < B && w % 0x1_0000 == x % 0x1_0000 && w / 0x1_0000_0000 == packed
    ensures (packed * 0x1_0000_0000) % B == packed * 0x1_0000_0000
  {
    var w, low, high := packed * 0x1_0000_0000 + x, x % 0x1_0000, x / 0x1_0000;
    assert x == high * 0x1_0000 + low;
    RemainderIsMod(w, packed * 0x1_0000 + high, 0x1_0000, low);
    RemainderIsMod(w, packed, 0x1_0000_0000, x);
    RemainderIsMod(packed * 0x1_0000_0000, 0, B, packed * 0x1_0000_0000);
  }

  lemma NarrowField(packed: int, x: int)
    requires 0 <= x < 0x1_0000 && 0 <= packed < 0x1_0000_0000_0000
    ensures var w := packed * 0x1_0000 + x; w < B && w % 0x1_0000 == x && w / 0x1_0000 == packed
    ensures (packed * 0x1_0000) % B == packed * 0x1_0000
  {
    RemainderIsMod(packed * 0x1_0000 + x, packed, 0x1_0000, x);
    RemainderIsMod(packed * 0x1_0000, 0, B, packed * 0x1_0000);
  }

  lemma Field(op: Op, packed: Digit, x: Digit)
    requires IsShift(op) && x < Factor(op) && packed < B / Factor(op)
    ensures var w := packed * Factor(op) + x; w < B && w % 0x1_0000 == x % 0x1_0000 && w / Factor(op) == packed
    ensures (packed * Factor(op)) % B == packed * Factor(op) && Factor(op) == Bits.Pow2(ShiftOf(op))
  {
    Bits.WordSizes();
    Sixteen();
    hide Bits.Pow2;
    if op == Wide {
      WideField(packed, x);
    } else {
      NarrowField(packed, x);
      RemainderIsMod(x, 0, 0x1_0000, x);
    }
  }

  /** What the disassembler reads out of a word with one more field: the field below the mask, and the rest. */
  lemma PackedWord(op: Op, packed: Digit, x: Digit)
    requires IsShift(op) && x < Factor(op) && packed < B / Factor(op)
    ensures var w := Pushed(op, packed, x);
            w == packed * Factor(op) + x && Bitwise.DAnd(w, MASK) == x % 0x1_0000 && w / Factor(op) == packed
  {
    hide Pushed, Bitwise.DAnd, Factor;
    Field(op, packed, x);
    PushedIsSum(op, packed, x);
    MaskedWord(packed * Factor(op) + x);
  }

  lemma PushedIsSum(op: Op, packed: Digit, x: Digit)
    requires x < Factor(op) == Bits.Pow2(ShiftOf(op)) && packed * Factor(op) + x < B
    requires (packed * Factor(op)) % B == packed * Factor(op)
    ensures Pushed(op, packed, x) == packed * Factor(op) + x
  {
    hide Factor, ShiftOf, Bits.Pow2, Bits.Or, Bits.And;
    Bits.OrIsPlus(ShiftOf(op), packed, x);
  }

  lemma MaskedWord(w: Digit)
    ensures Bitwise.DAnd(w, MASK) == w % 0x1_0000
  {
    Sixteen();
    hide Bits.Pow2, Bits.And;
    var low, high := w % 0x1_0000, w / 0x1_0000;
    Bits.AndSplit(16, low, high, MASK, 0);
    Bits.AndNeutral(high);
    Bits.AndOnes(16, low);
  }

  lemma BelowMaskOnly(x: Digit)
    ensures x % 0x1_0000 == x <==> x <= MASK
  {
  }

  /** The wide field has a 16-bit mask: an operand that fits its 32-bit field comes back only if it fits the mask. */
  lemma MaskDecides(op: Op, packed: Digit, x: Digit)
    requires IsShift(op) && x < Factor(op) && packed < B / Factor(op)
    ensures Bitwise.DAnd(Pushed(op, packed, x), MASK) == x <==> x <= MASK
  {
    PackedWord(op, packed, x);
    BelowMaskOnly(x);
    hide Pushed, Bitwise.DAnd, Factor;
  }

  lemma Sixteen()
    ensures Bits.Pow2(16) == 0x1_0000
  {
    assert Bits.Pow2(8) == 256;
    hide Bits.Pow2;
    Bits.Pow2Add(8, 8);
  }

  /** A word that is right, or one that has been through the mask. */
  predicate NearWord(x: Digit, y: Digit) {
    x == y || x <= MASK
  }

  predicate NearWords(xs: seq<Digit>, ys: seq<Digit>) {
    |xs| == |ys| && forall i :: 0 <= i < |xs| ==> NearWord(xs[i], ys[i])
  }

  /** What unpacking can make of a state: every word is right or below the mask. */
  predicate Near(t: State, s: State, loaded: bool) {
    NearWords(t.code, s.code) && NearWords(t.stack, s.stack) && (loaded ==> NearWord(t.packed, s.packed))
  }

  lemma NearSnoc(xs: seq<Digit>, ys: seq<Digit>, x: Digit, y: Digit)
    requires NearWords(xs, ys) && NearWord(x, y)
    ensures NearWords(xs + [x], ys + [y])
    ensures xs + [x] == ys + [y] <==> xs == ys && x == y
  {
    if xs + [x] == ys + [y] {
      assert xs == (xs + [x])[..|xs|] && ys == (ys + [y])[..|xs|];
      assert x == (xs + [x])[|xs|] && y == (ys + [y])[|xs|];
    }
  }

  lemma NearFront(xs: seq<Digit>, ys: seq<Digit>)
    requires NearWords(xs, ys) && ys != []
    ensures xs != [] && NearWords(Front(xs), Front(ys)) && NearWord(Last(xs), Last(ys))
    ensures xs == ys <==> Front(xs) == Front(ys) && Last(xs) == Last(ys)
  {
    assert xs == Front(xs) + [Last(xs)] && ys == Front(ys) + [Last(ys)];
  }

  lemma FrontLast(s: seq<Digit>, x: Digit)
    ensures Front(s + [x]) == s && Last(s + [x]) == x
  {
  }

  /** Whether the operand that a letter packs fits the mask; only a wide one may not. */
  predicate Fits(op: Op, s: State)
    requires Ready(op, s)
  {
    IsShift(op) ==> Last(s.code) <= MASK
  }

  /** A word that differs and is below the mask unpacks to an operand or a rest that differs and is below the mask. */
  lemma UnpackNear(op: Op, packed: Digit, x: Digit, w: Digit)
    requires IsShift(op) && x < Factor(op) && packed < B / Factor(op) && NearWord(w, packed * Factor(op) + x)
    ensures NearWord(Bitwise.DAnd(w, MASK), x) && NearWord(w / Factor(op), packed)
    ensures Bitwise.DAnd(w, MASK) == x && w / Factor(op) == packed <==> w == packed * Factor(op) + x && x <= MASK
  {
    Field(op, packed, x);
    MaskedWord(w);
    if w != packed * Factor(op) + x {
      BelowMask(w, op);
    } else {
      BelowMaskOnly(x);
    }
    hide Factor, Bitwise.DAnd;
  }

  lemma BelowMask(w: Digit, op: Op)
    requires w <= MASK && IsShift(op)
    ensures w % 0x1_0000 == w && w / Factor(op) == 0
  {
  }

  /** A word moved from the end of one list to the end of another, and back. */
  lemma MoveBack(a: seq<Digit>, b: seq<Digit>, ta: seq<Digit>, tb: seq<Digit>)
    requires a != [] && NearWords(ta, Front(a)) && NearWords(tb, b + [Last(a)])
    ensures tb != [] && NearWords(ta + [Last(tb)], a) && NearWords(Front(tb), b)
    ensures ta + [Last(tb)] == a && Front(tb) == b <==> ta == Front(a) && tb == b + [Last(a)]
  {
    FrontLast(b, Last(a));
    NearFront(tb, b + [Last(a)]);
    assert a == Front(a) + [Last(a)];
    NearSnoc(ta, Front(a), Last(tb), Last(a));
  }

  /** A word stored from the accumulator to the end of a list, or read from there into it. */
  lemma StoreBack(a: seq<Digit>, x: Digit, ta: seq<Digit>)
    requires NearWords(ta, a + [x])
    ensures ta != [] && NearWords(Front(ta), a) && NearWord(Last(ta), x)
    ensures Front(ta) == a && Last(ta) == x <==> ta == a + [x]
  {
    FrontLast(a, x);
    NearFront(ta, a + [x]);
  }

  lemma FetchBack(a: seq<Digit>, ta: seq<Digit>, x: Digit)
    requires a != [] && NearWords(ta, Front(a)) && NearWord(x, Last(a))
    ensures NearWords(ta + [x], a)
    ensures ta + [x] == a <==> ta == Front(a) && x == Last(a)
  {
    assert a == Front(a) + [Last(a)];
    NearSnoc(ta, Front(a), x, Last(a));
  }

  /** Undoing a letter restores the state exactly if the state after it was right and its operand fits the mask. */
  lemma StepBack(op: Op, loaded: bool, s: State, t: State)
    requires Ready(op, s) && Allowed(op, loaded) && Clean(s, loaded)
    requires Near(t, Forward(op, s), Loaded(op, loaded))
    ensures Undoable(op, t) && Near(Backward(op, t), s, loaded)
    ensures Same(s, Backward(op, t), loaded) <==> Same(Forward(op, s), t, Loaded(op, loaded)) && Fits(op, s)
  {
    hide NearWords, NearWord, Front, Last, Bitwise.DAnd, Pushed;
    match op
    case Get => MoveBack(s.code, s.stack, t.code, t.stack);
    case Put => MoveBack(s.stack, s.code, t.stack, t.code);
    case Init => FetchBack(s.code, t.code, t.packed);
    case PutPacked => StoreBack(s.stack, s.packed, t.stack);
    case _ =>
      ShiftBack(op, s, t);
      if !loaded {
        FirstShiftBack(op, s, t);
      }
  }

  /** A word of one field has nothing above it. */
  lemma FirstShiftBack(op: Op, s: State, t: State)
    requires IsShift(op) && Ready(op, s) && s.packed == 0 && Near(t, Forward(op, s), true)
    ensures Backward(op, t).packed == 0
  {
    PackedWord(op, 0, Last(s.code));
    hide Pushed, Bitwise.DAnd;
  }

  lemma ShiftBack(op: Op, s: State, t: State)
    requires IsShift(op) && Ready(op, s) && Near(t, Forward(op, s), true)
    ensures Near(Backward(op, t), s, true)
    ensures Same(s, Backward(op, t), true) <==> Same(Forward(op, s), t, true) && Fits(op, s)
  {
    hide NearWords, NearWord, Front, Last, Bitwise.DAnd, Pushed;
    PackedWord(op, s.packed, Last(s.code));
    UnpackNear(op, s.packed, Last(s.code), t.packed);
    FetchBack(s.code, t.code, Bitwise.DAnd(t.packed, MASK));
  }

  // ---------- whole programs ----------

  /** A well-formed program on operands that fit: every letter can be executed, every operand fits its field, and nothing stays packed. */
  predicate Runs(prog: seq<Op>, s: State, loaded: bool) {
    if prog == [] then !loaded && s.stack == []
    else Allowed(prog[0], loaded) && Ready(prog[0], s) && Runs(prog[1..], Forward(prog[0], s), Loaded(prog[0], loaded))
  }

  function Run(prog: seq<Op>, s: State, loaded: bool): State
    requires Runs(prog, s, loaded)
  {
    if prog == [] then s else Run(prog[1..], Forward(prog[0], s), Loaded(prog[0], loaded))
  }

  /** The last letter is undone first. */
  predicate Reverses(prog: seq<Op>, t: State)
    decreases |prog|, 0
  {
    prog == [] || (Reverses(prog[1..], t) && Undoable(prog[0], Reverse(prog[1..], t)))
  }

  function Reverse(prog: seq<Op>, t: State): State
    requires Reverses(prog, t)
    decreases |prog|, 1
  {
    if prog == [] then t else Backward(prog[0], Reverse(prog[1..], t))
  }

  /** Every operand that the program packs fits the mask. */
  predicate AllFit(prog: seq<Op>, s: State, loaded: bool)
    requires Runs(prog, s, loaded)
  {
    prog == [] || (Fits(prog[0], s) && AllFit(prog[1..], Forward(prog[0], s), Loaded(prog[0], loaded)))
  }

  /** A program run forwards and then backwards restores operands and stack if and only if every packed operand fits the mask. */
  lemma {:induction false} RoundTrip(prog: seq<Op>, s: State, loaded: bool, t: State)
    requires Runs(prog, s, loaded) && Clean(s, loaded) && Near(t, Run(prog, s, loaded), false)
    ensures Reverses(prog, t) && Near(Reverse(prog, t), s, loaded)
    ensures Same(s, Reverse(prog, t), loaded) <==> Same(Run(prog, s, loaded), t, false) && AllFit(prog, s, loaded)
  {
    hide Near, Same, Forward, Backward, Fits;
    if prog == [] {
      NothingPacked(s, t);
    } else {
      StaysClean(prog[0], s, loaded);
      RoundTrip(prog[1..], Forward(prog[0], s), Loaded(prog[0], loaded), t);
      StepBack(prog[0], loaded, s, Reverse(prog[1..], t));
    }
  }

  lemma StaysClean(op: Op, s: State, loaded: bool)
    requires Ready(op, s) && Allowed(op, loaded) && Clean(s, loaded)
    ensures Clean(Forward(op, s), Loaded(op, loaded))
  {
  }

  lemma NothingPacked(s: State, t: State)
    ensures Same(s, t, false) <==> Same(t, s, false)
  {
  }

  // ---------- the two interpreters ----------

  /** The packing engine of load_code. */
  method Pack(prog: seq<Op>, operands: seq<Digit>) returns (code: seq<Digit>)
    requires Runs(prog, State(operands, [], 0), false)
    ensures code == Run(prog, State(operands, [], 0), false).code
  {
    hide Runs, Run, Forward;
    var stack: seq<Digit>, packed: Digit := [], 0;
    code := operands;
    ghost var loaded, all := false, Run(prog, State(operands, [], 0), false);
    var i := 0;
    assert prog[0..] == prog;
    while i < |prog|
      invariant 0 <= i <= |prog| && Runs(prog[i..], State(code, stack, packed), loaded)
      invariant Run(prog[i..], State(code, stack, packed), loaded) == all
    {
      RunStep(prog, i, State(code, stack, packed), loaded);
      ghost var s := State(code, stack, packed);
      match prog[i] {
        case Get => stack, code := stack + [Last(code)], Front(code);
        case Init => packed, code := Last(code), Front(code);
        case Put => code, stack := code + [Last(stack)], Front(stack);
        case PutPacked => stack, packed := stack + [packed], 0;
        case _ => packed, code := Pushed(prog[i], packed, Last(code)), Front(code);
      }
      ForwardIs(prog[i], s, State(code, stack, packed));
      loaded := Loaded(prog[i], loaded);
      i := i + 1;
    }
    assert prog[i..] == [];
    RunEnd(State(code, stack, packed), loaded);
  }

  lemma RunStep(prog: seq<Op>, i: nat, s: State, loaded: bool)
    requires i < |prog| && Runs(prog[i..], s, loaded)
    ensures Ready(prog[i], s) && Runs(prog[i + 1..], Forward(prog[i], s), Loaded(prog[i], loaded))
    ensures Run(prog[i..], s, loaded) == Run(prog[i + 1..], Forward(prog[i], s), Loaded(prog[i], loaded))
  {
    assert prog[i..][1..] == prog[i + 1..];
  }

  lemma RunEnd(s: State, loaded: bool)
    requires Runs([], s, loaded)
    ensures Run([], s, loaded) == s
  {
  }

  lemma ForwardIs(op: Op, s: State, s': State)
    requires Ready(op, s)
    requires match op
             case Get => s' == State(Front(s.code), s.stack + [Last(s.code)], s.packed)
             case Init => s' == State(Front(s.code), s.stack, Last(s.code))
             case Put => s' == State(s.code + [Last(s.stack)], Front(s.stack), s.packed)
             case PutPacked => s' == State(s.code, s.stack + [s.packed], 0)
             case _ => s' == State(Front(s.code), s.stack, Pushed(op, s.packed, Last(s.code)))
    ensures s' == Forward(op, s)
  {
  }

  /** The unpacking loop of print_op restores the operands the loader packed. */
  method Unpack(prog: seq<Op>, code: seq<Digit>, ghost operands: seq<Digit>) returns (args: seq<Digit>)
    requires Runs(prog, State(operands, [], 0), false)
    requires code == Run(prog, State(operands, [], 0), false).code
    ensures args == operands <==> AllFit(prog, State(operands, [], 0), false)
  {
    hide Runs, Run, Backward, Reverse, Reverses, AllFit;
    args := code;
    var stack: seq<Digit>, packed: Digit := [], 0;
    ghost var t := State(code, [], 0);
    EndsEmpty(prog, State(operands, [], 0), false);
    NearItself(t, Run(prog, State(operands, [], 0), false));
    RoundTrip(prog, State(operands, [], 0), false, t);
    var i := |prog|;
    assert prog[..|prog|] == prog;
    ReverseStart(prog, t);
    while i > 0
      invariant 0 <= i <= |prog| && Reverses(prog[i..], t) && Reverse(prog[i..], t) == State(args, stack, packed)
    {
      i := i - 1;
      ReverseStep(prog, i, t);
      ghost var s := State(args, stack, packed);
      match prog[i] {
        case Get => args, stack := args + [Last(stack)], Front(stack);
        case Init => args := args + [packed];
        case Put => stack, args := stack + [Last(args)], Front(args);
        case PutPacked => packed, stack := Last(stack), Front(stack);
        case _ => args, packed := args + [Bitwise.DAnd(packed, MASK)], packed / Factor(prog[i]);
      }
      BackwardIs(prog[i], s, State(args, stack, packed));
    }
    assert prog[0..] == prog;
    StackFollows(State(operands, [], 0), State(args, stack, packed));
  }

  lemma NearItself(t: State, s: State)
    requires t.code == s.code && t.stack == s.stack
    ensures Near(t, s, false) && Same(s, t, false)
  {
  }

  /** A stack as short as an empty one is empty. */
  lemma StackFollows(s: State, t: State)
    requires s.stack == [] && Near(t, s, false)
    ensures Same(s, t, false) <==> t.code == s.code
  {
  }

  lemma {:induction false} EndsEmpty(prog: seq<Op>, s: State, loaded: bool)
    requires Runs(prog, s, loaded)
    ensures Run(prog, s, loaded).stack == []
  {
    if prog != [] {
      EndsEmpty(prog[1..], Forward(prog[0], s), Loaded(prog[0], loaded));
    }
  }

  lemma ReverseStart(prog: seq<Op>, t: State)
    ensures Reverses(prog[|prog|..], t) && Reverse(prog[|prog|..], t) == t
  {
  }

  lemma {:induction false} SuffixReverses(prog: seq<Op>, i: nat, t: State)
    requires i <= |prog| && Reverses(prog, t)
    ensures Reverses(prog[i..], t)
  {
    if i > 0 {
      SuffixReverses(prog[1..], i - 1, t);
      assert prog[1..][i - 1..] == prog[i..];
    } else {
      assert prog[0..] == prog;
    }
  }

  lemma ReverseStep(prog: seq<Op>, i: nat, t: State)
    requires i < |prog| && Reverses(prog, t)
    ensures Reverses(prog[i..], t) && Reverses(prog[i + 1..], t) && Undoable(prog[i], Reverse(prog[i + 1..], t))
    ensures Reverse(prog[i..], t) == Backward(prog[i], Reverse(prog[i + 1..], t))
  {
    SuffixReverses(prog, i, t);
    assert prog[i..][1..] == prog[i + 1..];
  }

  lemma BackwardIs(op: Op, s: State, s': State)
    requires Undoable(op, s)
    requires match op
             case Get => s' == State(s.code + [Last(s.stack)], Front(s.stack), s.packed)
             case Init => s' == State(s.code + [s.packed], s.stack, s.packed)
             case Put => s' == State(Front(s.code), s.stack + [Last(s.code)], s.packed)
             case PutPacked => s' == State(s.code, Front(s.stack), Last(s.stack))
             case _ => s' == State(s.code + [Bitwise.DAnd(s.packed, MASK)], s.stack, s.packed / Factor(op))
    ensures s' == Backward(op, s)
  {
  }
}

/**
 * The pack programs themselves (erts/emulator/utils/beam_makeops): for every instruction with
 * packable operands the generator emits a program for the loader's packing engine, and for the
 * emulator an expression that reads each operand out of the packed words.
 */
module PackTables {
  import opened Digits
  import opened Packer
  import opened Sequences
  import Bitwise

  /** Two, three or four 16-bit fields in a word, or two 32-bit fields. */
  datatype Packing = Two | Three | Four | WideTwo

  /** args_per_word. */
  function PerWord(k: Packing): nat {
    match k
    case Three => 3
    case Four => 4
    case _ => 2
  }

  /** pack_instr: the last field of a word is the first to be loaded. */
  function Letter(k: Packing, place: nat): Op
    requires place < PerWord(k)
  {
    if place == PerWord(k) - 1 then Init
    else match k
      case Three => Tight
      case WideTwo => Packer.Wide
      case _ => Loose
  }

  function Unit(k: Packing): Digit {
    if k == WideTwo then 0x1_0000_0000 else 0x1_0000
  }

  /** pack_shift, as a factor. */
  function Weight(k: Packing, place: nat): Digit
    requires place < PerWord(k)
  {
    if place == 0 then 1 else if place == 1 then Unit(k) else if place == 2 then 0x1_0000_0000 else 0x1_0000_0000_0000
  }

  // ---------- the generator ----------

  function Packables(ps: seq<bool>): nat {
    if ps == [] then 0 else Packables(ps[..|ps| - 1]) + if ps[|ps| - 1] then 1 else 0
  }

  /** The place of the next packable operand within its word. */
  function Place(k: Packing, ps: seq<bool>): (p: nat)
    ensures p < PerWord(k)
  {
    Packables(ps) % PerWord(k)
  }

  /** The place after `place`, in the same word or the next. */
  function NextOf(k: Packing, place: nat): (p: nat)
    requires place < PerWord(k)
    ensures p < PerWord(k)
  {
    if place + 1 == PerWord(k) then 0 else place + 1
  }

  /** The commands that take operands off, towards the beginning of the instruction. */
  function Down(k: Packing, ps: seq<bool>): seq<Op> {
    if Packables(ps) == 0 then []
    else
      var front := ps[..|ps| - 1];
      if !ps[|ps| - 1] then [Get] + Down(k, front)
      else if Place(k, front) == 0 then [Letter(k, 0), PutPacked] + Down(k, front)
      else [Letter(k, Place(k, front))] + Down(k, front)
  }

  /** The number of words that are put back. */
  function Puts(k: Packing, ps: seq<bool>): nat {
    if Packables(ps) == 0 then 0
    else
      var front := ps[..|ps| - 1];
      Puts(k, front) + if ps[|ps| - 1] && Place(k, front) != 0 then 0 else 1
  }

  /** The number of words of the packed instruction. */
  function Size(k: Packing, ps: seq<bool>): nat {
    if ps == [] then 0
    else
      var front := ps[..|ps| - 1];
      Size(k, front) + if ps[|ps| - 1] && Place(k, front) != 0 then 0 else 1
  }

  /** The word that the last packable operand went to. */
  function OpenWord(k: Packing, ps: seq<bool>): nat {
    if ps == [] then 0
    else
      var front := ps[..|ps| - 1];
      if ps[|ps| - 1] && Place(k, front) == 0 then Size(k, front) else OpenWord(k, front)
  }

  /** How the emulator reads an operand: a whole word, or a field of a packed one. */
  datatype Read = Whole(word: nat) | Field(word: nat, place: nat)

  /** How operand `i` is read. */
  function ReadOf(k: Packing, ps: seq<bool>, i: nat): (r: Read)
    requires i < |ps|
    ensures r.Field? ==> r.place < PerWord(k)
  {
    var front := ps[..i];
    if !ps[i] then Whole(Size(k, front))
    else Field(if Place(k, front) == 0 then Size(k, front) else OpenWord(k, front), Place(k, front))
  }

  /** One more operand. */
  lemma Generated(k: Packing, ps: seq<bool>)
    requires ps != []
    ensures var front, packable := ps[..|ps| - 1], ps[|ps| - 1];
            && Packables(ps) == Packables(front) + (if packable then 1 else 0)
            && Place(k, ps) == (if packable then NextOf(k, Place(k, front)) else Place(k, front))
            && Down(k, ps)
               == (if !packable then if Packables(front) > 0 then [Get] + Down(k, front) else Down(k, front)
                   else [Letter(k, Place(k, front))]
                        + if Place(k, front) == 0 then [PutPacked] + Down(k, front) else Down(k, front))
            && Puts(k, ps)
               == Puts(k, front) + (if (packable && Place(k, front) == 0) || (!packable && Packables(front) > 0) then 1 else 0)
            && Size(k, ps) == Size(k, front) + (if packable && Place(k, front) != 0 then 0 else 1)
            && OpenWord(k, ps) == if packable && Place(k, front) == 0 then Size(k, front) else OpenWord(k, front)
  {
    var front := ps[..|ps| - 1];
    NextPlace(k, front);
    assert Packables(front) == 0 ==> Place(k, front) == 0;
  }

  /** The variables of do_pack. */
  datatype Generator = Generator(down: seq<Op>, up: seq<Op>, size: nat, ap: nat, word: nat, packing: bool)

  function GeneratorAt(k: Packing, ps: seq<bool>): Generator {
    Generator(Down(k, ps), seq(Puts(k, ps), _ => Put), Size(k, ps), Place(k, ps), OpenWord(k, ps), Packables(ps) > 0)
  }

  /** One pass of the loop of do_pack. */
  method Operand(k: Packing, packable: bool, g: Generator, ghost front: seq<bool>) returns (g': Generator, r: Read)
    requires g == GeneratorAt(k, front)
    ensures g' == GeneratorAt(k, front + [packable]) && r == ReadOf(k, front + [packable], |front|)
  {
    ghost var ps := front + [packable];
    assert ps[..|ps| - 1] == front && ps[|ps| - 1] == packable && ps[..|front|] == front;
    Generated(k, ps);
    hide Down, Puts, Size, OpenWord, Place, Packables, Letter, PerWord;
    g' := g;
    if packable {
      if g.ap == 0 {
        g' := g'.(word := g.size, size := g.size + 1, up := g.up + [Put], down := [PutPacked] + g.down);
      }
      r := Field(g'.word, g.ap);
      g' := g'.(packing := true, down := [Letter(k, g.ap)] + g'.down, ap := NextOf(k, g.ap));
    } else {
      if g.packing {
        g' := g'.(down := [Get] + g.down, up := g.up + [Put]);
      }
      r := Whole(g.size);
      g' := g'.(size := g.size + 1);
    }
  }

  /** do_pack. */
  method DoPack(k: Packing, ps: seq<bool>) returns (prog: seq<Op>, access: seq<Read>)
    ensures prog == Down(k, ps) + seq(Puts(k, ps), _ => Put)
    ensures |access| == |ps| && forall i :: 0 <= i < |ps| ==> access[i] == ReadOf(k, ps, i)
  {
    hide ReadOf;
    var g := Generator([], [], 0, 0, 0, false);
    access := [];
    assert ps[..0] == [];
    for i := 0 to |ps|
      invariant g == GeneratorAt(k, ps[..i])
      invariant |access| == i && forall j :: 0 <= j < i ==> access[j] == ReadOf(k, ps, j)
    {
      hide GeneratorAt;
      var r;
      g, r := Operand(k, ps[i], g, ps[..i]);
      assert ps[..i + 1] == ps[..i] + [ps[i]];
      SameRead(k, ps, i);
      access := access + [r];
    }
    assert ps[..|ps|] == ps;
    prog := g.down + g.up;
  }

  /** How an operand is read depends on the operands before it only. */
  lemma SameRead(k: Packing, ps: seq<bool>, i: nat)
    requires i < |ps|
    ensures ReadOf(k, ps[..i] + [ps[i]], i) == ReadOf(k, ps, i)
  {
    assert (ps[..i] + [ps[i]])[..i] == ps[..i];
  }

  lemma NextPlace(k: Packing, ps: seq<bool>)
    ensures (Packables(ps) + 1) % PerWord(k) == if Place(k, ps) + 1 == PerWord(k) then 0 else Place(k, ps) + 1
  {
    var n := PerWord(k);
    var q, r := Packables(ps) / n, Packables(ps) % n;
    assert Packables(ps) == q * n + r;
    if r + 1 == n {
      assert Packables(ps) + 1 == (q + 1) * n;
      RemainderIsMod(Packables(ps) + 1, q + 1, n, 0);
    } else {
      RemainderIsMod(Packables(ps) + 1, q, n, r + 1);
    }
  }

  // ---------- the packed instruction ----------

  /** The operands fit their fields; the last field of a word has all the rest of it. */
  predicate Fit(k: Packing, ps: seq<bool>, xs: seq<Digit>)
    requires |xs| == |ps|
  {
    forall i :: 0 <= i < |ps| && ps[i] ==> InField(k, Place(k, ps[..i]), xs[i])
  }

  predicate InField(k: Packing, place: nat, x: Digit)
    requires place < PerWord(k)
  {
    if place == PerWord(k) - 1 then x < B / Weight(k, place) else x < Unit(k)
  }

  /** The accumulator with one more operand at place `place`. */
  function Loading(k: Packing, place: nat, acc: Digit, x: Digit): Digit
    requires place < PerWord(k)
  {
    if place == PerWord(k) - 1 then x else (acc * Unit(k) + x) % B
  }

  /** The accumulator leaves room for the fields below `place`; it is empty between words. */
  predicate Room(k: Packing, place: nat, acc: Digit)
    requires place < PerWord(k)
  {
    if place == 0 then acc == 0 else acc < B / Weight(k, place)
  }

  lemma RoomLeft(k: Packing, place: nat, acc: Digit, x: Digit)
    requires place < PerWord(k) && InField(k, place, x) && Room(k, NextOf(k, place), acc)
    ensures Loading(k, place, acc, x) < B / Weight(k, place)
    ensures place != PerWord(k) - 1 ==> Loading(k, place, acc, x) == acc * Unit(k) + x && acc < B / Unit(k)
    ensures place > 0 ==> Room(k, place, Loading(k, place, acc, x))
  {
  }

  /** Operands in front of the first packable one stay where they are. */
  function Kept(ps: seq<bool>, xs: seq<Digit>): seq<Digit>
    requires |xs| == |ps|
  {
    if Packables(ps) == 0 then xs else Kept(ps[..|ps| - 1], xs[..|xs| - 1])
  }

  /** The accumulator that the operands before the last one meet. */
  function Below(k: Packing, ps: seq<bool>, xs: seq<Digit>, acc: Digit): Digit
    requires |xs| == |ps| > 0
  {
    var n := |ps| - 1;
    if !ps[n] then acc else if Place(k, ps[..n]) == 0 then 0 else Loading(k, Place(k, ps[..n]), acc, xs[n])
  }

  /** The word that the last operand completes, if it does. */
  function Completed(k: Packing, ps: seq<bool>, xs: seq<Digit>, acc: Digit): seq<Digit>
    requires |xs| == |ps| > 0
  {
    var n := |ps| - 1;
    if !ps[n] then [xs[n]] else if Place(k, ps[..n]) == 0 then [Loading(k, 0, acc, xs[n])] else []
  }

  /** The words that take the place of the others; `acc` holds later operands of the last word. */
  function Moved(k: Packing, ps: seq<bool>, xs: seq<Digit>, acc: Digit): seq<Digit>
    requires |xs| == |ps|
  {
    if Packables(ps) == 0 then []
    else
      var n := |ps| - 1;
      Moved(k, ps[..n], xs[..n], Below(k, ps, xs, acc)) + Completed(k, ps, xs, acc)
  }

  /** The operand words of the packed instruction. */
  function Packed(k: Packing, ps: seq<bool>, xs: seq<Digit>, acc: Digit): seq<Digit>
    requires |xs| == |ps|
  {
    Kept(ps, xs) + Moved(k, ps, xs, acc)
  }

  lemma PackedStep(k: Packing, ps: seq<bool>, xs: seq<Digit>, acc: Digit)
    requires |xs| == |ps| > 0
    ensures var n := |ps| - 1;
            Packed(k, ps, xs, acc)
            == Packed(k, ps[..n], xs[..n], Below(k, ps, xs, acc)) + Completed(k, ps, xs, acc)
  {
    hide Below, Completed;
    var n := |ps| - 1;
    if Packables(ps) == 0 {
      assert Completed(k, ps, xs, acc) == [xs[n]] by { PlainCompletes(k, ps, xs, acc); }
      assert xs == xs[..n] + [xs[n]];
    } else if Packables(ps[..n]) == 0 {
      assert Kept(ps, xs) == xs[..n];
    }
  }

  lemma PlainCompletes(k: Packing, ps: seq<bool>, xs: seq<Digit>, acc: Digit)
    requires |xs| == |ps| > 0 && Packables(ps) == 0
    ensures Completed(k, ps, xs, acc) == [xs[|xs| - 1]]
  {
  }

  lemma {:induction false} PackedSize(k: Packing, ps: seq<bool>, xs: seq<Digit>, acc: Digit)
    requires |xs| == |ps|
    ensures |Packed(k, ps, xs, acc)| == Size(k, ps)
  {
    if ps != [] {
      PackedStep(k, ps, xs, acc);
      PackedSize(k, ps[..|ps| - 1], xs[..|ps| - 1], Below(k, ps, xs, acc));
    }
  }

  lemma {:induction false} MovedSize(k: Packing, ps: seq<bool>, xs: seq<Digit>, acc: Digit)
    requires |xs| == |ps|
    ensures |Moved(k, ps, xs, acc)| == Puts(k, ps)
  {
    if Packables(ps) > 0 {
      MovedSize(k, ps[..|ps| - 1], xs[..|ps| - 1], Below(k, ps, xs, acc));
    }
  }

  // ---------- the engine runs the program ----------

  lemma FitFront(k: Packing, ps: seq<bool>, xs: seq<Digit>)
    requires |xs| == |ps| > 0 && Fit(k, ps, xs)
    ensures var n := |ps| - 1;
            Fit(k, ps[..n], xs[..n]) && (ps[n] ==> InField(k, Place(k, ps[..n]), xs[n]))
  {
    hide InField;
    var n := |ps| - 1;
    forall i | 0 <= i < n && ps[..n][i]
      ensures InField(k, Place(k, ps[..n][..i]), xs[..n][i])
    {
      assert ps[..n][..i] == ps[..i];
    }
  }

  /** One letter for a packable operand. */
  lemma LetterRuns(k: Packing, place: nat, code: seq<Digit>, st: seq<Digit>, acc: Digit)
    requires place < PerWord(k) && code != [] && InField(k, place, Last(code)) && Room(k, NextOf(k, place), acc)
    ensures var op, s := Letter(k, place), State(code, st, acc);
            Ready(op, s) && Forward(op, s) == State(Front(code), st, Loading(k, place, acc, Last(code)))
  {
    var op, x := Letter(k, place), Last(code);
    RoomLeft(k, place, acc, x);
    if op != Init {
      PackedWord(op, acc, x);
    }
  }

  lemma RunCons(op: Op, prog: seq<Op>, s: State, loaded: bool)
    requires Ready(op, s) && Allowed(op, loaded) && Runs(prog, Forward(op, s), Loaded(op, loaded))
    ensures Runs([op] + prog, s, loaded)
    ensures Run([op] + prog, s, loaded) == Run(prog, Forward(op, s), Loaded(op, loaded))
  {
    assert ([op] + prog)[1..] == prog;
  }

  lemma GetRuns(prog: seq<Op>, code: seq<Digit>, st: seq<Digit>, acc: Digit, loaded: bool)
    requires code != [] && Runs(prog, State(Front(code), st + [Last(code)], acc), loaded)
    ensures Runs([Get] + prog, State(code, st, acc), loaded)
    ensures Run([Get] + prog, State(code, st, acc), loaded) == Run(prog, State(Front(code), st + [Last(code)], acc), loaded)
  {
    RunCons(Get, prog, State(code, st, acc), loaded);
  }

  lemma FieldRuns(k: Packing, place: nat, prog: seq<Op>, code: seq<Digit>, st: seq<Digit>, acc: Digit, loaded: bool)
    requires place < PerWord(k) && code != [] && InField(k, place, Last(code)) && Room(k, NextOf(k, place), acc)
    requires loaded ==> NextOf(k, place) > 0
    requires Runs(prog, State(Front(code), st, Loading(k, place, acc, Last(code))), true)
    ensures Runs([Letter(k, place)] + prog, State(code, st, acc), loaded)
    ensures Run([Letter(k, place)] + prog, State(code, st, acc), loaded)
            == Run(prog, State(Front(code), st, Loading(k, place, acc, Last(code))), true)
  {
    LetterRuns(k, place, code, st, acc);
    hide Forward, Ready, Loading;
    RunCons(Letter(k, place), prog, State(code, st, acc), loaded);
  }

  lemma StoreRuns(prog: seq<Op>, code: seq<Digit>, st: seq<Digit>, acc: Digit)
    requires Runs(prog, State(code, st + [acc], 0), false)
    ensures Runs([PutPacked] + prog, State(code, st, acc), true)
    ensures Run([PutPacked] + prog, State(code, st, acc), true) == Run(prog, State(code, st + [acc], 0), false)
  {
    RunCons(PutPacked, prog, State(code, st, acc), true);
  }

  /** What meets the operands before the last one, and whether the accumulator is in use. */
  function Handed(k: Packing, ps: seq<bool>, xs: seq<Digit>, acc: Digit, st: seq<Digit>): State
    requires |xs| == |ps| > 0
  {
    State(xs[..|ps| - 1], st + Completed(k, ps, xs, acc), Below(k, ps, xs, acc))
  }

  function InUse(k: Packing, ps: seq<bool>, loaded: bool): bool
    requires |ps| > 0
  {
    if ps[|ps| - 1] then Place(k, ps[..|ps| - 1]) > 0 else loaded
  }

  /** The commands for the last operand. */
  lemma DownStep(k: Packing, ps: seq<bool>, xs: seq<Digit>, acc: Digit, loaded: bool, st: seq<Digit>, more: seq<Op>)
    requires |xs| == |ps| && Packables(ps) > 0 && Fit(k, ps, xs) && Room(k, Place(k, ps), acc)
    requires loaded ==> Place(k, ps) > 0
    requires Runs(Down(k, ps[..|ps| - 1]) + more, Handed(k, ps, xs, acc, st), InUse(k, ps, loaded))
    ensures Runs(Down(k, ps) + more, State(xs, st, acc), loaded)
    ensures Run(Down(k, ps) + more, State(xs, st, acc), loaded)
            == Run(Down(k, ps[..|ps| - 1]) + more, Handed(k, ps, xs, acc, st), InUse(k, ps, loaded))
  {
    hide Runs, Run, Loading, Room, Letter, InField;
    var n := |ps| - 1;
    var front, place := ps[..n], Place(k, ps[..n]);
    var rest := Down(k, front) + more;
    FitFront(k, ps, xs);
    NextPlace(k, front);
    assert Last(xs) == xs[n] && Front(xs) == xs[..n];
    if !ps[n] {
      assert Down(k, ps) + more == [Get] + rest;
      GetRuns(rest, xs, st, acc, loaded);
    } else if place == 0 {
      assert Down(k, ps) + more == [Letter(k, 0)] + ([PutPacked] + rest);
      StoreRuns(rest, xs[..n], st, Loading(k, 0, acc, xs[n]));
      FieldRuns(k, 0, [PutPacked] + rest, xs, st, acc, loaded);
    } else {
      assert Down(k, ps) + more == [Letter(k, place)] + rest;
      assert st + [] == st;
      FieldRuns(k, place, rest, xs, st, acc, loaded);
    }
  }

  lemma RoomBelow(k: Packing, ps: seq<bool>, xs: seq<Digit>, acc: Digit)
    requires |xs| == |ps| > 0 && Fit(k, ps, xs) && Room(k, Place(k, ps), acc)
    ensures Room(k, Place(k, ps[..|ps| - 1]), Below(k, ps, xs, acc))
  {
    var n := |ps| - 1;
    FitFront(k, ps, xs);
    NextPlace(k, ps[..n]);
    if ps[n] {
      RoomLeft(k, Place(k, ps[..n]), acc, xs[n]);
    }
    hide Loading;
  }

  /** The commands that take operands off leave the new words on the stack, the first one on top. */
  lemma {:induction false} DownRuns(k: Packing, ps: seq<bool>, xs: seq<Digit>, acc: Digit, loaded: bool,
                                    st: seq<Digit>, more: seq<Op>)
    requires |xs| == |ps| && Fit(k, ps, xs) && Room(k, Place(k, ps), acc)
    requires (loaded ==> Place(k, ps) > 0) && (Packables(ps) == 0 ==> acc == 0)
    requires Runs(more, State(Kept(ps, xs), st + Reversed(Moved(k, ps, xs, acc)), 0), false)
    ensures Runs(Down(k, ps) + more, State(xs, st, acc), loaded)
    ensures Run(Down(k, ps) + more, State(xs, st, acc), loaded)
            == Run(more, State(Kept(ps, xs), st + Reversed(Moved(k, ps, xs, acc)), 0), false)
    decreases |ps|
  {
    hide Runs, Run, Room, Fit, Below, Completed;
    if Packables(ps) == 0 {
      assert [] + more == more && st + [] == st;
    } else {
      var n := |ps| - 1;
      var done := Completed(k, ps, xs, acc);
      FitFront(k, ps, xs);
      RoomBelow(k, ps, xs, acc);
      StackGrows(k, ps, xs, acc, st);
      StillEmpty(k, ps, xs, acc, loaded);
      DownRuns(k, ps[..n], xs[..n], Below(k, ps, xs, acc), InUse(k, ps, loaded), st + done, more);
      DownStep(k, ps, xs, acc, loaded, st, more);
    }
  }

  lemma StillEmpty(k: Packing, ps: seq<bool>, xs: seq<Digit>, acc: Digit, loaded: bool)
    requires |xs| == |ps| && Packables(ps) > 0 && (loaded ==> Place(k, ps) > 0)
    ensures InUse(k, ps, loaded) ==> Place(k, ps[..|ps| - 1]) > 0
    ensures Packables(ps[..|ps| - 1]) == 0 ==> Below(k, ps, xs, acc) == 0
  {
  }

  lemma StackGrows(k: Packing, ps: seq<bool>, xs: seq<Digit>, acc: Digit, st: seq<Digit>)
    requires |xs| == |ps| && Packables(ps) > 0
    ensures var n, done := |ps| - 1, Completed(k, ps, xs, acc);
            st + Reversed(Moved(k, ps, xs, acc))
            == (st + done) + Reversed(Moved(k, ps[..n], xs[..n], Below(k, ps, xs, acc)))
  {
    var n, done := |ps| - 1, Completed(k, ps, xs, acc);
    var before := Moved(k, ps[..n], xs[..n], Below(k, ps, xs, acc));
    assert Moved(k, ps, xs, acc) == before + done && |done| <= 1;
    hide Moved, Below, Completed, Packables;
    ReversedOneMore(before, done, st);
  }

  lemma ReversedOneMore(before: seq<Digit>, done: seq<Digit>, st: seq<Digit>)
    requires |done| <= 1
    ensures st + Reversed(before + done) == (st + done) + Reversed(before)
  {
    hide Reversed;
    if done == [] {
      assert before + done == before && st + done == st;
    } else {
      assert done == [done[0]];
      ReversedSnoc(before, done[0]);
      assert (st + done) + Reversed(before) == st + ([done[0]] + Reversed(before));
    }
  }

  lemma PutRuns(prog: seq<Op>, code: seq<Digit>, st: seq<Digit>, w: Digit)
    requires Runs(prog, State(code + [w], st, 0), false)
    ensures Runs([Put] + prog, State(code, st + [w], 0), false)
    ensures Run([Put] + prog, State(code, st + [w], 0), false) == Run(prog, State(code + [w], st, 0), false)
  {
    var s := State(code, st + [w], 0);
    FrontLast(st, w);
    assert Forward(Put, s) == State(code + [w], st, 0);
    RunCons(Put, prog, s, false);
  }

  lemma NothingToPut(code: seq<Digit>)
    ensures Runs(seq(0, _ => Put), State(code, [], 0), false)
    ensures Run(seq(0, _ => Put), State(code, [], 0), false).code == code
  {
  }

  /** Putting the words back. */
  lemma {:induction false} PutsRun(code: seq<Digit>, ws: seq<Digit>)
    ensures var prog := seq(|ws|, _ => Put);
            && Runs(prog, State(code, Reversed(ws), 0), false)
            && Run(prog, State(code, Reversed(ws), 0), false).code == code + ws
    decreases |ws|
  {
    hide Runs, Run;
    if ws == [] {
      NothingToPut(code);
      assert code + ws == code;
    } else {
      var fewer := seq(|ws[1..]|, _ => Put);
      PutsRun(code + [ws[0]], ws[1..]);
      PutRuns(fewer, code, Reversed(ws[1..]), ws[0]);
      assert seq(|ws|, _ => Put) == [Put] + fewer;
      assert code + ws == (code + [ws[0]]) + ws[1..];
    }
  }

  // ---------- the emulator reads the operands ----------

  /** The unpacking expression of make_unpack: a shift, and the mask except for the last field. */
  function ReadValue(k: Packing, ws: seq<Digit>, r: Read): Digit
    requires r.word < |ws| && (r.Field? ==> r.place < PerWord(k))
  {
    if r.Whole? then ws[r.word]
    else
      var v := ws[r.word] / Weight(k, r.place);
      if r.place == PerWord(k) - 1 then v else Bitwise.DAnd(v, MASK)
  }

  lemma {:induction false} WordsInRange(k: Packing, ps: seq<bool>)
    ensures Packables(ps) > 0 ==> OpenWord(k, ps) < Size(k, ps)
  {
    if ps != [] {
      WordsInRange(k, ps[..|ps| - 1]);
      if Packables(ps[..|ps| - 1]) == 0 {
        assert Place(k, ps[..|ps| - 1]) == 0;
      }
    }
  }

  /** The accumulator ends up above the fields that are loaded after it. */
  lemma {:induction false} OpenTop(k: Packing, ps: seq<bool>, xs: seq<Digit>, acc: Digit)
    requires |xs| == |ps| && Fit(k, ps, xs) && Place(k, ps) > 0 && Room(k, Place(k, ps), acc)
    ensures OpenWord(k, ps) < |Packed(k, ps, xs, acc)|
    ensures Packed(k, ps, xs, acc)[OpenWord(k, ps)] / Weight(k, Place(k, ps)) == acc
  {
    hide Fit, Room, Packed, Loading;
    var n := |ps| - 1;
    var front, below := ps[..n], Below(k, ps, xs, acc);
    PackedStep(k, ps, xs, acc);
    PackedSize(k, front, xs[..n], below);
    FitFront(k, ps, xs);
    RoomBelow(k, ps, xs, acc);
    NextPlace(k, front);
    if !ps[n] {
      OpenTop(k, front, xs[..n], acc);
    } else {
      var place := Place(k, front);
      RoomLeft(k, place, acc, xs[n]);
      Unload(k, place, acc, xs[n]);
      if place > 0 {
        OpenTop(k, front, xs[..n], below);
        NextWeight(k, place, Packed(k, ps, xs, acc)[OpenWord(k, ps)]);
      }
    }
  }

  lemma Unload(k: Packing, place: nat, acc: Digit, x: Digit)
    requires place + 1 < PerWord(k) && InField(k, place, x) && Room(k, place + 1, acc)
    ensures Loading(k, place, acc, x) / Unit(k) == acc
    ensures Loading(k, place, acc, x) % 0x1_0000 == x % 0x1_0000
  {
    RoomLeft(k, place, acc, x);
    RemainderIsMod(acc * Unit(k) + x, acc, Unit(k), x);
    if k == WideTwo {
      WideField(acc, x);
    } else {
      NarrowField(acc, x);
    }
  }

  lemma NextWeight(k: Packing, place: nat, w: Digit)
    requires 0 < place && place + 1 < PerWord(k)
    ensures w / Weight(k, place + 1) == (w / Weight(k, place)) / Unit(k)
  {
  }

  /** An operand comes back exactly if it is no field, the last field, or within the mask. */
  predicate Readable(k: Packing, ps: seq<bool>, xs: seq<Digit>, i: nat)
    requires i < |ps| == |xs|
  {
    !ps[i] || Place(k, ps[..i]) == PerWord(k) - 1 || xs[i] <= MASK
  }

  lemma ReadLast(k: Packing, ps: seq<bool>, xs: seq<Digit>, acc: Digit)
    requires |xs| == |ps| > 0 && Fit(k, ps, xs) && Room(k, Place(k, ps), acc)
    ensures var n, ws := |ps| - 1, Packed(k, ps, xs, acc);
            && ReadOf(k, ps, n).word < |ws|
            && (ReadValue(k, ws, ReadOf(k, ps, n)) == xs[n] <==> Readable(k, ps, xs, n))
  {
    hide Fit, Room, Packed, Loading;
    var n := |ps| - 1;
    var front, below, ws := ps[..n], Below(k, ps, xs, acc), Packed(k, ps, xs, acc);
    PackedStep(k, ps, xs, acc);
    PackedSize(k, front, xs[..n], below);
    FitFront(k, ps, xs);
    RoomBelow(k, ps, xs, acc);
    NextPlace(k, front);
    if ps[n] {
      var place := Place(k, front);
      RoomLeft(k, place, acc, xs[n]);
      if place > 0 {
        OpenTop(k, front, xs[..n], below);
      }
      assert ws[ReadOf(k, ps, n).word] / Weight(k, place) == Loading(k, place, acc, xs[n]);
      LastField(k, place, acc, xs[n]);
    }
  }

  lemma LastField(k: Packing, place: nat, acc: Digit, x: Digit)
    requires place < PerWord(k) && InField(k, place, x) && Room(k, NextOf(k, place), acc)
    ensures place == PerWord(k) - 1 ==> Loading(k, place, acc, x) == x
    ensures place < PerWord(k) - 1 ==> (Bitwise.DAnd(Loading(k, place, acc, x), MASK) == x <==> x <= MASK)
  {
    if place < PerWord(k) - 1 {
      Unload(k, place, acc, x);
      MaskedWord(Loading(k, place, acc, x));
      BelowMaskOnly(x);
    }
  }

  lemma {:induction false} ReadBack(k: Packing, ps: seq<bool>, xs: seq<Digit>, acc: Digit, i: nat)
    requires i < |xs| == |ps| && Fit(k, ps, xs) && Room(k, Place(k, ps), acc)
    ensures var ws := Packed(k, ps, xs, acc);
            && ReadOf(k, ps, i).word < |ws|
            && (ReadValue(k, ws, ReadOf(k, ps, i)) == xs[i] <==> Readable(k, ps, xs, i))
    decreases |ps|
  {
    hide Fit, Room, Packed, Below, Completed, Place;
    var n := |ps| - 1;
    if i == n {
      ReadLast(k, ps, xs, acc);
    } else {
      PackedStep(k, ps, xs, acc);
      FitFront(k, ps, xs);
      RoomBelow(k, ps, xs, acc);
      assert ps[..n][..i] == ps[..i];
      ReadBack(k, ps[..n], xs[..n], Below(k, ps, xs, acc), i);
    }
  }

  /**
   * For every list of packable and other operands: the loader can run the generated program, and
   * the generated expressions read every operand back, exactly if it fits the mask of its field.
   */
  method PackAndRead(k: Packing, ps: seq<bool>, xs: seq<Digit>) returns (code: seq<Digit>, access: seq<Read>)
    requires |xs| == |ps| && Fit(k, ps, xs)
    ensures |access| == |ps| && |code| == Size(k, ps)
    ensures forall i :: 0 <= i < |ps| ==>
              && access[i].word < |code| && (access[i].Field? ==> access[i].place < PerWord(k))
              && (ReadValue(k, code, access[i]) == xs[i] <==> Readable(k, ps, xs, i))
  {
    hide Fit, Runs, Run, Moved, Kept, ReadOf, ReadValue, Readable;
    var prog;
    prog, access := DoPack(k, ps);
    Runnable(k, ps, xs);
    code := Pack(prog, xs);
    PackedSize(k, ps, xs, 0);
    forall i | 0 <= i < |ps|
      ensures ReadOf(k, ps, i).word < |Packed(k, ps, xs, 0)|
      ensures ReadValue(k, Packed(k, ps, xs, 0), ReadOf(k, ps, i)) == xs[i] <==> Readable(k, ps, xs, i)
    {
      EmptyRoom(k, ps);
      ReadBack(k, ps, xs, 0, i);
    }
  }

  lemma EmptyRoom(k: Packing, ps: seq<bool>)
    ensures Room(k, Place(k, ps), 0)
  {
  }

  /** The program runs, leaves nothing behind, and packs. */
  lemma Runnable(k: Packing, ps: seq<bool>, xs: seq<Digit>)
    requires |xs| == |ps| && Fit(k, ps, xs)
    ensures var prog, s := Down(k, ps) + seq(Puts(k, ps), _ => Put), State(xs, [], 0);
            Runs(prog, s, false) && Run(prog, s, false).code == Packed(k, ps, xs, 0)
  {
    hide Runs, Run, Fit, Room;
    var ws := Moved(k, ps, xs, 0);
    MovedSize(k, ps, xs, 0);
    EmptyRoom(k, ps);
    PutsRun(Kept(ps, xs), ws);
    assert [] + Reversed(ws) == Reversed(ws);
    DownRuns(k, ps, xs, 0, false, [], seq(Puts(k, ps), _ => Put));
  }
}

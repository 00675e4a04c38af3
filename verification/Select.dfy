/**
 * select_val: the loader (erts/emulator/beam/beam_load.c) turns a list of
 * value/label pairs into a two-way test, a sentinel search, a binary search, a
 * jump table or a chain of literal tests, splitting small integers from
 * bignums; the emulator (erts/emulator/beam/beam_emu.c) executes what it chose.
 */
module Select {
  import opened Digits

  type Word = Digit

  const SENTINEL: Word := 0xFFFF_FFFF_FFFF_FFFF
  /** Small integers are 60 bits wide; an operand holds them sign-extended to a word. */
  const SMALL_END: int := 0x800_0000_0000_0000
  const SMALL_NEG: int := 0xF800_0000_0000_0000

  // ---------- terms ----------

  predicate SmallRange(val: Word) {
    val < SMALL_END || SMALL_NEG <= val
  }

  predicate IsSmall(w: Word) {
    w % 16 == 15
  }

  /** make_small. */
  function MakeSmall(val: Word): Word {
    (val * 16) % B + 15
  }

  /** signed_val: an arithmetic shift right by the tag size, again as a word. */
  function SignedVal(w: Word): Word {
    if w < 0x8000_0000_0000_0000 then w / 16 else SMALL_NEG + (w - 0x8000_0000_0000_0000) / 16
  }

  lemma TaggingIsInvertible(val: Word, w: Word)
    ensures SmallRange(val) ==> IsSmall(MakeSmall(val)) && SignedVal(MakeSmall(val)) == val
    ensures IsSmall(w) ==> SmallRange(SignedVal(w)) && MakeSmall(SignedVal(w)) == w
  {
    SmallWord(val);
    if w < 0x8000_0000_0000_0000 {
      SmallWord(w / 16);
    } else {
      SmallWord(SMALL_NEG + (w - 0x8000_0000_0000_0000) / 16);
    }
  }

  lemma SmallWord(val: Word)
    ensures val < SMALL_END ==> MakeSmall(val) == val * 16 + 15
    ensures SMALL_NEG <= val ==> MakeSmall(val) == (val - SMALL_NEG) * 16 + 15 + 0x8000_0000_0000_0000
  {
    if val < SMALL_END {
      assert val * 16 < B;
    } else if SMALL_NEG <= val {
      assert 15 * B <= val * 16 < 16 * B;
      assert (val * 16) % B == val * 16 - 15 * B;
    }
  }

  /** Tagging keeps the unsigned order that the tables are sorted and searched in. */
  lemma TaggingKeepsOrder(a: Word, b: Word)
    requires SmallRange(a) && SmallRange(b)
    ensures a < b <==> MakeSmall(a) < MakeSmall(b)
  {
    SmallWord(a);
    SmallWord(b);
  }

  /** The small integer -1 is the sentinel word. */
  lemma MinusOneIsTheSentinel(val: Word)
    requires SmallRange(val)
    ensures MakeSmall(val) == SENTINEL <==> val == B - 1
  {
    SmallWord(val);
  }

  /** What a boxed number holds; equal floats have equal values. */
  datatype Number = BigNum(n: int) | Float(f: real)

  /** A term: an immediate word, or a pointer to a boxed number or to anything else. */
  datatype Value = Imm(w: Word) | Boxed(number: Number, w: Word) | Other(w: Word)

  predicate WellTagged(v: Value) {
    if v.Imm? then v.w % 4 == 3 else v.w % 4 == 1 || v.w % 4 == 2
  }

  predicate IsInteger(v: Value) {
    (v.Boxed? && v.number.BigNum?) || (v.Imm? && IsSmall(v.w))
  }

  predicate IsFloat(v: Value) {
    v.Boxed? && v.number.Float?
  }

  // ---------- what a selection means ----------

  /** A key operand: TAG_i, TAG_a, or TAG_q with a bignum or float literal. */
  datatype Key = SmallKey(val: Word) | AtomKey(val: Word) | LiteralKey(number: Number)

  datatype Choice = Choice(key: Key, target: Word)

  predicate ValidKey(k: Key) {
    match k
    case SmallKey(val) => SmallRange(val)
    case AtomKey(val) => val % 16 == 11
    case LiteralKey(_) => true
  }

  predicate Matches(k: Key, v: Value) {
    match k
    case SmallKey(val) => v == Imm(MakeSmall(val))
    case AtomKey(val) => v == Imm(val)
    case LiteralKey(number) => v.Boxed? && v.number == number
  }

  /** The label paired with the value, or Fail. */
  function Lookup(cs: seq<Choice>, fail: Word, v: Value): Word {
    if cs == [] then fail
    else if Matches(cs[0].key, v) then cs[0].target
    else Lookup(cs[1..], fail, v)
  }

  predicate Keys(cs: seq<Choice>) {
    && (forall i :: 0 <= i < |cs| ==> ValidKey(cs[i].key))
    && (forall i, j :: 0 <= i < j < |cs| ==> cs[i].key != cs[j].key)
  }

  lemma OneKeyMatches(a: Key, b: Key, v: Value)
    requires ValidKey(a) && ValidKey(b) && Matches(a, v) && Matches(b, v)
    ensures a == b
  {
    if a.SmallKey? {
      TaggingIsInvertible(a.val, 0);
    }
    if b.SmallKey? {
      TaggingIsInvertible(b.val, 0);
    }
  }

  lemma {:induction false} LookupFound(cs: seq<Choice>, fail: Word, v: Value, c: Choice)
    requires Keys(cs) && c in cs && Matches(c.key, v)
    ensures Lookup(cs, fail, v) == c.target
  {
    hide Matches, ValidKey;
    if Matches(cs[0].key, v) {
      OneKeyMatches(cs[0].key, c.key, v);
    } else {
      LookupFound(cs[1..], fail, v, c);
    }
  }

  lemma {:induction false} LookupMissing(cs: seq<Choice>, fail: Word, v: Value)
    requires forall c :: c in cs ==> !Matches(c.key, v)
    ensures Lookup(cs, fail, v) == fail
  {
    hide Matches;
    if cs != [] {
      assert cs[0] in cs;
      LookupMissing(cs[1..], fail, v);
    }
  }

  // ---------- emitted words ----------

  /** The word an immediate key is emitted as. */
  function KeyWord(k: Key): Word
    requires !k.LiteralKey?
  {
    if k.SmallKey? then MakeSmall(k.val) else k.val
  }

  /** Keys of one fixed-size type. */
  predicate Uniform(cs: seq<Choice>) {
    || (forall i :: 0 <= i < |cs| ==> cs[i].key.SmallKey?)
    || (forall i :: 0 <= i < |cs| ==> cs[i].key.AtomKey?)
  }

  lemma KeyWordMatches(k: Key, v: Value)
    requires ValidKey(k) && !k.LiteralKey? && WellTagged(v)
    ensures Matches(k, v) <==> v.w == KeyWord(k)
  {
    if k.SmallKey? {
      TaggingIsInvertible(k.val, 0);
    }
  }

  /** genopargcompare orders operands by their raw values. */
  predicate Before(a: Choice, b: Choice)
    requires !a.key.LiteralKey? && !b.key.LiteralKey?
  {
    a.key.val < b.key.val
  }

  predicate Sorted(ts: seq<Choice>) {
    && (forall i :: 0 <= i < |ts| ==> !ts[i].key.LiteralKey?)
    && (forall i, j :: 0 <= i < j < |ts| ==> Before(ts[i], ts[j]))
  }

  lemma WordsSorted(ts: seq<Choice>)
    requires Sorted(ts) && Uniform(ts) && Keys(ts)
    ensures forall i, j :: 0 <= i < j < |ts| ==> KeyWord(ts[i].key) < KeyWord(ts[j].key)
  {
    forall i, j | 0 <= i < j < |ts|
      ensures KeyWord(ts[i].key) < KeyWord(ts[j].key)
    {
      assert Before(ts[i], ts[j]);
      if ts[i].key.SmallKey? {
        TaggingKeepsOrder(ts[i].key.val, ts[j].key.val);
      }
    }
  }

  lemma SortStart(cs: seq<Choice>)
    ensures Sorted([]) && multiset(cs[..0]) == multiset{}
  {
  }

  lemma NotLiteral(cs: seq<Choice>, n: nat)
    requires Uniform(cs) && n < |cs|
    ensures !cs[n].key.LiteralKey?
  {
  }

  /** The place of a choice in a sorted list. */
  method Place(ts: seq<Choice>, c: Choice) returns (i: nat)
    requires Sorted(ts) && !c.key.LiteralKey?
    ensures i <= |ts| && (i < |ts| ==> !Before(ts[i], c))
    ensures forall k :: 0 <= k < i ==> Before(ts[k], c)
  {
    i := 0;
    while i < |ts| && ts[i].key.val < c.key.val
      invariant 0 <= i <= |ts|
      invariant forall k :: 0 <= k < i ==> Before(ts[k], c)
    {
      i := i + 1;
    }
  }

  /** qsort with genopargcompare; the keys are distinct, so every sort gives this table. */
  method Sort(cs: seq<Choice>) returns (ts: seq<Choice>)
    requires Keys(cs) && Uniform(cs)
    ensures Sorted(ts) && Keys(ts) && Uniform(ts)
    ensures multiset(ts) == multiset(cs) && |ts| == |cs|
  {
    hide Keys, Sorted, Before, Uniform;
    ts := [];
    SortStart(cs);
    for n := 0 to |cs|
      invariant Sorted(ts)
      invariant multiset(ts) == multiset(cs[..n])
    {
      NotLiteral(cs, n);
      var i := Place(ts, cs[n]);
      Insert(cs, n, ts, i);
      ts := ts[..i] + [cs[n]] + ts[i..];
    }
    assert cs[..|cs|] == cs;
    assert |multiset(ts)| == |multiset(cs)|;
    SameKeys(cs, ts);
  }

  lemma InsertSorted(ts: seq<Choice>, i: nat, c: Choice)
    requires Sorted(ts) && i <= |ts| && !c.key.LiteralKey?
    requires forall k :: 0 <= k < i ==> Before(ts[k], c)
    requires forall k :: i <= k < |ts| ==> Before(c, ts[k])
    ensures Sorted(ts[..i] + [c] + ts[i..])
  {
    var us := ts[..i] + [c] + ts[i..];
    assert forall k :: 0 <= k < |us| ==> us[k] == if k < i then ts[k] else if k == i then c else ts[k - 1];
  }

  lemma Insert(cs: seq<Choice>, n: nat, ts: seq<Choice>, i: nat)
    requires n < |cs| && Keys(cs) && Uniform(cs) && Sorted(ts) && i <= |ts|
    requires multiset(ts) == multiset(cs[..n])
    requires forall k :: 0 <= k < i ==> Before(ts[k], cs[n])
    requires i < |ts| ==> !Before(ts[i], cs[n])
    ensures Sorted(ts[..i] + [cs[n]] + ts[i..])
    ensures multiset(ts[..i] + [cs[n]] + ts[i..]) == multiset(cs[..n + 1])
  {
    forall k | i <= k < |ts|
      ensures Before(cs[n], ts[k])
    {
      assert ts[k] in multiset(cs[..n]);
      var j :| 0 <= j < n && cs[j] == ts[k];
      assert cs[j].key != cs[n].key;
      assert k > i ==> Before(ts[i], ts[k]);
    }
    InsertSorted(ts, i, cs[n]);
    InsertCounts(cs, n, ts, i);
  }

  lemma InsertCounts(cs: seq<Choice>, n: nat, ts: seq<Choice>, i: nat)
    requires n < |cs| && i <= |ts| && multiset(ts) == multiset(cs[..n])
    ensures multiset(ts[..i] + [cs[n]] + ts[i..]) == multiset(cs[..n + 1])
  {
    assert cs[..n + 1] == cs[..n] + [cs[n]];
    assert ts == ts[..i] + ts[i..];
  }

  lemma SameKeys(cs: seq<Choice>, ts: seq<Choice>)
    requires Keys(cs) && Uniform(cs) && Sorted(ts) && multiset(ts) == multiset(cs)
    ensures Keys(ts) && Uniform(ts)
  {
    forall i | 0 <= i < |ts|
      ensures exists j :: 0 <= j < |cs| && cs[j] == ts[i]
    {
      assert ts[i] in multiset(cs);
    }
    forall i, j | 0 <= i < j < |ts|
      ensures ts[i].key != ts[j].key
    {
      assert Before(ts[i], ts[j]);
    }
  }

  /** The same choices, whatever their order, select the same label. */
  lemma FoundAmong(cs: seq<Choice>, ts: seq<Choice>, fail: Word, v: Value, i: nat)
    requires Keys(cs) && multiset(ts) == multiset(cs) && i < |ts| && Matches(ts[i].key, v)
    ensures Lookup(cs, fail, v) == ts[i].target
  {
    assert ts[i] in multiset(cs);
    LookupFound(cs, fail, v, ts[i]);
  }

  lemma MissingAmong(cs: seq<Choice>, ts: seq<Choice>, fail: Word, v: Value)
    requires multiset(ts) == multiset(cs)
    requires forall i :: 0 <= i < |ts| ==> !Matches(ts[i].key, v)
    ensures Lookup(cs, fail, v) == fail
  {
    forall c | c in cs
      ensures !Matches(c.key, v)
    {
      assert c in multiset(ts);
    }
    LookupMissing(cs, fail, v);
  }

  /** A table of sorted immediate keys that stands for `cs`. */
  predicate TableOf(cs: seq<Choice>, ts: seq<Choice>) {
    Keys(cs) && Keys(ts) && Sorted(ts) && Uniform(ts) && multiset(ts) == multiset(cs)
  }

  /** Finding a word in a sorted table decides the selection. */
  lemma TableHit(cs: seq<Choice>, ts: seq<Choice>, fail: Word, v: Value, i: nat)
    requires TableOf(cs, ts) && WellTagged(v) && i < |ts| && KeyWord(ts[i].key) == v.w
    ensures Lookup(cs, fail, v) == ts[i].target
  {
    KeyWordMatches(ts[i].key, v);
    FoundAmong(cs, ts, fail, v, i);
  }

  lemma TableMiss(cs: seq<Choice>, ts: seq<Choice>, fail: Word, v: Value, i: nat)
    requires TableOf(cs, ts) && WellTagged(v) && i <= |ts|
    requires forall k :: 0 <= k < i ==> KeyWord(ts[k].key) < v.w
    requires forall k :: i <= k < |ts| ==> v.w < KeyWord(ts[k].key)
    ensures Lookup(cs, fail, v) == fail
  {
    forall k | 0 <= k < |ts|
      ensures !Matches(ts[k].key, v)
    {
      KeyWordMatches(ts[k].key, v);
    }
    MissingAmong(cs, ts, fail, v);
  }

  // ---------- sentinel search: i_select_val_lins ----------

  /** Arg(1) Fail, Arg(2) size, the words with the sentinel, then the labels with Fail. */
  predicate LinsLayout(arg: seq<Word>, ts: seq<Choice>, fail: Word)
    requires Sorted(ts)
  {
    var n := |ts|;
    && |arg| == 2 * n + 5 && arg[1] == fail && arg[2] == n + 1
    && (forall i :: 0 <= i < n ==> arg[3 + i] == KeyWord(ts[i].key))
    && arg[3 + n] == SENTINEL
    && (forall i :: 0 <= i < n ==> arg[4 + n + i] == ts[i].target)
    && arg[4 + 2 * n] == fail
  }

  /** do_linear_search. */
  method LinearSearch(arg: seq<Word>, v: Value, ghost cs: seq<Choice>, ghost ts: seq<Choice>, ghost fail: Word)
    returns (address: Word, ghost furthest: nat)
    requires TableOf(cs, ts) && LinsLayout(arg, ts, fail) && WellTagged(v)
    ensures address == Lookup(cs, fail, v)
    ensures 3 <= furthest <= 3 + |ts| && arg[furthest] >= v.w && forall k :: 3 <= k < furthest ==> arg[k] < v.w
  {
    hide Lookup, Keys, Uniform, WellTagged, Before;
    var ix: nat := 0;
    furthest := 0;
    while true
      invariant ix <= |ts| && forall k :: 3 <= k < 3 + ix ==> arg[k] < v.w
      invariant forall k :: 0 <= k < ix ==> KeyWord(ts[k].key) < v.w
      decreases |ts| - ix
    {
      furthest := 3 + ix;
      if arg[3 + ix] >= v.w {
        break;
      }
      furthest := 3 + ix + 1;
      if arg[3 + ix + 1] >= v.w {
        ix := ix + 1;
        break;
      }
      ix := ix + 2;
    }
    LinesUp(cs, ts, v, ix);
    if arg[3 + ix] == v.w {
      address := arg[1 + (ix + arg[2] + 2)];
      if ix < |ts| {
        TableHit(cs, ts, fail, v, ix);
      } else {
        TableMiss(cs, ts, fail, v, ix);
      }
    } else {
      address := arg[1];
      TableMiss(cs, ts, fail, v, ix);
    }
  }

  /** Past the first word that is not smaller, all words are larger. */
  lemma LinesUp(cs: seq<Choice>, ts: seq<Choice>, v: Value, ix: nat)
    requires TableOf(cs, ts) && ix <= |ts|
    requires ix < |ts| ==> KeyWord(ts[ix].key) >= v.w
    ensures ix < |ts| && KeyWord(ts[ix].key) > v.w ==> forall k :: ix <= k < |ts| ==> v.w < KeyWord(ts[k].key)
  {
    WordsSorted(ts);
  }

  /** gen_select_val, linear form. */
  method GenLinear(cs: seq<Choice>, s: Word, fail: Word) returns (arg: seq<Word>, ghost ts: seq<Choice>)
    requires Keys(cs) && Uniform(cs) && |cs| < SMALL_END
    ensures TableOf(cs, ts) && LinsLayout(arg, ts, fail)
  {
    hide Keys, Uniform, Before;
    var tmp := Sort(cs);
    ts := tmp;
    arg := [s, fail, |tmp| + 1];
    for i := 0 to |tmp|
      invariant |arg| == 3 + i && arg[1] == fail && arg[2] == |tmp| + 1
      invariant forall k :: 0 <= k < i ==> arg[3 + k] == KeyWord(tmp[k].key)
    {
      arg := arg + [KeyWord(tmp[i].key)];
    }
    arg := arg + [SENTINEL];
    for i := 0 to |tmp|
      invariant |arg| == 4 + |tmp| + i && arg[1] == fail && arg[2] == |tmp| + 1
      invariant forall k :: 0 <= k < |tmp| ==> arg[3 + k] == KeyWord(tmp[k].key)
      invariant arg[3 + |tmp|] == SENTINEL
      invariant forall k :: 0 <= k < i ==> arg[4 + |tmp| + k] == tmp[k].target
    {
      arg := arg + [tmp[i].target];
    }
    arg := arg + [fail];
  }

  // ---------- binary search: i_select_val_bins ----------

  predicate BinsLayout(arg: seq<Word>, ts: seq<Choice>, fail: Word)
    requires Sorted(ts)
  {
    && |arg| == 2 * |ts| + 3 && arg[1] == fail && arg[2] == |ts|
    && (forall i :: 0 <= i < |ts| ==> arg[3 + 2 * i] == KeyWord(ts[i].key))
    && (forall i :: 0 <= i < |ts| ==> arg[4 + 2 * i] == ts[i].target)
  }

  /** do_binary_search; `low`, `high` and the middle are byte offsets of 16-byte pairs. */
  method BinarySearch(arg: seq<Word>, v: Value, ghost cs: seq<Choice>, ghost ts: seq<Choice>, ghost fail: Word)
    returns (address: Word)
    requires TableOf(cs, ts) && BinsLayout(arg, ts, fail) && WellTagged(v)
    ensures address == Lookup(cs, fail, v)
  {
    hide Lookup, Keys, Uniform, WellTagged, Before;
    var low: int, high: int := 0, 16 * arg[2] as int;
    ghost var lo, hi := 0, |ts|;
    while high - low > 0
      invariant low == 16 * lo && high == 16 * hi && 0 <= lo <= hi <= |ts|
      invariant forall k :: 0 <= k < lo ==> KeyWord(ts[k].key) < v.w
      invariant forall k :: hi <= k < |ts| ==> v.w < KeyWord(ts[k].key)
      decreases hi - lo
    {
      var mid := low + (high - low) / 2 / 16 * 16;
      ghost var m := lo + (hi - lo) / 2;
      var i := mid / 16;
      MiddlePair(lo, hi);
      HalfDecides(ts, v, m);
      assert arg[3 + 2 * i] == KeyWord(ts[m].key);
      if v.w < arg[3 + 2 * i] {
        high := mid;
        hi := m;
      } else if v.w > arg[3 + 2 * i] {
        low := mid + 16;
        lo := m + 1;
      } else {
        TableHit(cs, ts, fail, v, m);
        return arg[4 + 2 * i];
      }
    }
    TableMiss(cs, ts, fail, v, lo);
    address := arg[1];
  }

  lemma HalfDecides(ts: seq<Choice>, v: Value, m: nat)
    requires Sorted(ts) && Uniform(ts) && Keys(ts) && m < |ts|
    ensures v.w < KeyWord(ts[m].key) ==> forall k :: m <= k < |ts| ==> v.w < KeyWord(ts[k].key)
    ensures v.w > KeyWord(ts[m].key) ==> forall k :: 0 <= k <= m ==> KeyWord(ts[k].key) < v.w
  {
    WordsSorted(ts);
  }

  lemma MiddlePair(lo: nat, hi: nat)
    requires lo < hi
    ensures var m := lo + (hi - lo) / 2;
            16 * lo + (16 * hi - 16 * lo) / 2 / 16 * 16 == 16 * m && lo <= m < hi && 16 * m / 16 == m
  {
    assert (16 * hi - 16 * lo) / 2 == 8 * (hi - lo);
    assert 8 * (hi - lo) / 16 == (hi - lo) / 2;
  }

  method GenBinary(cs: seq<Choice>, s: Word, fail: Word) returns (arg: seq<Word>, ghost ts: seq<Choice>)
    requires Keys(cs) && Uniform(cs) && |cs| < SMALL_END
    ensures TableOf(cs, ts) && BinsLayout(arg, ts, fail)
  {
    hide Keys, Uniform, Before;
    var tmp := Sort(cs);
    ts := tmp;
    arg := [s, fail, |tmp|];
    for i := 0 to |tmp|
      invariant |arg| == 3 + 2 * i && arg[1] == fail && arg[2] == |tmp|
      invariant forall k :: 0 <= k < i ==> arg[3 + 2 * k] == KeyWord(tmp[k].key)
      invariant forall k :: 0 <= k < i ==> arg[4 + 2 * k] == tmp[k].target
    {
      arg := arg + [KeyWord(tmp[i].key), tmp[i].target];
    }
  }

  // ---------- jump tables ----------

  predicate AllSmall(cs: seq<Choice>) {
    forall i :: 0 <= i < |cs| ==> cs[i].key.SmallKey?
  }

  /** use_jump_tab: the values, compared as unsigned words, lie close together. */
  predicate Dense(cs: seq<Choice>) {
    && |cs| > 0 && AllSmall(cs)
    && (forall i, j :: 0 <= i < |cs| && 0 <= j < |cs| ==> cs[i].key.val - cs[j].key.val <= 2 * |cs|)
  }

  /** Negative keys are huge as unsigned words. */
  lemma BothSignsUseNoTable(cs: seq<Choice>, i: nat, j: nat)
    requires |cs| < SMALL_END && i < |cs| && j < |cs| && cs[i].key.SmallKey? && cs[j].key.SmallKey?
    requires cs[i].key.val < SMALL_END && SMALL_NEG <= cs[j].key.val
    ensures !Dense(cs)
  {
    assert AllSmall(cs) ==> cs[j].key.val - cs[i].key.val > 2 * |cs|;
  }

  method Extremes(cs: seq<Choice>) returns (min: Word, max: Word)
    requires |cs| > 0 && AllSmall(cs)
    ensures exists i :: 0 <= i < |cs| && cs[i].key.val == min
    ensures exists i :: 0 <= i < |cs| && cs[i].key.val == max
    ensures forall i :: 0 <= i < |cs| ==> min <= cs[i].key.val <= max
  {
    min, max := cs[0].key.val, cs[0].key.val;
    ghost var a, b := 0, 0;
    for i := 1 to |cs|
      invariant 0 <= a < |cs| && cs[a].key.val == min && 0 <= b < |cs| && cs[b].key.val == max
      invariant forall k :: 0 <= k < i ==> min <= cs[k].key.val <= max
    {
      if cs[i].key.val < min {
        min, a := cs[i].key.val, i;
      } else if max < cs[i].key.val {
        max, b := cs[i].key.val, i;
      }
    }
  }

  method UseJumpTable(cs: seq<Choice>) returns (use: bool)
    ensures use <==> Dense(cs)
  {
    if |cs| == 0 {
      return false;
    }
    var i := 0;
    while i < |cs|
      invariant 0 <= i <= |cs|
      invariant forall k :: 0 <= k < i ==> cs[k].key.SmallKey?
    {
      if !cs[i].key.SmallKey? {
        return false;
      }
      i := i + 1;
    }
    var min, max := Extremes(cs);
    use := max as int - min as int <= 2 * |cs|;
  }

  predicate HasKey(cs: seq<Choice>, val: int)
    requires AllSmall(cs)
  {
    exists i :: 0 <= i < |cs| && cs[i].key.val == val
  }

  /** Slot `val - min` holds the label of `val`, every other slot Fail. */
  predicate JumpTable(tab: seq<Word>, cs: seq<Choice>, fail: Word, min: Word)
    requires AllSmall(cs)
  {
    && (forall i :: 0 <= i < |cs| ==>
          min <= cs[i].key.val < min + |tab| && tab[cs[i].key.val - min] == cs[i].target)
    && (forall x :: 0 <= x < |tab| ==> tab[x] == fail || HasKey(cs, min + x))
  }

  /** The table of i_jump_on_val starts at Arg(4), that of i_jump_on_val_zero, which has no Arg(3), at Arg(3). */
  predicate JumpLayout(arg: seq<Word>, base: nat, cs: seq<Choice>, fail: Word)
    requires AllSmall(cs) && 3 <= base <= 4
  {
    && |arg| >= base && arg[1] == fail && arg[2] == |arg| - base
    && JumpTable(arg[base..], cs, fail, if base == 4 then arg[3] else 0)
  }

  /** The search that a jump table replaces. */
  lemma JumpTableSelects(tab: seq<Word>, cs: seq<Choice>, fail: Word, min: Word, v: Value)
    requires Keys(cs) && AllSmall(cs) && JumpTable(tab, cs, fail, min) && WellTagged(v)
    ensures v.Imm? && IsSmall(v.w) ==>
              var x := (SignedVal(v.w) as int - min as int) % B;
              Lookup(cs, fail, v) == if x < |tab| then tab[x] else fail
    ensures !(v.Imm? && IsSmall(v.w)) ==> Lookup(cs, fail, v) == fail
  {
    hide Keys, Matches, SignedVal, Lookup, JumpTable;
    if i :| 0 <= i < |cs| && Matches(cs[i].key, v) {
      LookupFound(cs, fail, v, cs[i]);
      Slot(tab, cs, fail, min, v, i);
    } else {
      LookupMissing(cs, fail, v);
      if v.Imm? && IsSmall(v.w) {
        NoSlot(tab, cs, fail, min, v);
      }
    }
  }

  lemma Slot(tab: seq<Word>, cs: seq<Choice>, fail: Word, min: Word, v: Value, i: nat)
    requires Keys(cs) && AllSmall(cs) && JumpTable(tab, cs, fail, min)
    requires i < |cs| && Matches(cs[i].key, v)
    ensures v.Imm? && IsSmall(v.w)
    ensures var x := (SignedVal(v.w) as int - min as int) % B;
            x < |tab| && tab[x] == cs[i].target
  {
    hide MakeSmall, SignedVal;
    TaggingIsInvertible(cs[i].key.val, 0);
    WrapOnce(cs[i].key.val, min);
  }

  lemma WrapOnce(a: Word, b: Word)
    requires b <= a
    ensures (a as int - b as int) % B == a - b
  {
  }

  lemma Unwrap(a: Word, b: Word, x: int)
    requires x == (a as int - b as int) % B && b + x < B
    ensures a == b + x
  {
  }

  lemma NoSlot(tab: seq<Word>, cs: seq<Choice>, fail: Word, min: Word, v: Value)
    requires Keys(cs) && AllSmall(cs) && JumpTable(tab, cs, fail, min)
    requires v.Imm? && IsSmall(v.w) && forall c :: c in cs ==> !Matches(c.key, v)
    ensures var x := (SignedVal(v.w) as int - min as int) % B;
            x < |tab| ==> tab[x] == fail
  {
    hide MakeSmall, SignedVal;
    var x := (SignedVal(v.w) as int - min as int) % B;
    if x < |tab| && tab[x] != fail {
      assert HasKey(cs, min + x);
      var i :| 0 <= i < |cs| && cs[i].key.val == min + x;
      assert cs[i] in cs;
      TaggingIsInvertible(cs[i].key.val, v.w);
      Unwrap(SignedVal(v.w), min, x);
    }
  }

  /** do_jump_on_val_index and do_jump_on_val_zero_index. */
  method Jump(arg: seq<Word>, base: nat, v: Value, ghost cs: seq<Choice>, ghost fail: Word) returns (address: Word)
    requires 3 <= base <= 4 && Keys(cs) && AllSmall(cs) && JumpLayout(arg, base, cs, fail) && WellTagged(v)
    ensures address == Lookup(cs, fail, v)
  {
    hide Lookup, Keys, AllSmall, JumpTable;
    JumpTableSelects(arg[base..], cs, fail, if base == 4 then arg[3] else 0, v);
    if v.Imm? && IsSmall(v.w) {
      var index := if base == 4 then (SignedVal(v.w) as int - arg[3] as int) % B else SignedVal(v.w);
      if index < arg[2] {
        return arg[base + index];
      }
    }
    address := arg[1];
  }

  method GenJumpTable(cs: seq<Choice>, s: Word, fail: Word) returns (arg: seq<Word>, base: nat)
    requires Keys(cs) && Dense(cs) && |cs| < SMALL_END
    ensures 3 <= base <= 4 && AllSmall(cs) && JumpLayout(arg, base, cs, fail)
  {
    var min, max := Extremes(cs);
    var size: nat := max as int - min as int + 1;
    assert size <= 2 * |cs| + 1;
    var tab := FillTable(cs, fail, min, size);
    base := if min == 0 then 3 else 4;
    arg := (if min == 0 then [s, fail, size] else [s, fail, size, min]) + tab;
    assert arg[base..] == tab;
  }

  method FillTable(cs: seq<Choice>, fail: Word, min: Word, size: nat) returns (tab: seq<Word>)
    requires Keys(cs) && AllSmall(cs)
    requires forall i :: 0 <= i < |cs| ==> min <= cs[i].key.val < min + size
    ensures |tab| == size && JumpTable(tab, cs, fail, min)
  {
    tab := seq(size, _ => fail);
    for k := 0 to |cs|
      invariant |tab| == size
      invariant forall i :: 0 <= i < k ==> tab[cs[i].key.val - min] == cs[i].target
      invariant forall x :: 0 <= x < size ==> tab[x] == fail || HasKey(cs, min + x)
    {
      tab := tab[cs[k].key.val - min := cs[k].target];
    }
  }

  // ---------- two values: i_select_val2; literals: is_ne_exact ----------

  /** gen_select_val with two choices: both words, then both labels. */
  function Val2(cs: seq<Choice>, s: Word, fail: Word): seq<Word>
    requires |cs| == 2 && Uniform(cs)
  {
    [s, fail, KeyWord(cs[0].key), KeyWord(cs[1].key), cs[0].target, cs[1].target]
  }

  lemma LookupTwo(cs: seq<Choice>, fail: Word, v: Value)
    requires |cs| == 2
    ensures Lookup(cs, fail, v) == if Matches(cs[0].key, v) then cs[0].target
                                   else if Matches(cs[1].key, v) then cs[1].target else fail
  {
    hide Matches;
    assert cs[1..][1..] == [];
    assert Lookup(cs[1..], fail, v) == if Matches(cs[1].key, v) then cs[1].target else fail;
  }

  /** do_select_val2: moving the instruction pointer makes the label the new Arg(1). */
  method SelectVal2(arg: seq<Word>, v: Value, ghost cs: seq<Choice>, ghost s: Word, ghost fail: Word)
    returns (address: Word)
    requires |cs| == 2 && Keys(cs) && Uniform(cs) && arg == Val2(cs, s, fail) && WellTagged(v)
    ensures address == Lookup(cs, fail, v)
  {
    KeyWordMatches(cs[0].key, v);
    KeyWordMatches(cs[1].key, v);
    LookupTwo(cs, fail, v);
    hide Matches, Lookup;
    var i := 0;
    if v.w == arg[2] {
      i := i + 3;
    } else if v.w == arg[3] {
      i := i + 4;
    }
    address := arg[i + 1];
  }

  /** The chain of gen_select_literals: one exact comparison per literal, then a jump to Fail. */
  method TestLiterals(cs: seq<Choice>, fail: Word, v: Value) returns (address: Word)
    requires Keys(cs) && AllLiteral(cs)
    ensures address == Lookup(cs, fail, v)
  {
    for i := 0 to |cs|
      invariant forall k :: 0 <= k < i ==> !Matches(cs[k].key, v)
    {
      if v.Boxed? && v.number == cs[i].key.number {
        LookupFound(cs, fail, v, cs[i]);
        return cs[i].target;
      }
    }
    LookupMissing(cs, fail, v);
    address := fail;
  }

  predicate AllLiteral(cs: seq<Choice>) {
    forall i :: 0 <= i < |cs| ==> cs[i].key.LiteralKey?
  }

  // ---------- the loader's choice ----------

  datatype Code =
    | NeExact(key: Key, target: Word, fail: Word)
    | TwoWay(arg: seq<Word>)
    | Linear(arg: seq<Word>)
    | Binary(arg: seq<Word>)
    | Table(arg: seq<Word>, base: nat)
    | Literals(choices: seq<Choice>, fail: Word)

  /** The code is one of the forms the loader lays out for these choices. */
  ghost predicate LaysOut(code: Code, cs: seq<Choice>, fail: Word) {
    && Keys(cs)
    && match code
       case NeExact(key, target, f) => cs == [Choice(key, target)] && f == fail
       case TwoWay(arg) => |cs| == 2 && Uniform(cs) && exists s :: arg == Val2(cs, s, fail)
       case Linear(arg) => exists ts :: TableOf(cs, ts) && LinsLayout(arg, ts, fail)
       case Binary(arg) => exists ts :: TableOf(cs, ts) && BinsLayout(arg, ts, fail)
       case Table(arg, base) => AllSmall(cs) && 3 <= base <= 4 && JumpLayout(arg, base, cs, fail)
       case Literals(choices, f) => choices == cs && AllLiteral(cs) && f == fail
  }

  /** The rules for select_val in ops.tab, for keys of one type. */
  method Compile(cs: seq<Choice>, s: Word, fail: Word) returns (code: Code)
    requires 0 < |cs| < SMALL_END && Keys(cs) && (Uniform(cs) || AllLiteral(cs))
    ensures LaysOut(code, cs, fail)
    ensures code.NeExact? || code.Table? <==> Dense(cs)
    ensures code.Literals? ==> cs[0].key.LiteralKey?
    ensures code.TwoWay? ==> |cs| == 2
    ensures code.Binary? ==> |cs| > 10
    ensures code.Linear? ==> |cs| == 1 || 2 < |cs| <= 10
  {
    hide Keys, Uniform, TableOf, LinsLayout, BinsLayout, JumpLayout;
    var jump := UseJumpTable(cs);
    if jump && |cs| == 1 {
      assert cs == [Choice(cs[0].key, cs[0].target)];
      code := NeExact(cs[0].key, cs[0].target, fail);
    } else if jump {
      var arg, base := GenJumpTable(cs, s, fail);
      code := Table(arg, base);
    } else if cs[0].key.LiteralKey? {
      AllOrNone(cs);
      code := Literals(cs, fail);
    } else {
      AllOrNone(cs);
      if |cs| == 2 {
        code := TwoWay(Val2(cs, s, fail));
      } else if |cs| > 10 {
        var arg, ts := GenBinary(cs, s, fail);
        code := Binary(arg);
      } else {
        var arg, ts := GenLinear(cs, s, fail);
        code := Linear(arg);
      }
    }
  }

  lemma AllOrNone(cs: seq<Choice>)
    requires 0 < |cs| && (Uniform(cs) || AllLiteral(cs))
    ensures if cs[0].key.LiteralKey? then AllLiteral(cs) else Uniform(cs)
  {
  }

  /** Whatever form was chosen, executing it reaches the label paired with the value, or Fail. */
  method Execute(code: Code, v: Value, ghost cs: seq<Choice>, ghost fail: Word) returns (address: Word)
    requires LaysOut(code, cs, fail) && WellTagged(v)
    ensures address == Lookup(cs, fail, v)
  {
    hide Keys, Uniform, Sorted, LinsLayout, BinsLayout, JumpLayout, WellTagged;
    match code
    case NeExact(key, target, f) =>
      assert cs[1..] == [];
      var same := Equal(key, v);
      address := if same then target else f;
    case TwoWay(arg) =>
      ghost var s :| arg == Val2(cs, s, fail);
      address := SelectVal2(arg, v, cs, s, fail);
    case Linear(arg) =>
      ghost var ts :| TableOf(cs, ts) && LinsLayout(arg, ts, fail);
      ghost var furthest;
      address, furthest := LinearSearch(arg, v, cs, ts, fail);
    case Binary(arg) =>
      ghost var ts :| TableOf(cs, ts) && BinsLayout(arg, ts, fail);
      address := BinarySearch(arg, v, cs, ts, fail);
    case Table(arg, base) =>
      address := Jump(arg, base, v, cs, fail);
    case Literals(choices, f) =>
      address := TestLiterals(choices, f, v);
  }

  /** Exact equality of a term with an operand. */
  method Equal(key: Key, v: Value) returns (same: bool)
    ensures same <==> Matches(key, v)
  {
    match key
    case LiteralKey(number) => same := v.Boxed? && v.number == number;
    case _ => same := v.Imm? && v.w == KeyWord(key);
  }

  // ---------- immediates and literals in one list ----------

  function Immediates(cs: seq<Choice>): seq<Choice> {
    if cs == [] then [] else (if cs[0].key.LiteralKey? then [] else [cs[0]]) + Immediates(cs[1..])
  }

  function Boxes(cs: seq<Choice>): seq<Choice> {
    if cs == [] then [] else (if cs[0].key.LiteralKey? then [cs[0]] else []) + Boxes(cs[1..])
  }

  lemma {:induction false} PartsAreChoices(cs: seq<Choice>, c: Choice)
    ensures c in Immediates(cs) <==> c in cs && !c.key.LiteralKey?
    ensures c in Boxes(cs) <==> c in cs && c.key.LiteralKey?
  {
    if cs != [] {
      PartsAreChoices(cs[1..], c);
    }
  }

  lemma {:induction false} PartsAreKeys(cs: seq<Choice>)
    requires Keys(cs)
    ensures Keys(Immediates(cs)) && Keys(Boxes(cs)) && AllLiteral(Boxes(cs))
    ensures |Immediates(cs)| + |Boxes(cs)| == |cs|
  {
    if cs != [] {
      PartsAreKeys(cs[1..]);
      forall c {
        PartsAreChoices(cs[1..], c);
      }
      if cs[0].key.LiteralKey? {
        Prepend(cs, Boxes(cs[1..]));
        assert [] + Immediates(cs[1..]) == Immediates(cs[1..]);
      } else {
        Prepend(cs, Immediates(cs[1..]));
        assert [] + Boxes(cs[1..]) == Boxes(cs[1..]);
      }
    }
  }

  lemma Prepend(cs: seq<Choice>, ks: seq<Choice>)
    requires cs != [] && Keys(cs) && Keys(ks)
    requires forall k :: k in ks ==> k in cs[1..]
    ensures Keys([cs[0]] + ks)
  {
    hide ValidKey;
    var us := [cs[0]] + ks;
    forall i | 0 < i < |us|
      ensures us[i].key != us[0].key
    {
      assert us[i] in cs[1..];
      var j :| 0 <= j < |cs[1..]| && cs[1..][j] == us[i];
      assert cs[j + 1] == us[i];
    }
    forall i, j | 0 < i < j < |us|
      ensures us[i].key != us[j].key
    {
      assert ks[i - 1].key != ks[j - 1].key;
    }
  }

  lemma MatchesKind(v: Value)
    ensures forall k: Key :: Matches(k, v) ==> (k.LiteralKey? <==> v.Boxed?)
  {
  }

  /** Trying the immediate keys first and then the literals selects the same label. */
  lemma {:induction false} SplitSelects(cs: seq<Choice>, fail: Word, next: Word, v: Value)
    requires forall c :: c in cs ==> c.target != next
    ensures var first := Lookup(Immediates(cs), next, v);
            Lookup(cs, fail, v) == if first != next then first else Lookup(Boxes(cs), fail, v)
    ensures !v.Boxed? ==> Lookup(Boxes(cs), fail, v) == fail
    ensures v.Boxed? ==> Lookup(Immediates(cs), next, v) == next
  {
    hide Matches;
    MatchesKind(v);
    if cs != [] {
      assert forall c :: c in cs[1..] ==> c in cs;
      assert cs[0] in cs;
      SplitSelects(cs[1..], fail, next, v);
      if cs[0].key.LiteralKey? {
        assert Immediates(cs) == Immediates(cs[1..]);
        assert Boxes(cs)[1..] == Boxes(cs[1..]);
      } else {
        assert Immediates(cs)[1..] == Immediates(cs[1..]);
        assert Boxes(cs) == Boxes(cs[1..]);
      }
    }
  }

  lemma SplitEnds(cs: seq<Choice>)
    ensures cs[0..] == cs && Immediates(cs[|cs|..]) == [] && Boxes(cs[|cs|..]) == []
  {
  }

  lemma SplitStep(cs: seq<Choice>, i: nat)
    requires i < |cs|
    ensures Immediates(cs[i..]) == (if cs[i].key.LiteralKey? then [] else [cs[i]]) + Immediates(cs[i + 1..])
    ensures Boxes(cs[i..]) == (if cs[i].key.LiteralKey? then [cs[i]] else []) + Boxes(cs[i + 1..])
  {
    assert cs[i..][1..] == cs[i + 1..];
  }

  /** gen_split_values: the two lists it builds. */
  method SplitValues(cs: seq<Choice>) returns (small: seq<Choice>, big: seq<Choice>)
    ensures small == Immediates(cs) && big == Boxes(cs)
  {
    hide Immediates, Boxes;
    small, big := [], [];
    SplitEnds(cs);
    for i := 0 to |cs|
      invariant small + Immediates(cs[i..]) == Immediates(cs)
      invariant big + Boxes(cs[i..]) == Boxes(cs)
    {
      SplitStep(cs, i);
      if cs[i].key.LiteralKey? {
        big := big + [cs[i]];
      } else {
        small := small + [cs[i]];
      }
    }
  }

  /** What the source instructions say: with an integer test in front, other terms go to TypeFail. */
  function Selected(cs: seq<Choice>, tested: bool, typeFail: Word, fail: Word, v: Value): Word {
    if tested && !IsInteger(v) then typeFail else Lookup(cs, fail, v)
  }

  /** What gen_split_values makes of them: it tests all terms for TypeFail, or those without immediate key for Fail. */
  function SplitTo(cs: seq<Choice>, typeFail: Word, fail: Word, v: Value): Word {
    if typeFail != fail && !IsInteger(v) then typeFail
    else if typeFail == fail && IsFloat(v) then fail
    else Lookup(cs, fail, v)
  }

  /** The instruction sequence of gen_split_values; `next` is its new label. */
  method RunSplit(cs: seq<Choice>, s: Word, typeFail: Word, fail: Word, next: Word, v: Value) returns (address: Word)
    requires Keys(cs) && |cs| < SMALL_END && WellTagged(v)
    requires Uniform(Immediates(cs)) && Immediates(cs) != [] && Boxes(cs) != []
    requires next != fail && forall c :: c in cs ==> c.target != next
    ensures address == SplitTo(cs, typeFail, fail, v)
  {
    hide Keys, Uniform, LaysOut, WellTagged;
    PartsAreKeys(cs);
    SplitSelects(cs, fail, next, v);
    var small, big := SplitValues(cs);
    var op1 := Compile(small, s, next);
    var op2 := Compile(big, s, fail);
    if typeFail == fail {
      address := Execute(op1, v, small, next);
      if address == next {
        if !IsInteger(v) {
          return fail;
        }
        address := Execute(op2, v, big, fail);
      }
    } else {
      if !IsInteger(v) {
        return typeFail;
      }
      address := Execute(op1, v, small, next);
      if address == next {
        address := Execute(op2, v, big, fail);
      }
    }
  }

  /** A float key whose label the integer test of gen_split_values keeps out of reach. */
  predicate Unreached(c: Choice, fail: Word) {
    c.key.LiteralKey? && c.key.number.Float? && c.target != fail
  }

  /** An atom key whose label is reached although the test in front says that only integers are selected on. */
  predicate Untested(c: Choice, fail: Word) {
    c.key.AtomKey? && c.target != fail
  }

  /**
   * The split selects what the source instructions say for all terms exactly if: without an integer test in
   * front, no float key is mixed in; with one that has the label Fail, no atom key is; with any other, always.
   */
  lemma SplitIsExact(cs: seq<Choice>, tested: bool, typeFail: Word, fail: Word)
    requires Keys(cs) && (!tested ==> typeFail == fail)
    ensures (forall v :: WellTagged(v) ==> SplitTo(cs, typeFail, fail, v) == Selected(cs, tested, typeFail, fail, v))
            <==> if !tested then forall c :: c in cs ==> !Unreached(c, fail)
                 else typeFail != fail || forall c :: c in cs ==> !Untested(c, fail)
  {
    if !tested {
      UntestedSplit(cs, fail);
    } else if typeFail == fail {
      TestedSplit(cs, fail);
    }
  }

  lemma UntestedSplit(cs: seq<Choice>, fail: Word)
    requires Keys(cs)
    ensures (forall v :: WellTagged(v) ==> SplitTo(cs, fail, fail, v) == Selected(cs, false, fail, fail, v))
            <==> forall c :: c in cs ==> !Unreached(c, fail)
  {
    hide Keys, SplitTo, Selected, Unreached, WellTagged;
    if c :| c in cs && Unreached(c, fail) {
      var v := FloatIsLost(cs, fail, c);
    } else {
      forall v
        ensures SplitTo(cs, fail, fail, v) == Selected(cs, false, fail, fail, v)
      {
        UntestedAgrees(cs, fail, v);
      }
    }
  }

  lemma FloatIsLost(cs: seq<Choice>, fail: Word, c: Choice) returns (v: Value)
    requires Keys(cs) && c in cs && Unreached(c, fail)
    ensures WellTagged(v) && SplitTo(cs, fail, fail, v) != Selected(cs, false, fail, fail, v)
  {
    v := Boxed(c.key.number, 1);
    LookupFound(cs, fail, v, c);
    hide Lookup, Keys;
  }

  lemma UntestedAgrees(cs: seq<Choice>, fail: Word, v: Value)
    requires Keys(cs) && forall c :: c in cs ==> !Unreached(c, fail)
    ensures SplitTo(cs, fail, fail, v) == Selected(cs, false, fail, fail, v)
  {
    hide Lookup, Keys, Unreached;
    if IsFloat(v) {
      FloatMisses(cs, fail, v);
    }
  }

  lemma TestedSplit(cs: seq<Choice>, fail: Word)
    requires Keys(cs)
    ensures (forall v :: WellTagged(v) ==> SplitTo(cs, fail, fail, v) == Selected(cs, true, fail, fail, v))
            <==> forall c :: c in cs ==> !Untested(c, fail)
  {
    hide Keys, SplitTo, Selected, Untested, WellTagged;
    if c :| c in cs && Untested(c, fail) {
      var v := AtomIsReached(cs, fail, c);
    } else {
      forall v
        ensures SplitTo(cs, fail, fail, v) == Selected(cs, true, fail, fail, v)
      {
        TestedAgrees(cs, fail, v);
      }
    }
  }

  lemma AtomIsReached(cs: seq<Choice>, fail: Word, c: Choice) returns (v: Value)
    requires Keys(cs) && c in cs && Untested(c, fail)
    ensures WellTagged(v) && SplitTo(cs, fail, fail, v) != Selected(cs, true, fail, fail, v)
  {
    assert ValidKey(c.key);
    v := Imm(c.key.val);
    LookupFound(cs, fail, v, c);
    hide Lookup, Keys;
  }

  lemma TestedAgrees(cs: seq<Choice>, fail: Word, v: Value)
    requires Keys(cs) && forall c :: c in cs ==> !Untested(c, fail)
    ensures SplitTo(cs, fail, fail, v) == Selected(cs, true, fail, fail, v)
  {
    hide Lookup, Keys, Untested;
    if !IsInteger(v) && !IsFloat(v) {
      OthersMiss(cs, fail, v);
    }
  }

  /** A term that is no number matches atom keys only. */
  lemma OthersMiss(cs: seq<Choice>, fail: Word, v: Value)
    requires Keys(cs) && !IsInteger(v) && !IsFloat(v) && forall c :: c in cs ==> !Untested(c, fail)
    ensures Lookup(cs, fail, v) == fail
  {
    if c :| c in cs && Matches(c.key, v) {
      LookupFound(cs, fail, v, c);
      if c.key.SmallKey? {
        TaggingIsInvertible(c.key.val, 0);
      }
      assert !Untested(c, fail);
    } else {
      LookupMissing(cs, fail, v);
    }
  }

  lemma FloatMisses(cs: seq<Choice>, fail: Word, v: Value)
    requires Keys(cs) && IsFloat(v) && forall c :: c in cs ==> !Unreached(c, fail)
    ensures Lookup(cs, fail, v) == fail
  {
    if c :| c in cs && Matches(c.key, v) {
      LookupFound(cs, fail, v, c);
      assert !Unreached(c, fail);
    } else {
      LookupMissing(cs, fail, v);
    }
  }

  /** Integer keys never match another type, so an integer test with the same Fail may be dropped. */
  lemma IntegerTestIsRedundant(cs: seq<Choice>, fail: Word, v: Value)
    requires Keys(cs) && !IsInteger(v)
    requires forall c :: c in cs ==> !c.key.AtomKey? && !(c.key.LiteralKey? && c.key.number.Float?)
    ensures Lookup(cs, fail, v) == fail
  {
    forall c | c in cs
      ensures !Matches(c.key, v)
    {
      if c.key.SmallKey? {
        TaggingIsInvertible(c.key.val, 0);
      }
    }
    LookupMissing(cs, fail, v);
  }
}

/**
 * The call-time tables of a breakpoint (bp_hash_* in erts/emulator/beam/beam_bp.c):
 * open addressing with linear probing, one table per scheduler, merged into one
 * when the times are read.
 */
module TimeHash {
  import opened Wrappers

  datatype Item = Free | Used(pid: nat, count: int, time: int)

  /** (pid >> 4) % n. */
  function Home(pid: nat, n: nat): nat
    requires n > 0
  {
    (pid / 16) % n
  }

  /** The slot `d` steps after `h`, around the end. */
  function Slot(h: nat, d: nat, n: nat): nat
    requires h < n && d < n
    ensures Slot(h, d, n) < n
  {
    if h + d < n then h + d else h + d - n
  }

  function Distance(h: nat, i: nat, n: nat): nat
    requires h < n && i < n
    ensures Distance(h, i, n) < n && Slot(h, Distance(h, i, n), n) == i
  {
    if i >= h then i - h else i + n - h
  }

  /** (hval + 1) % n. */
  lemma NextSlot(h: nat, d: nat, n: nat)
    requires h < n && d + 1 < n
    ensures (Slot(h, d, n) + 1) % n == Slot(h, d + 1, n)
  {
    var x := Slot(h, d, n) + 1;
    if x < n {
      assert x % n == x;
    } else {
      assert x == n && n % n == 0;
    }
  }

  /** The first `d` slots from `h` on are taken by other processes. */
  predicate Passed(items: seq<Item>, pid: nat, d: nat)
    requires 0 < |items| && d <= |items|
  {
    forall e :: 0 <= e < d ==>
      var x := items[Slot(Home(pid, |items|), e, |items|)];
      x.Used? && x.pid != pid
  }

  /** Every entry can be reached from its home slot, and no process has two. */
  predicate Probed(items: seq<Item>) {
    && 0 < |items|
    && (forall i :: 0 <= i < |items| && items[i].Used? ==>
          Passed(items, items[i].pid, Distance(Home(items[i].pid, |items|), i, |items|)))
  }

  function Taken(items: seq<Item>): nat {
    if items == [] then 0 else (if items[0].Used? then 1 else 0) + Taken(items[1..])
  }

  lemma {:induction false} TakenUpdate(items: seq<Item>, i: nat, x: Item)
    requires i < |items|
    ensures Taken(items[i := x]) + (if items[i].Used? then 1 else 0) == Taken(items) + (if x.Used? then 1 else 0)
  {
    if i == 0 {
      assert items[0 := x][1..] == items[1..];
    } else {
      TakenUpdate(items[1..], i - 1, x);
      assert items[i := x][1..] == items[1..][i - 1 := x];
    }
  }

  lemma {:induction false} SomeFree(items: seq<Item>) returns (i: nat)
    requires Taken(items) < |items|
    ensures i < |items| && items[i].Free?
  {
    if items[0].Free? {
      i := 0;
    } else {
      i := SomeFree(items[1..]);
      i := i + 1;
    }
  }

  /** Two entries of one process would each have to pass the other. */
  lemma OneEntry(items: seq<Item>, i: nat, j: nat)
    requires Probed(items) && i < |items| && j < |items|
    requires items[i].Used? && items[j].Used? && items[i].pid == items[j].pid
    ensures i == j
  {
    var n := |items|;
    var h := Home(items[i].pid, n);
    var di, dj := Distance(h, i, n), Distance(h, j, n);
    assert Passed(items, items[i].pid, di) && Passed(items, items[j].pid, dj);
  }

  /** Reaching a free slot without meeting the process means that it is nowhere. */
  lemma Absent(items: seq<Item>, pid: nat, d: nat, i: nat)
    requires Probed(items) && d < |items| && Passed(items, pid, d)
    requires items[Slot(Home(pid, |items|), d, |items|)].Free?
    requires i < |items| && items[i].Used?
    ensures items[i].pid != pid
  {
    var h := Home(pid, |items|);
    assert Slot(h, Distance(h, i, |items|), |items|) == i;
  }

  /** The loop of bp_hash_get and, for an absent process, of bp_hash_put: it ends at the entry or a free slot. */
  method Probe(items: seq<Item>, pid: nat) returns (i: nat, ghost d: nat)
    requires Probed(items) && Taken(items) < |items|
    ensures i < |items| && d < |items| && i == Slot(Home(pid, |items|), d, |items|) && Passed(items, pid, d)
    ensures items[i].Free? || items[i].pid == pid
  {
    var n := |items|;
    ghost var free := SomeFree(items);
    ghost var h := Home(pid, n);
    ghost var df := Distance(h, free, n);
    i := (pid / 16) % n;
    d := 0;
    while items[i].Used? && items[i].pid != pid
      invariant i < n && d <= df < n && i == Slot(h, d, n) && Passed(items, pid, d)
      decreases df - d
    {
      assert d != df;
      NextSlot(h, d, n);
      i := (i + 1) % n;
      d := d + 1;
    }
  }

  /** bp_hash_get. */
  method Get(items: seq<Item>, pid: nat) returns (found: Option<nat>)
    requires Probed(items) && Taken(items) < |items|
    ensures found.Some? ==> found.value < |items| && items[found.value].Used? && items[found.value].pid == pid
    ensures found.None? ==> forall i :: 0 <= i < |items| && items[i].Used? ==> items[i].pid != pid
  {
    ghost var d;
    var i;
    i, d := Probe(items, pid);
    if items[i].Free? {
      forall j | 0 <= j < |items| && items[j].Used?
        ensures items[j].pid != pid
      {
        Absent(items, pid, d, j);
      }
      return None;
    }
    found := Some(i);
  }

  // ---------- what a table stands for ----------

  /** The calls and the time recorded for a process. */
  function Calls(items: seq<Item>, pid: nat): int {
    if items == [] then 0
    else (if items[0].Used? && items[0].pid == pid then items[0].count else 0) + Calls(items[1..], pid)
  }

  function Time(items: seq<Item>, pid: nat): int {
    if items == [] then 0
    else (if items[0].Used? && items[0].pid == pid then items[0].time else 0) + Time(items[1..], pid)
  }

  predicate Has(items: seq<Item>, pid: nat) {
    exists i :: 0 <= i < |items| && items[i].Used? && items[i].pid == pid
  }

  function CallsOf(x: Item, pid: nat): int {
    if x.Used? && x.pid == pid then x.count else 0
  }

  function TimeOf(x: Item, pid: nat): int {
    if x.Used? && x.pid == pid then x.time else 0
  }

  lemma {:induction false} SumsUpdate(items: seq<Item>, i: nat, x: Item, pid: nat)
    requires i < |items|
    ensures Calls(items[i := x], pid) == Calls(items, pid) - CallsOf(items[i], pid) + CallsOf(x, pid)
    ensures Time(items[i := x], pid) == Time(items, pid) - TimeOf(items[i], pid) + TimeOf(x, pid)
  {
    if i == 0 {
      assert items[0 := x][1..] == items[1..];
    } else {
      SumsUpdate(items[1..], i - 1, x, pid);
      assert items[i := x][1..] == items[1..][i - 1 := x];
    }
  }

  /** The table is a map: the sums for a process are those of its one entry, or zero. */
  lemma {:induction false} AbsentSums(items: seq<Item>, pid: nat)
    requires !Has(items, pid)
    ensures Calls(items, pid) == 0 && Time(items, pid) == 0
  {
    if items != [] {
      assert forall i :: 0 <= i < |items[1..]| ==> items[1..][i] == items[i + 1];
      AbsentSums(items[1..], pid);
    }
  }

  lemma EntrySums(items: seq<Item>, i: nat)
    requires Probed(items) && i < |items| && items[i].Used?
    ensures Calls(items, items[i].pid) == items[i].count && Time(items, items[i].pid) == items[i].time
  {
    var pid, rest := items[i].pid, items[i := Free];
    SumsUpdate(items, i, Free, pid);
    if Has(rest, pid) {
      var j :| 0 <= j < |rest| && rest[j].Used? && rest[j].pid == pid;
      OneEntry(items, i, j);
      assert false;
    }
    AbsentSums(rest, pid);
  }

  // ---------- insertion and growth ----------

  /** bp_hash_init. */
  function EmptyTable(n: nat): (items: seq<Item>)
    ensures |items| == n && forall i :: 0 <= i < n ==> items[i].Free?
  {
    seq(n, _ => Free)
  }

  lemma EmptyFacts(n: nat, pid: nat)
    requires n > 0
    ensures Probed(EmptyTable(n)) && Taken(EmptyTable(n)) == 0 && !Has(EmptyTable(n), pid)
    ensures Calls(EmptyTable(n), pid) == 0 && Time(EmptyTable(n), pid) == 0
  {
    NoneTaken(EmptyTable(n));
    AbsentSums(EmptyTable(n), pid);
  }

  lemma {:induction false} NoneTaken(items: seq<Item>)
    requires forall i :: 0 <= i < |items| ==> items[i].Free?
    ensures Taken(items) == 0
  {
    if items != [] {
      NoneTaken(items[1..]);
    }
  }

  /** Filling the free slot where the probe for a new process ends keeps every entry reachable. */
  lemma InsertKeeps(items: seq<Item>, i: nat, d: nat, x: Item)
    requires Probed(items) && x.Used? && !Has(items, x.pid)
    requires d < |items| && i == Slot(Home(x.pid, |items|), d, |items|) && Passed(items, x.pid, d) && items[i].Free?
    ensures Probed(items[i := x])
  {
    var n, t := |items|, items[i := x];
    forall j | 0 <= j < n && t[j].Used?
      ensures Passed(t, t[j].pid, Distance(Home(t[j].pid, n), j, n))
    {
      if j == i {
        assert Distance(Home(x.pid, n), i, n) == d;
      } else {
        assert items[j].pid != x.pid;
        assert Passed(items, items[j].pid, Distance(Home(items[j].pid, n), j, n));
      }
    }
  }

  /** Inserting an entry adds its calls and time to its process and nothing to others. */
  lemma InsertAdds(items: seq<Item>, i: nat, x: Item, pid: nat)
    requires i < |items| && items[i].Free?
    ensures Calls(items[i := x], pid) == Calls(items, pid) + CallsOf(x, pid)
    ensures Time(items[i := x], pid) == Time(items, pid) + TimeOf(x, pid)
    ensures Taken(items[i := x]) == Taken(items) + if x.Used? then 1 else 0
  {
    SumsUpdate(items, i, x, pid);
    TakenUpdate(items, i, x);
  }

  /** The second half of bp_hash_put. */
  method Insert(items: seq<Item>, x: Item) returns (t: seq<Item>)
    requires Probed(items) && Taken(items) < |items| && x.Used? && !Has(items, x.pid)
    ensures |t| == |items| && Probed(t) && Taken(t) == Taken(items) + 1
    ensures forall pid: nat :: Calls(t, pid) == Calls(items, pid) + CallsOf(x, pid)
    ensures forall pid: nat :: Time(t, pid) == Time(items, pid) + TimeOf(x, pid)
    ensures forall pid: nat :: Has(t, pid) <==> Has(items, pid) || pid == x.pid
  {
    ghost var d;
    var i;
    i, d := Probe(items, x.pid);
    assert items[i].Free?;
    InsertKeeps(items, i, d, x);
    t := items[i := x];
    forall pid: nat
      ensures Calls(t, pid) == Calls(items, pid) + CallsOf(x, pid)
      ensures Time(t, pid) == Time(items, pid) + TimeOf(x, pid)
      ensures Taken(t) == Taken(items) + 1
      ensures Has(t, pid) <==> Has(items, pid) || pid == x.pid
    {
      InsertAdds(items, i, x, pid);
      HasAfter(items, i, x, pid);
    }
    InsertAdds(items, i, x, 0);
  }

  lemma HasAfter(items: seq<Item>, i: nat, x: Item, pid: nat)
    requires i < |items| && items[i].Free? && x.Used?
    ensures Has(items[i := x], pid) <==> Has(items, pid) || pid == x.pid
  {
    var t := items[i := x];
    if Has(items, pid) {
      var j :| 0 <= j < |items| && items[j].Used? && items[j].pid == pid;
      assert t[j].Used? && t[j].pid == pid;
    }
    if pid == x.pid {
      assert t[i].Used? && t[i].pid == pid;
    }
  }

  lemma {:induction false} PrefixStep(items: seq<Item>, k: nat, pid: nat)
    requires k < |items|
    ensures Calls(items[..k + 1], pid) == Calls(items[..k], pid) + CallsOf(items[k], pid)
    ensures Time(items[..k + 1], pid) == Time(items[..k], pid) + TimeOf(items[k], pid)
    ensures Taken(items[..k + 1]) == Taken(items[..k]) + if items[k].Used? then 1 else 0
    decreases k
  {
    if k == 0 {
      assert items[..1] == [items[0]] && items[..1][1..] == [];
    } else {
      PrefixStep(items[1..], k - 1, pid);
      assert items[..k + 1][1..] == items[1..][..k] && items[..k][1..] == items[1..][..k - 1];
      assert items[..k + 1][0] == items[0] == items[..k][0];
    }
  }

  lemma PrefixHas(items: seq<Item>, k: nat, pid: nat)
    requires k < |items|
    ensures Has(items[..k + 1], pid) <==> Has(items[..k], pid) || (items[k].Used? && items[k].pid == pid)
  {
    assert items[..k + 1][k] == items[k];
    assert forall i :: 0 <= i < k ==> items[..k][i] == items[..k + 1][i];
    if Has(items[..k], pid) {
      var i :| 0 <= i < k && items[..k][i].Used? && items[..k][i].pid == pid;
      assert items[..k + 1][i].Used? && items[..k + 1][i].pid == pid;
    }
  }

  lemma PrefixFacts(items: seq<Item>, k: nat, pid: nat)
    requires k < |items|
    ensures Calls(items[..k + 1], pid) == Calls(items[..k], pid) + CallsOf(items[k], pid)
    ensures Time(items[..k + 1], pid) == Time(items[..k], pid) + TimeOf(items[k], pid)
    ensures Has(items[..k + 1], pid) <==> Has(items[..k], pid) || (items[k].Used? && items[k].pid == pid)
  {
    PrefixStep(items, k, pid);
    PrefixHas(items, k, pid);
  }

  lemma {:induction false} TakenPrefix(items: seq<Item>, k: nat)
    requires k <= |items|
    ensures Taken(items[..k]) <= Taken(items)
  {
    if k > 0 {
      TakenPrefix(items[1..], k - 1);
      assert items[..k][1..] == items[1..][..k - 1];
    }
  }

  /** A process met now has not been met before. */
  lemma NotYet(items: seq<Item>, k: nat)
    requires Probed(items) && k < |items| && items[k].Used?
    ensures !Has(items[..k], items[k].pid)
  {
    forall i | 0 <= i < |items| && items[i].Used? && items[i].pid == items[k].pid
      ensures i == k
    {
      OneEntry(items, i, k);
    }
  }

  /** bp_hash_rehash: a table of another size with the same contents. */
  method Rehash(items: seq<Item>, n: nat) returns (t: seq<Item>)
    requires Probed(items) && Taken(items) < n
    ensures |t| == n && Probed(t) && Taken(t) == Taken(items)
    ensures forall pid: nat :: Calls(t, pid) == Calls(items, pid) && Time(t, pid) == Time(items, pid)
    ensures forall pid: nat :: Has(t, pid) <==> Has(items, pid)
  {
    hide Probed, Has, Calls, Time, Taken;
    t := EmptyTable(n);
    forall pid {
      EmptyFacts(n, pid);
    }
    forall pid {
      Nothing(pid);
    }
    EmptyFacts(n, 0);
    Nothing(0);
    assert items[..0] == [];
    for k := 0 to |items|
      invariant |t| == n && Probed(t) && Taken(t) == Taken(items[..k])
      invariant forall pid: nat :: Calls(t, pid) == Calls(items[..k], pid) && Time(t, pid) == Time(items[..k], pid)
      invariant forall pid: nat :: Has(t, pid) <==> Has(items[..k], pid)
    {
      forall pid {
        PrefixFacts(items, k, pid);
      }
      PrefixStep(items, k, 0);
      TakenPrefix(items, k);
      if items[k].Used? {
        NotYet(items, k);
        t := Insert(t, items[k]);
      }
    }
    assert items[..|items|] == items;
  }

  lemma Nothing(pid: nat)
    ensures !Has([], pid) && Calls([], pid) == 0 && Time([], pid) == 0 && Taken([]) == 0
  {
  }

  /** BP_TIME_ADD on the entry of the same process. */
  lemma AddKeeps(items: seq<Item>, i: nat, x: Item)
    requires Probed(items) && i < |items| && items[i].Used? && x.Used? && x.pid == items[i].pid
    ensures Probed(items[i := x]) && Taken(items[i := x]) == Taken(items)
    ensures forall pid: nat :: Has(items[i := x], pid) <==> Has(items, pid)
  {
    var n, t := |items|, items[i := x];
    TakenUpdate(items, i, x);
    forall j | 0 <= j < n && t[j].Used?
      ensures Passed(t, t[j].pid, Distance(Home(t[j].pid, n), j, n))
    {
      assert Passed(items, items[j].pid, Distance(Home(items[j].pid, n), j, n));
    }
    forall pid: nat
      ensures Has(t, pid) <==> Has(items, pid)
    {
      if Has(items, pid) {
        var j :| 0 <= j < n && items[j].Used? && items[j].pid == pid;
        assert t[j].Used? && t[j].pid == pid;
      }
    }
  }

  // ---------- the load test, in single precision ----------

  /** p / q rounded to the nearest integer, halves to the even one. */
  function Nearest(p: nat, q: nat): nat
    requires q > 0
  {
    var d, m := p / q, p % q;
    if 2 * m < q || (2 * m == q && d % 2 == 0) then d else d + 1
  }

  /** The distance of neighbouring floats at u: a significand has 24 bits. */
  function Spacing(u: nat): (e: nat)
    ensures e >= 1 && u < 0x100_0000 * e && (u >= 0x100_0000 ==> u >= 0x80_0000 * e)
  {
    if u < 0x100_0000 then 1 else 2 * Spacing(u / 2)
  }

  /** An integer converted to float. */
  function Single(u: nat): nat {
    Spacing(u) * Nearest(u, Spacing(u))
  }

  /** The constant 0.7f, in units of 2^-24, which is the distance of floats between one half and one. */
  const SEVEN_TENTHS: nat := 11744051

  /** used / (float) n > 0.7f. */
  predicate Crowded(used: nat, n: nat)
    requires n > 0
  {
    SingleBounds(n);
    Nearest(0x100_0000 * Single(used), Single(n)) > SEVEN_TENTHS
  }

  lemma NearestBounds(p: nat, q: nat)
    requires q > 0
    ensures 2 * p - q <= 2 * (q * Nearest(p, q)) <= 2 * p + q
  {
    assert p == q * (p / q) + p % q;
  }

  /** A conversion is off by at most one part in 2^24. */
  lemma SingleBounds(u: nat)
    ensures 0xFF_FFFF * u <= 0x100_0000 * Single(u) <= 0x100_0001 * u
    ensures u < 0x100_0000 ==> Single(u) == u
    ensures u > 0 ==> Single(u) > 0
  {
    if u >= 0x100_0000 {
      NearestBounds(u, Spacing(u));
    }
  }

  /** A quotient rounds above an odd constant exactly from the midpoint to the next float on. */
  lemma NearestAbove(p: nat, q: nat)
    requires q > 0
    ensures Nearest(p, q) > SEVEN_TENTHS <==> 2 * p >= (2 * SEVEN_TENTHS + 1) * q
  {
    var d, m := p / q, p % q;
    assert p == q * d + m;
    if d < SEVEN_TENTHS {
      Scaled(d + 1, SEVEN_TENTHS, q);
    } else if d > SEVEN_TENTHS {
      Scaled(SEVEN_TENTHS + 1, d, q);
    }
  }

  lemma Scaled(a: nat, b: nat, q: nat)
    requires a <= b
    ensures q * a <= q * b
  {
  }

  /** A table that is not crowded has two free slots, whatever the rounding. */
  lemma RoomLeft(used: nat, n: nat)
    requires n >= 4 && !Crowded(used, n)
    ensures used + 1 < n
  {
    SingleBounds(used);
    SingleBounds(n);
    NearestAbove(0x100_0000 * Single(used), Single(n));
    ThreeQuarters(used, Single(used), n, Single(n));
  }

  lemma ThreeQuarters(used: nat, u: nat, n: nat, m: nat)
    requires 0xFF_FFFF * used <= 0x100_0000 * u && 0x100_0000 * m <= 0x100_0001 * n && n > 0
    requires 0x200_0000 * u < (2 * SEVEN_TENTHS + 1) * m
    ensures 4 * used < 3 * n
  {
    assert 0x1FF_FFFE * used <= 0x200_0000 * u <= 0x166_6667 * m;
    assert 0x1FF_FFFE * used <= 0x166_6669 * n;
  }

  /** Up to four million slots the test is that of seven tenths exactly. */
  lemma CrowdedIsSevenTenths(used: nat, n: nat)
    requires 0 < n <= 0x40_0000 && used <= n
    ensures Crowded(used, n) <==> 10 * used > 7 * n
  {
    SingleBounds(used);
    SingleBounds(n);
    NearestAbove(0x100_0000 * Single(used), Single(n));
    hide Single, Nearest;
  }

  class Table {
    var items: seq<Item>
    var used: nat

    /** The load rule keeps a free slot, which ends every probe. */
    ghost predicate Valid()
      reads this
    {
      Probed(items) && used == Taken(items) < |items| && 4 <= |items|
    }

    constructor (n: nat)
      requires n >= 4
      ensures Valid() && used == 0
      ensures forall pid: nat :: Calls(items, pid) == 0 && Time(items, pid) == 0 && !Has(items, pid)
    {
      items, used := EmptyTable(n), 0;
      forall pid {
        EmptyFacts(n, pid);
      }
      EmptyFacts(n, 0);
    }

    /** bp_hash_put: doubles the table when more than seven tenths are used. */
    method Put(x: Item)
      requires Valid() && x.Used? && !Has(items, x.pid)
      modifies this
      ensures Valid() && used == old(used) + 1
      ensures |items| == if Crowded(old(used), |old(items)|) then 2 * |old(items)| else |old(items)|
      ensures forall pid: nat :: Calls(items, pid) == old(Calls(items, pid)) + CallsOf(x, pid)
      ensures forall pid: nat :: Time(items, pid) == old(Time(items, pid)) + TimeOf(x, pid)
      ensures forall pid: nat :: Has(items, pid) <==> old(Has(items, pid)) || pid == x.pid
    {
      hide Probed, Has, Calls, Time, Taken;
      var t := items;
      if Crowded(used, |items|) {
        t := Rehash(items, |items| * 2);
      } else {
        RoomLeft(used, |items|);
      }
      t := Insert(t, x);
      items, used := t, used + 1;
    }

    /** What erts_is_time_break does with one entry of a scheduler's table. */
    method Add(x: Item)
      requires Valid() && x.Used?
      modifies this
      ensures Valid()
      ensures forall pid: nat :: Calls(items, pid) == old(Calls(items, pid)) + CallsOf(x, pid)
      ensures forall pid: nat :: Time(items, pid) == old(Time(items, pid)) + TimeOf(x, pid)
      ensures forall pid: nat :: Has(items, pid) <==> old(Has(items, pid)) || pid == x.pid
    {
      hide Probed, Calls, Time, Taken;
      var found := Get(items, x.pid);
      if found.Some? {
        var i := found.value;
        var y := Used(x.pid, items[i].count + x.count, items[i].time + x.time);
        AddKeeps(items, i, y);
        ghost var before := items;
        forall pid {
          SumsUpdate(before, i, y, pid);
        }
        assert Has(before, x.pid);
        hide Has;
        items := items[i := y];
      } else {
        Put(x);
      }
    }

    /** All entries of one scheduler's table. */
    method AddTable(t: seq<Item>)
      requires Valid()
      modifies this
      ensures Valid()
      ensures forall pid: nat :: Calls(items, pid) == old(Calls(items, pid)) + Calls(t, pid)
      ensures forall pid: nat :: Time(items, pid) == old(Time(items, pid)) + Time(t, pid)
      ensures forall pid: nat :: Has(items, pid) <==> old(Has(items, pid)) || Has(t, pid)
    {
      hide Probed, Has, Calls, Time, Taken;
      ghost var before := items;
      forall pid {
        Nothing(pid);
      }
      assert t[..0] == [];
      for k := 0 to |t|
        invariant Valid()
        invariant forall pid: nat :: Calls(items, pid) == Calls(before, pid) + Calls(t[..k], pid)
        invariant forall pid: nat :: Time(items, pid) == Time(before, pid) + Time(t[..k], pid)
        invariant forall pid: nat :: Has(items, pid) <==> Has(before, pid) || Has(t[..k], pid)
      {
        forall pid {
          PrefixFacts(t, k, pid);
        }
        if t[k].Used? {
          Add(t[k]);
        }
      }
      assert t[..|t|] == t;
    }
  }

  function TotalCalls(ts: seq<seq<Item>>, pid: nat): int {
    if ts == [] then 0 else TotalCalls(ts[..|ts| - 1], pid) + Calls(ts[|ts| - 1], pid)
  }

  function TotalTime(ts: seq<seq<Item>>, pid: nat): int {
    if ts == [] then 0 else TotalTime(ts[..|ts| - 1], pid) + Time(ts[|ts| - 1], pid)
  }

  /** The collecting loop of erts_is_time_break: no call and no time is lost or counted twice. */
  method Collect(ts: seq<seq<Item>>) returns (hash: Table)
    ensures fresh(hash) && hash.Valid()
    ensures forall pid: nat :: Calls(hash.items, pid) == TotalCalls(ts, pid)
    ensures forall pid: nat :: Time(hash.items, pid) == TotalTime(ts, pid)
  {
    hide Probed, Has, Calls, Time, Taken;
    hash := new Table(64);
    for k := 0 to |ts|
      invariant fresh(hash) && hash.Valid()
      invariant forall pid: nat :: Calls(hash.items, pid) == TotalCalls(ts[..k], pid)
      invariant forall pid: nat :: Time(hash.items, pid) == TotalTime(ts[..k], pid)
    {
      assert ts[..k + 1][..k] == ts[..k];
      hash.AddTable(ts[k]);
    }
    assert ts[..|ts|] == ts;
  }
}

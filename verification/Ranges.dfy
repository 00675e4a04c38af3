/**
 * The address ranges of loaded modules (erts/emulator/beam/beam_ranges.c): a
 * sorted table per code index, rebuilt while code is staged, searched from a
 * cached midpoint, and purged in place by making a range empty.
 */
module Ranges {
  import opened Wrappers
  import CodeIx

  datatype Range = Range(start: nat, end: nat)

  predicate Contains(m: Range, pc: nat) {
    m.start <= pc < m.end
  }

  /** Not purged. */
  predicate Live(m: Range) {
    m.start < m.end
  }

  predicate Apart(a: Range, b: Range) {
    a.end <= b.start || b.end <= a.start
  }

  /** Sorted and disjoint; purged ranges are empty but keep their place. */
  predicate Ordered(s: seq<Range>) {
    && (forall i :: 0 <= i < |s| ==> s[i].start <= s[i].end)
    && (forall i, j :: 0 <= i < j < |s| ==> s[i].end <= s[j].start && s[i].start < s[j].start)
  }

  /** At most one range contains an address. */
  lemma ContainsOnce(s: seq<Range>, i: nat, j: nat, pc: nat)
    requires Ordered(s) && i < |s| && j < |s| && Contains(s[i], pc) && Contains(s[j], pc)
    ensures i == j
  {
  }

  /** find_range: a binary search whose first probe is wherever the last search ended. */
  method FindRange(s: seq<Range>, cached: nat, pc: nat) returns (found: Option<nat>, mid: nat)
    requires Ordered(s) && (cached < |s| || s == [])
    ensures found.Some? ==> found.value < |s| && Contains(s[found.value], pc)
    ensures found.None? ==> forall i :: 0 <= i < |s| ==> !Contains(s[i], pc)
    ensures mid == if found.Some? then found.value else cached
  {
    var low, high := 0, |s|;
    var m := cached;
    while low < high
      invariant 0 <= low <= high <= |s| && (low < high ==> low <= m < high)
      invariant forall i :: 0 <= i < low || high <= i < |s| ==> !Contains(s[i], pc)
    {
      if pc < s[m].start {
        Above(s, m, pc);
        high := m;
      } else if pc >= s[m].end {
        Beneath(s, m, pc);
        low := m + 1;
      } else {
        return Some(m), m;
      }
      m := low + (high - low) / 2;
    }
    return None, cached;
  }

  lemma Above(s: seq<Range>, m: nat, pc: nat)
    requires Ordered(s) && m < |s| && pc < s[m].start
    ensures forall i :: m <= i < |s| ==> !Contains(s[i], pc)
  {
  }

  lemma Beneath(s: seq<Range>, m: nat, pc: nat)
    requires Ordered(s) && m < |s| && s[m].end <= pc
    ensures forall i :: 0 <= i <= m ==> !Contains(s[i], pc)
  {
  }

  // ---------- building a table ----------

  /** In the order of rangecompare; no two ranges start at the same address. */
  predicate Sorted(s: seq<Range>) {
    forall i, j :: 0 <= i < j < |s| ==> s[i].start < s[j].start
  }

  /** Nonempty ranges that overlap nowhere. */
  predicate Disjoint(s: seq<Range>) {
    && (forall i :: 0 <= i < |s| ==> Live(s[i]))
    && (forall i, j :: 0 <= i < j < |s| ==> Apart(s[i], s[j]))
  }

  lemma SortedDisjoint(s: seq<Range>)
    requires Sorted(s) && Disjoint(s)
    ensures Ordered(s)
  {
    forall i, j | 0 <= i < j < |s|
      ensures s[i].end <= s[j].start
    {
      assert Apart(s[i], s[j]) && Live(s[j]);
    }
  }

  /** A sorted table is determined by its contents, so every way of sorting gives the same one. */
  lemma {:induction false} SortedUnique(s: seq<Range>, t: seq<Range>)
    requires Sorted(s) && Sorted(t) && multiset(s) == multiset(t)
    ensures s == t
    decreases |s|
  {
    assert |multiset(s)| == |s| && |multiset(t)| == |t|;
    if s != [] {
      SameFirst(s, t);
      RestSorted(s);
      RestSorted(t);
      hide Sorted;
      SortedUnique(s[1..], t[1..]);
    }
  }

  lemma RestSorted(s: seq<Range>)
    requires Sorted(s) && s != []
    ensures s == [s[0]] + s[1..] && Sorted(s[1..]) && multiset(s[1..]) == multiset(s) - multiset{s[0]}
  {
    assert s == [s[0]] + s[1..];
  }

  lemma SameFirst(s: seq<Range>, t: seq<Range>)
    requires Sorted(s) && Sorted(t) && multiset(s) == multiset(t) && |s| == |t| > 0
    ensures s[0] == t[0]
  {
    assert s[0] in multiset(t) && t[0] in multiset(s);
    var i :| 0 <= i < |t| && t[i] == s[0];
    var j :| 0 <= j < |s| && s[j] == t[0];
  }

  /** Where a range belongs in a sorted table. */
  function Sifted(t: Range, rest: seq<Range>): seq<Range> {
    if rest == [] || t.start <= rest[0].start then [t] + rest
    else [rest[0]] + Sifted(t, rest[1..])
  }

  lemma {:induction false} SiftedContents(t: Range, rest: seq<Range>)
    ensures multiset(Sifted(t, rest)) == multiset{t} + multiset(rest)
  {
    if rest != [] {
      assert rest == [rest[0]] + rest[1..];
      SiftedContents(t, rest[1..]);
    }
  }

  lemma {:induction false} SiftedIsSorted(t: Range, rest: seq<Range>)
    requires Sorted(rest) && forall i :: 0 <= i < |rest| ==> rest[i].start != t.start
    ensures Sorted(Sifted(t, rest)) && multiset(Sifted(t, rest)) == multiset([t] + rest)
  {
    SiftedContents(t, rest);
    if rest == [] || t.start <= rest[0].start {
      SiftedAt(t, rest, 0);
      assert [] + [t] + rest == [t] + rest;
    } else {
      SiftedIsSorted(t, rest[1..]);
      SiftedContents(t, rest[1..]);
      Prepend(rest[0], t, rest[1..], Sifted(t, rest[1..]));
    }
  }

  lemma Prepend(first: Range, t: Range, rest: seq<Range>, u: seq<Range>)
    requires Sorted(u) && multiset(u) == multiset{t} + multiset(rest)
    requires first.start < t.start && forall i :: 0 <= i < |rest| ==> first.start < rest[i].start
    ensures Sorted([first] + u)
  {
    forall i | 0 <= i < |u|
      ensures first.start < u[i].start
    {
      assert u[i] in multiset(u);
      assert u[i] == t || u[i] in rest;
    }
  }

  /** qsort with rangecompare. */
  method QSort(s: seq<Range>) returns (t: seq<Range>)
    requires Disjoint(s)
    ensures Sorted(t) && multiset(t) == multiset(s)
  {
    t := [];
    var i := |s|;
    while i > 0
      invariant 0 <= i <= |s| && Sorted(t) && multiset(t) == multiset(s[i..])
    {
      i := i - 1;
      assert s[i..] == [s[i]] + s[i + 1..];
      NewStart(s, i, t);
      SiftedIsSorted(s[i], t);
      t := Sifted(s[i], t);
    }
    assert s[0..] == s;
  }

  lemma NewStart(s: seq<Range>, i: nat, t: seq<Range>)
    requires Disjoint(s) && i < |s| && multiset(t) == multiset(s[i + 1..])
    ensures forall k :: 0 <= k < |t| ==> t[k].start != s[i].start
  {
    forall k | 0 <= k < |t|
      ensures t[k].start != s[i].start
    {
      assert t[k] in multiset(s[i + 1..]);
      var j :| 0 <= j < |s[i + 1..]| && s[i + 1..][j] == t[k];
      assert Apart(s[i], s[i + 1 + j]) && Live(s[i]) && Live(s[i + 1 + j]);
    }
  }

  /** The array when the loop has stopped at place i and the first range is stored there. */
  lemma SiftedIs(s: seq<Range>, u: seq<Range>, i: nat)
    requires i < |s| == |u| && u[i] == s[0]
    requires forall k :: 0 < k <= i ==> u[k - 1] == s[k] && s[0].start > s[k].start
    requires forall k :: i < k < |s| ==> u[k] == s[k]
    requires i + 1 < |s| ==> s[0].start <= s[i + 1].start
    ensures u == Sifted(s[0], s[1..])
  {
    hide Sifted;
    var rest := s[1..];
    SiftedAt(s[0], rest, i);
    var v := rest[..i] + [s[0]] + rest[i..];
    forall k | 0 <= k < |u|
      ensures u[k] == v[k]
    {
      if k < i {
        assert u[k + 1 - 1] == s[k + 1];
      }
    }
  }

  /** The sift in erts_end_staging_ranges, in place. */
  method SiftFirst(mp: array<Range>, n: nat)
    requires 1 <= n <= mp.Length
    modifies mp
    ensures mp[..n] == Sifted(old(mp[0]), old(mp[1..n])) && mp[n..] == old(mp[n..])
  {
    hide Sifted;
    ghost var s := mp[..n];
    var t := mp[0];
    var i := 0;
    while i < n - 1 && t.start > mp[i + 1].start
      invariant 0 <= i < n
      invariant forall k :: 0 < k <= i ==> mp[k - 1] == s[k] && t.start > s[k].start
      invariant forall k :: i < k < n ==> mp[k] == s[k]
      invariant forall k :: n <= k < mp.Length ==> mp[k] == old(mp[k])
    {
      mp[i] := mp[i + 1];
      i := i + 1;
    }
    mp[i] := t;
    SiftedIs(s, mp[..n], i);
    assert s[1..] == old(mp[1..n]);
  }

  /** The place is in front of the first range that does not start below. */
  lemma {:induction false} SiftedAt(t: Range, rest: seq<Range>, i: nat)
    requires i <= |rest| && forall k :: 0 <= k < i ==> t.start > rest[k].start
    requires i < |rest| ==> t.start <= rest[i].start
    ensures Sifted(t, rest) == rest[..i] + [t] + rest[i..]
  {
    if i > 0 {
      SiftedAt(t, rest[1..], i - 1);
      assert rest[..i] == [rest[0]] + rest[1..][..i - 1];
    }
  }

  /** Sifting one new range into a sorted table gives what a full sort would. */
  lemma SiftIsSort(t: Range, rest: seq<Range>, all: seq<Range>)
    requires Sorted(rest) && Disjoint([t] + rest) && Sorted(all) && multiset(all) == multiset([t] + rest)
    ensures Sifted(t, rest) == all
  {
    forall i | 0 <= i < |rest|
      ensures rest[i].start != t.start
    {
      var u := [t] + rest;
      assert Apart(u[0], u[i + 1]) && Live(u[0]) && Live(u[i + 1]);
    }
    SiftedIsSorted(t, rest);
    SortedUnique(Sifted(t, rest), all);
  }

  /** The ranges that have not been purged, in order. */
  function LiveOnes(s: seq<Range>): seq<Range> {
    if s == [] then [] else (if Live(s[0]) then [s[0]] else []) + LiveOnes(s[1..])
  }

  lemma {:induction false} LiveOnesAre(s: seq<Range>, m: Range)
    ensures m in LiveOnes(s) <==> m in s && Live(m)
    ensures |LiveOnes(s)| <= |s|
  {
    if s != [] {
      LiveOnesAre(s[1..], m);
    }
  }

  lemma {:induction false} LiveOnesInOrder(s: seq<Range>)
    requires Ordered(s)
    ensures Ordered(LiveOnes(s))
  {
    if s != [] {
      LiveOnesInOrder(s[1..]);
      var u := LiveOnes(s[1..]);
      forall i | 0 <= i < |u|
        ensures s[0].end <= u[i].start && s[0].start < u[i].start
      {
        LiveOnesAre(s[1..], u[i]);
        assert u[i] in s[1..];
      }
      FirstInOrder(s[0], u);
      assert [] + u == u;
    }
  }

  lemma FirstInOrder(m: Range, u: seq<Range>)
    requires Ordered(u) && m.start <= m.end && forall i :: 0 <= i < |u| ==> m.end <= u[i].start && m.start < u[i].start
    ensures Ordered([m] + u)
  {
  }

  lemma LiveOnesOrdered(s: seq<Range>)
    requires Ordered(s)
    ensures Ordered(LiveOnes(s)) && Sorted(LiveOnes(s)) && Disjoint(LiveOnes(s))
  {
    LiveOnesInOrder(s);
    var u := LiveOnes(s);
    forall i | 0 <= i < |u|
      ensures Live(u[i])
    {
      LiveOnesAre(s, u[i]);
    }
  }

  lemma {:induction false} LiveOnesStep(s: seq<Range>, i: nat)
    requires i < |s|
    ensures LiveOnes(s[..i + 1]) == LiveOnes(s[..i]) + if Live(s[i]) then [s[i]] else []
  {
    if i == 0 {
      assert s[..1] == [s[0]] && s[..0] == [] && s[..1][1..] == [];
    } else {
      LiveOnesStep(s[1..], i - 1);
      assert s[..i + 1][1..] == s[1..][..i] && s[..i][1..] == s[1..][..i - 1];
      assert s[..i + 1][0] == s[0] == s[..i][0];
    }
  }

  /** The copy loop: old ranges go behind the new ones, purged ones are left out. */
  method CopyLive(mp: array<Range>, written: nat, src: seq<Range>) returns (n: nat)
    requires written + |src| <= mp.Length
    modifies mp
    ensures written <= n <= mp.Length && mp[..n] == old(mp[..written]) + LiveOnes(src)
  {
    hide LiveOnes;
    n := written;
    ghost var pre := mp[..written];
    NoLive();
    assert src[..0] == [] && pre + [] == pre;
    var i := 0;
    while i < |src|
      invariant 0 <= i <= |src| && written <= n <= written + i
      invariant mp[..n] == pre + LiveOnes(src[..i])
    {
      LiveOnesStep(src, i);
      if src[i].start < src[i].end {
        mp[n] := src[i];
        n := n + 1;
        assert mp[..n] == mp[..n - 1] + [src[i]];
      }
      i := i + 1;
    }
    assert src[..i] == src;
  }

  lemma NoLive()
    ensures LiveOnes([]) == []
  {
  }

  /** The entries that erts_update_ranges has written one by one. */
  method CopyInserted(mp: array<Range>, inserted: seq<Range>)
    requires |inserted| <= mp.Length
    modifies mp
    ensures mp[..|inserted|] == inserted
  {
    var w := 0;
    while w < |inserted|
      invariant 0 <= w <= |inserted| && mp[..w] == inserted[..w]
    {
      mp[w] := inserted[w];
      w := w + 1;
    }
  }

  /** erts_end_staging_ranges(1): the new table holds the new and the unpurged old ranges, in order. */
  method BuildTable(inserted: seq<Range>, src: seq<Range>, room: nat) returns (mods: seq<Range>)
    requires Ordered(src) && Disjoint(inserted + LiveOnes(src)) && |inserted| + |src| <= room
    ensures Ordered(mods) && |mods| <= room
    ensures multiset(mods) == multiset(inserted + LiveOnes(src))
  {
    hide LiveOnes, Sifted, Disjoint, Sorted, Ordered;
    var mp := new Range[room](_ => Range(0, 0));
    CopyInserted(mp, inserted);
    var n := CopyLive(mp, |inserted|, src);
    assert mp[..n] == inserted + LiveOnes(src);
    mods := OrderTable(mp, n, |inserted|, inserted, LiveOnes(src), src);
  }

  /** The entries put in order: by a sort, by sifting the one new entry, or not at all. */
  method OrderTable(mp: array<Range>, n: nat, added: nat, ghost inserted: seq<Range>, ghost live: seq<Range>,
                    ghost src: seq<Range>)
    returns (mods: seq<Range>)
    requires n <= mp.Length && mp[..n] == inserted + live && added == |inserted|
    requires Ordered(src) && live == LiveOnes(src) && Disjoint(inserted + live)
    modifies mp
    ensures Ordered(mods) && |mods| <= n && multiset(mods) == multiset(inserted + live)
  {
    hide LiveOnes, Sifted, Disjoint, Sorted, Ordered;
    LiveOnesOrdered(src);
    if added > 1 {
      mods := QSort(mp[..n]);
      KeepDisjoint(inserted + live, mods);
      SortedDisjoint(mods);
    } else if added == 1 {
      OneInserted(mp[..n], inserted, live);
      assert mp[0] == mp[..n][0] && mp[1..n] == mp[..n][1..];
      SiftFirst(mp, n);
      mods := mp[..n];
      SiftTable(inserted[0], live, mods);
    } else {
      mods := mp[..n];
      assert inserted + live == live;
    }
    SameLength(mods, inserted + live);
  }

  lemma OneInserted(s: seq<Range>, inserted: seq<Range>, live: seq<Range>)
    requires |inserted| == 1 && s == inserted + live
    ensures inserted + live == [inserted[0]] + live && s[0] == inserted[0] && s[1..] == live
  {
  }

  lemma SameLength(s: seq<Range>, t: seq<Range>)
    requires multiset(s) == multiset(t)
    ensures |s| == |t|
  {
    assert |multiset(s)| == |s| && |multiset(t)| == |t|;
  }

  lemma SiftTable(t: Range, rest: seq<Range>, mods: seq<Range>)
    requires Sorted(rest) && Disjoint([t] + rest) && mods == Sifted(t, rest)
    ensures Ordered(mods) && multiset(mods) == multiset([t] + rest)
  {
    forall i | 0 <= i < |rest|
      ensures rest[i].start != t.start
    {
      var u := [t] + rest;
      assert Apart(u[0], u[i + 1]) && Live(u[0]) && Live(u[i + 1]);
    }
    SiftedIsSorted(t, rest);
    KeepDisjoint([t] + rest, mods);
    SortedDisjoint(mods);
  }

  /** Reordering keeps ranges disjoint. */
  lemma KeepDisjoint(s: seq<Range>, t: seq<Range>)
    requires Disjoint(s) && Sorted(t) && multiset(s) == multiset(t)
    ensures Disjoint(t)
  {
    forall i | 0 <= i < |t|
      ensures t[i] in s
    {
      assert t[i] in multiset(s);
    }
    forall i, j | 0 <= i < j < |t|
      ensures Apart(t[i], t[j])
    {
      var a :| 0 <= a < |s| && s[a] == t[i];
      var b :| 0 <= b < |s| && s[b] == t[j];
      assert a != b;
      assert if a < b then Apart(s[a], s[b]) else Apart(s[b], s[a]);
    }
  }

  /** Making one range empty drops exactly that range. */
  lemma {:induction false} PurgeDrops(s: seq<Range>, i: nat)
    requires i < |s| && Live(s[i])
    ensures multiset(LiveOnes(s[i := Range(s[i].start, s[i].start)])) + multiset{s[i]} == multiset(LiveOnes(s))
  {
    var t := s[i := Range(s[i].start, s[i].start)];
    if i == 0 {
      assert t[1..] == s[1..];
    } else {
      PurgeDrops(s[1..], i - 1);
      assert t[1..] == s[1..][i - 1 := Range(s[i].start, s[i].start)];
    }
  }

  /** One table: its ranges, the room of its array, and the cached search position. */
  datatype Table = Table(mods: seq<Range>, room: nat, mid: nat)

  predicate Searchable(t: Table) {
    Ordered(t.mods) && (t.mid < |t.mods| || t.mods == [])
  }

  /** A staging in progress: the new ranges overlap neither each other nor a range in use. */
  predicate Staged(inserted: seq<Range>, expected: nat, active: Table, staging: Table) {
    && |inserted| <= expected && staging.room == |active.mods| + expected
    && Disjoint(inserted + LiveOnes(active.mods))
  }

  /** Room for the preloaded modules, made when the first of them is entered. */
  const START_UP_ROOM: nat := 128

  /** At start-up the staged table is the active one, still without a valid entry. */
  predicate StartingUp(inserted: seq<Range>, expected: nat, active: Table) {
    && active.mods == [] && |inserted| <= expected == START_UP_ROOM
    && (active.room == START_UP_ROOM || (active.room == 0 && inserted == []))
    && Disjoint(inserted + LiveOnes(active.mods))
  }

  lemma AddDisjoint(inserted: seq<Range>, m: Range, old': seq<Range>)
    requires Disjoint(inserted + old') && Live(m)
    requires forall x :: x in inserted || x in old' ==> Apart(m, x)
    ensures Disjoint((inserted + [m]) + old')
  {
    var s, t := inserted + old', (inserted + [m]) + old';
    var n := |inserted|;
    assert forall k :: 0 <= k < |t| ==> t[k] == if k < n then s[k] else if k == n then m else s[k - 1];
    forall i, j | 0 <= i < j < |t|
      ensures Apart(t[i], t[j])
    {
      if i == n {
        assert t[j] == old'[j - n - 1] && t[j] in old';
      } else if j == n {
        assert t[i] == inserted[i] && t[i] in inserted;
      } else {
        assert Apart(s[if i < n then i else i - 1], s[if j < n then j else j - 1]);
      }
    }
    forall k | 0 <= k < |t|
      ensures Live(t[k])
    {
      assert k == n || Live(s[if k < n then k else k - 1]);
    }
  }

  class RangeIndex {
    var tables: seq<Table>
    var active: nat
    var staging: nat
    var open: bool
    var inserted: seq<Range>
    var expected: nat
    var memUsed: int

    ghost predicate Valid()
      reads this
    {
      && |tables| == CodeIx.NUM_CODE_IX && active < |tables| && staging < |tables|
      && Searchable(tables[active])
      && memUsed == tables[0].room + tables[1].room + tables[2].room
      && (open ==> if staging == active then StartingUp(inserted, expected, tables[active])
                   else Staged(inserted, expected, tables[active], tables[staging]))
    }

    /** The ranges an address lookup can find. */
    ghost function InUse(): multiset<Range>
      requires Valid()
      reads this
    {
      multiset(LiveOnes(tables[active].mods))
    }

    /** erts_init_ranges: the system starts up with one index both active and staged. */
    constructor ()
      ensures Valid() && open && staging == active && inserted == [] && expected == START_UP_ROOM
      ensures InUse() == multiset{} && memUsed == 0
    {
      tables := [Table([], 0, 0), Table([], 0, 0), Table([], 0, 0)];
      active, staging, open, inserted, expected, memUsed := 0, 0, true, [], START_UP_ROOM, 0;
      assert [] + LiveOnes([]) == [];
    }

    /** erts_start_staging_ranges; the code index layer has picked an index that is not active. */
    method StartStaging(numNew: nat, index: nat)
      requires Valid() && !open && index < CodeIx.NUM_CODE_IX && index != active
      modifies this`tables, this`staging, this`open, this`inserted, this`expected, this`memUsed
      ensures Valid() && open && inserted == [] && expected == numNew && staging == index
      ensures InUse() == old(InUse()) && tables == old(tables)[index := tables[index]]
    {
      hide Disjoint, LiveOnes, Searchable;
      LiveOnesOrderedTable(tables[active]);
      staging := index;
      memUsed := memUsed - tables[index].room;
      var need := |tables[active].mods| + numNew;
      memUsed := memUsed + need;
      tables := tables[index := Table([], need, 0)];
      inserted, expected, open := [], numNew, true;
      assert [] + LiveOnes(tables[active].mods) == LiveOnes(tables[active].mods);
    }

    /** erts_update_ranges: fresh code overlaps no range in use. */
    method Update(code: nat, size: nat)
      requires Valid() && open && |inserted| < expected && size > 0
      requires forall m :: m in inserted || m in InUse() ==> Apart(Range(code, code + size), m)
      modifies this`tables, this`inserted, this`memUsed
      ensures Valid() && inserted == old(inserted) + [Range(code, code + size)]
      ensures InUse() == old(InUse())
    {
      hide Disjoint, LiveOnes, Searchable, Apart;
      assert forall m :: m in LiveOnes(tables[active].mods) ==> m in InUse();
      AddDisjoint(inserted, Range(code, code + size), LiveOnes(tables[active].mods));
      if staging == active && tables[staging].room == 0 {
        EmptySearchable(START_UP_ROOM);
        tables := tables[staging := Table([], START_UP_ROOM, 0)];
        memUsed := memUsed + START_UP_ROOM;
      }
      assert tables[active].mods == old(tables[active].mods);
      inserted := inserted + [Range(code, code + size)];
    }

    /** erts_end_staging_ranges(1) and the switch of the code index. */
    method CommitStaging()
      requires Valid() && open
      modifies this`tables, this`active, this`open
      ensures Valid() && !open && active == old(staging)
      ensures InUse() == old(InUse()) + multiset(old(inserted)) && tables == old(tables)[active := tables[active]]
      ensures forall m :: m in tables[active].mods ==> Live(m)
    {
      hide Disjoint, LiveOnes, Ordered;
      ghost var src := tables[active].mods;
      var mods := BuildTable(inserted, tables[active].mods, tables[staging].room);
      AllLive(inserted, src, mods);
      tables := tables[staging := Table(mods, tables[staging].room, |mods| / 2)];
      active := staging;
      open := false;
    }

    /** erts_end_staging_ranges(0). */
    method AbortStaging()
      requires Valid() && open
      modifies this`open
      ensures Valid() && !open && InUse() == old(InUse())
    {
      open := false;
    }

    /** find_range: the one range in use that contains the address, and the cached midpoint it leaves. */
    method Find(pc: nat) returns (found: Option<Range>)
      requires Valid()
      modifies this`tables
      ensures Valid() && InUse() == old(InUse())
      ensures found.Some? ==> found.value in InUse() && Contains(found.value, pc)
      ensures forall m :: m in InUse() && Contains(m, pc) ==> found == Some(m)
      ensures tables == old(tables)[active := old(tables)[active].(mid := tables[active].mid)]
      ensures if found.Some? then tables[active].mods[tables[active].mid] == found.value else tables == old(tables)
    {
      hide Ordered, LiveOnes, Disjoint, Contains;
      var t := tables[active];
      var at, mid := FindRange(t.mods, t.mid, pc);
      FoundIsOnly(t.mods, at, pc);
      found := if at.Some? then Some(t.mods[at.value]) else None;
      tables := tables[active := t.(mid := mid)];
    }

    /** erts_lookup_function_info: the one function of the ranges in use whose code holds the address. */
    method LookupFunction(pc: nat, headers: map<nat, seq<nat>>) returns (found: Option<(Range, nat)>)
      requires Valid() && forall m :: m in InUse() ==> HasHeader(m, headers)
      modifies this`tables
      ensures Valid() && InUse() == old(InUse())
      ensures found.Some? ==> found.value.0 in InUse() && Holds(found.value.0, found.value.1, headers, pc)
      ensures forall m, i :: m in InUse() && Holds(m, i, headers, pc) ==> found == Some((m, i))
    {
      hide Ordered, LiveOnes, Disjoint, Contains, HasHeader, Holds;
      var range := Find(pc);
      found := None;
      if range.Some? {
        HeaderMeans(range.value, headers);
        var at := FindFunction(headers[range.value.start], pc);
        forall i: nat {
          FoundHolds(range.value, headers, pc, at, i);
        }
        if at.Some? {
          found := Some((range.value, at.value));
        }
      }
      forall m, i: nat | m in InUse() && Holds(m, i, headers, pc)
        ensures range == Some(m)
      {
        HolderContains(m, i, headers, pc);
      }
    }

    /** erts_remove_from_ranges: the range that holds the code becomes empty. */
    method Remove(code: nat)
      requires Valid() && !open
      requires exists m :: m in InUse() && Contains(m, code)
      modifies this`tables
      ensures Valid()
      ensures exists m :: m in old(InUse()) && Contains(m, code) && InUse() + multiset{m} == old(InUse())
    {
      hide Ordered, LiveOnes, Disjoint, Contains, Live;
      var t := tables[active];
      var at, mid := FindRange(t.mods, t.mid, code);
      FoundIsOnly(t.mods, at, code);
      var i := at.value;
      var m := t.mods[i];
      Purged(t.mods, i, code);
      tables := tables[active := Table(t.mods[i := Range(m.start, m.start)], t.room, mid)];
    }
  }

  lemma EmptySearchable(room: nat)
    ensures Searchable(Table([], room, 0))
  {
  }

  lemma LiveOnesOrderedTable(t: Table)
    requires Searchable(t)
    ensures Disjoint(LiveOnes(t.mods))
  {
    LiveOnesOrdered(t.mods);
  }

  lemma Purged(s: seq<Range>, i: nat, code: nat)
    requires Ordered(s) && i < |s| && Contains(s[i], code)
    ensures var t := s[i := Range(s[i].start, s[i].start)];
            Ordered(t) && multiset(LiveOnes(t)) + multiset{s[i]} == multiset(LiveOnes(s))
  {
    PurgeDrops(s, i);
    KeepsOrder(s, i);
  }

  lemma KeepsOrder(s: seq<Range>, i: nat)
    requires Ordered(s) && i < |s|
    ensures Ordered(s[i := Range(s[i].start, s[i].start)])
  {
  }

  lemma {:induction false} LiveOnesOfLive(s: seq<Range>)
    requires forall i :: 0 <= i < |s| ==> Live(s[i])
    ensures LiveOnes(s) == s
  {
    if s != [] {
      LiveOnesOfLive(s[1..]);
    }
  }

  lemma AllLive(inserted: seq<Range>, src: seq<Range>, mods: seq<Range>)
    requires Disjoint(inserted + LiveOnes(src)) && multiset(mods) == multiset(inserted + LiveOnes(src))
    ensures LiveOnes(mods) == mods && forall m :: m in mods ==> Live(m)
  {
    var all := inserted + LiveOnes(src);
    forall i | 0 <= i < |mods|
      ensures Live(mods[i])
    {
      assert mods[i] in multiset(all);
      assert mods[i] in all;
    }
    LiveOnesOfLive(mods);
  }

  lemma FoundIsOnly(s: seq<Range>, at: Option<nat>, pc: nat)
    requires Ordered(s)
    requires at.Some? ==> at.value < |s| && Contains(s[at.value], pc)
    requires at.None? ==> forall i :: 0 <= i < |s| ==> !Contains(s[i], pc)
    ensures at.Some? ==> s[at.value] in multiset(LiveOnes(s))
    ensures forall m :: m in multiset(LiveOnes(s)) && Contains(m, pc) ==> at.Some? && s[at.value] == m
  {
    hide Ordered, LiveOnes, Contains;
    forall m | m in LiveOnes(s) && Contains(m, pc)
      ensures at.Some? && s[at.value] == m
    {
      LiveIsFound(s, at, pc, m);
    }
    if at.Some? {
      FoundIsLive(s, at.value, pc);
    }
  }

  lemma LiveIsFound(s: seq<Range>, at: Option<nat>, pc: nat, m: Range)
    requires Ordered(s) && m in LiveOnes(s) && Contains(m, pc)
    requires at.Some? ==> at.value < |s| && Contains(s[at.value], pc)
    requires at.None? ==> forall i :: 0 <= i < |s| ==> !Contains(s[i], pc)
    ensures at.Some? && s[at.value] == m
  {
    LiveOnesAre(s, m);
    hide Ordered, LiveOnes, Contains;
    var i :| 0 <= i < |s| && s[i] == m;
    if at.Some? {
      ContainsOnce(s, i, at.value, pc);
    }
  }

  lemma FoundIsLive(s: seq<Range>, i: nat, pc: nat)
    requires i < |s| && Contains(s[i], pc)
    ensures s[i] in LiveOnes(s)
  {
    LiveOnesAre(s, s[i]);
  }

  // ---------- functions of a module ----------

  /** The function table ascends and ends with the end of the code. */
  predicate Ascending(fs: seq<nat>) {
    |fs| > 0 && forall i, j :: 0 <= i < j < |fs| ==> fs[i] <= fs[j]
  }

  /** The table at the start of the range's code lies within the range. */
  predicate HasHeader(m: Range, headers: map<nat, seq<nat>>) {
    m.start in headers && var fs := headers[m.start];
    Ascending(fs) && m.start <= fs[0] && fs[|fs| - 1] <= m.end
  }

  /** Function `i` of the range holds the address. */
  predicate Holds(m: Range, i: nat, headers: map<nat, seq<nat>>, pc: nat) {
    m.start in headers && i + 1 < |headers[m.start]| && headers[m.start][i] <= pc < headers[m.start][i + 1]
  }

  lemma HeaderMeans(m: Range, headers: map<nat, seq<nat>>)
    requires HasHeader(m, headers)
    ensures m.start in headers && Ascending(headers[m.start])
  {
  }

  lemma HolderContains(m: Range, i: nat, headers: map<nat, seq<nat>>, pc: nat)
    requires HasHeader(m, headers) && Holds(m, i, headers, pc)
    ensures Contains(m, pc)
  {
    var fs := headers[m.start];
    assert fs[0] <= fs[i] && fs[i + 1] <= fs[|fs| - 1];
  }

  lemma FoundHolds(m: Range, headers: map<nat, seq<nat>>, pc: nat, at: Option<nat>, i: nat)
    requires HasHeader(m, headers)
    requires at.Some? ==> at.value + 1 < |headers[m.start]| && headers[m.start][at.value] <= pc < headers[m.start][at.value + 1]
    requires at.None? ==> pc < headers[m.start][0] || headers[m.start][|headers[m.start]| - 1] <= pc
    ensures at.Some? ==> Holds(m, at.value, headers, pc)
    ensures Holds(m, i, headers, pc) ==> at == Some(i)
  {
    var fs := headers[m.start];
    if Holds(m, i, headers, pc) {
      assert fs[0] <= fs[i] && fs[i + 1] <= fs[|fs| - 1];
      if at.Some? {
        FunctionOnce(fs, i, at.value, pc);
      }
    }
  }

  /** The search in a module's table: the function whose code holds the address. */
  method FindFunction(fs: seq<nat>, pc: nat) returns (found: Option<nat>)
    requires Ascending(fs)
    ensures found.Some? ==> found.value + 1 < |fs| && fs[found.value] <= pc < fs[found.value + 1]
    ensures found.None? <==> pc < fs[0] || fs[|fs| - 1] <= pc
  {
    var low, high := 0, |fs| - 1;
    while low < high
      invariant 0 <= low <= high < |fs|
      invariant low > 0 ==> fs[low] <= pc
      invariant high < |fs| - 1 ==> pc < fs[high]
    {
      var mid := low + (high - low) / 2;
      if pc < fs[mid] {
        high := mid;
      } else if pc < fs[mid + 1] {
        assert fs[0] <= fs[mid] && fs[mid + 1] <= fs[|fs| - 1];
        return Some(mid);
      } else {
        low := mid + 1;
      }
    }
    assert fs[0] <= fs[low] <= fs[|fs| - 1];
    found := None;
  }

  /** Functions do not overlap, so the answer is the only one. */
  lemma FunctionOnce(fs: seq<nat>, i: nat, j: nat, pc: nat)
    requires Ascending(fs) && i + 1 < |fs| && j + 1 < |fs|
    requires fs[i] <= pc < fs[i + 1] && fs[j] <= pc < fs[j + 1]
    ensures i == j
  {
  }
}

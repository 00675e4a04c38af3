/**
 * Updates of flat maps (update_map_assoc and update_map_exact in
 * erts/emulator/beam/beam_emu.c): a merge of two sorted key lists straight onto
 * the heap, and an update that keeps the key tuple.  A key stands for its place
 * in the term order.
 */
module Maps {
  datatype Pair = Pair(k: int, v: int)

  predicate Sorted(s: seq<Pair>) {
    forall i, j :: 0 <= i < j < |s| ==> s[i].k < s[j].k
  }

  /** The map a list of associations stands for. */
  function MapOf(s: seq<Pair>): map<int, int> {
    if s == [] then map[] else MapOf(s[1..])[s[0].k := s[0].v]
  }

  lemma {:induction false} MapOfKeys(s: seq<Pair>, k: int)
    ensures k in MapOf(s) <==> exists i :: 0 <= i < |s| && s[i].k == k
  {
    if s != [] {
      MapOfKeys(s[1..], k);
      if i :| 0 <= i < |s[1..]| && s[1..][i].k == k {
        assert s[i + 1].k == k;
      }
      if i :| 0 < i < |s| && s[i].k == k {
        assert s[1..][i - 1].k == k;
      }
    }
  }

  lemma {:induction false} MapOfAt(s: seq<Pair>, i: nat)
    requires Sorted(s) && i < |s|
    ensures s[i].k in MapOf(s) && MapOf(s)[s[i].k] == s[i].v
  {
    if i > 0 {
      MapOfAt(s[1..], i - 1);
      assert s[0].k < s[i].k && s[1..][i - 1] == s[i];
    }
  }

  /** What update_map_assoc fills in: old associations unless a new one has the same key. */
  function Merged(o: seq<Pair>, n: seq<Pair>): seq<Pair> {
    if o == [] then n
    else if n == [] then o
    else if o[0].k < n[0].k then [o[0]] + Merged(o[1..], n)
    else if o[0].k > n[0].k then [n[0]] + Merged(o, n[1..])
    else [Pair(o[0].k, n[0].v)] + Merged(o[1..], n[1..])
  }

  lemma {:induction false} MergedAbove(o: seq<Pair>, n: seq<Pair>, k: int)
    requires forall i :: 0 <= i < |o| ==> k < o[i].k
    requires forall i :: 0 <= i < |n| ==> k < n[i].k
    ensures forall i :: 0 <= i < |Merged(o, n)| ==> k < Merged(o, n)[i].k
    decreases |o| + |n|
  {
    if o != [] && n != [] {
      if o[0].k < n[0].k {
        MergedAbove(o[1..], n, k);
      } else if o[0].k > n[0].k {
        MergedAbove(o, n[1..], k);
      } else {
        MergedAbove(o[1..], n[1..], k);
      }
    }
  }

  lemma PrependSorted(p: Pair, s: seq<Pair>)
    requires Sorted(s) && forall i :: 0 <= i < |s| ==> p.k < s[i].k
    ensures Sorted([p] + s)
  {
  }

  /** The merge of sorted lists is sorted, so no key occurs twice. */
  lemma {:induction false} MergedSorted(o: seq<Pair>, n: seq<Pair>)
    requires Sorted(o) && Sorted(n)
    ensures Sorted(Merged(o, n)) && |Merged(o, n)| <= |o| + |n|
    decreases |o| + |n|
  {
    if o != [] && n != [] {
      if o[0].k < n[0].k {
        MergedSorted(o[1..], n);
        MergedAbove(o[1..], n, o[0].k);
        PrependSorted(o[0], Merged(o[1..], n));
      } else if o[0].k > n[0].k {
        MergedSorted(o, n[1..]);
        MergedAbove(o, n[1..], n[0].k);
        PrependSorted(n[0], Merged(o, n[1..]));
      } else {
        MergedSorted(o[1..], n[1..]);
        MergedAbove(o[1..], n[1..], o[0].k);
        PrependSorted(Pair(o[0].k, n[0].v), Merged(o[1..], n[1..]));
      }
    }
  }

  predicate AllNew(o: seq<Pair>, n: seq<Pair>) {
    forall i, j :: 0 <= i < |o| && 0 <= j < |n| ==> o[i].k != n[j].k
  }

  /** The merge is longest exactly if all updates have new keys. */
  lemma {:induction false} MergedFull(o: seq<Pair>, n: seq<Pair>)
    requires Sorted(o) && Sorted(n)
    ensures |Merged(o, n)| <= |o| + |n|
    ensures |Merged(o, n)| == |o| + |n| <==> AllNew(o, n)
    decreases |o| + |n|
  {
    if o != [] && n != [] {
      if o[0].k < n[0].k {
        MergedFull(o[1..], n);
        assert forall i :: 1 <= i < |o| ==> o[i] == o[1..][i - 1];
      } else if o[0].k > n[0].k {
        MergedFull(o, n[1..]);
        assert forall j :: 1 <= j < |n| ==> n[j] == n[1..][j - 1];
      } else {
        MergedFull(o[1..], n[1..]);
      }
    }
  }

  /** The merge is the old map overridden by the updates. */
  lemma {:induction false} MergedOverrides(o: seq<Pair>, n: seq<Pair>)
    requires Sorted(o) && Sorted(n)
    ensures MapOf(Merged(o, n)) == MapOf(o) + MapOf(n)
    decreases |o| + |n|
  {
    if o != [] && n != [] {
      if o[0].k < n[0].k {
        MergedOverrides(o[1..], n);
        MapOfKeys(n, o[0].k);
        Unfold(o[0], Merged(o[1..], n));
      } else if o[0].k > n[0].k {
        MergedOverrides(o, n[1..]);
        Unfold(n[0], Merged(o, n[1..]));
      } else {
        MergedOverrides(o[1..], n[1..]);
        Unfold(Pair(o[0].k, n[0].v), Merged(o[1..], n[1..]));
      }
    }
  }

  lemma Unfold(p: Pair, s: seq<Pair>)
    ensures MapOf([p] + s) == MapOf(s)[p.k := p.v]
  {
    assert ([p] + s)[1..] == s;
  }

  // ---------- update_map_assoc on the heap ----------

  const MAP_HEADER_SZ: nat := 3

  /** MAP_HEADER_FLATMAP and the header that hides unused key slots from the garbage collector. */
  datatype Word = Term(t: int) | MapHeader | Pointer(index: nat) | Size(n: nat) | Filler(n: nat)

  /** The keys stand from `kp` on, the values from `hp` on. */
  predicate Written(h: seq<Word>, kp: nat, hp: nat, done: seq<Pair>) {
    && kp + |done| <= hp && hp + |done| <= |h|
    && (forall i :: 0 <= i < |done| ==> h[kp + i] == Term(done[i].k))
    && (forall i :: 0 <= i < |done| ==> h[hp + i] == Term(done[i].v))
  }

  lemma WrittenNext(h: seq<Word>, kp: nat, hp: nat, done: seq<Pair>, p: Pair)
    requires Written(h, kp, hp, done) && kp + |done| < hp && hp + |done| < |h|
    ensures Written(h[kp + |done| := Term(p.k)][hp + |done| := Term(p.v)], kp, hp, done + [p])
  {
  }

  /** The association that the merge takes next, and what is left of both lists. */
  lemma MergeStep(o: seq<Pair>, n: seq<Pair>, i: nat, j: nat)
    requires i < |o| && j < |n|
    ensures Merged(o[i..], n[j..])
            == if o[i].k < n[j].k then [o[i]] + Merged(o[i + 1..], n[j..])
               else if o[i].k > n[j].k then [n[j]] + Merged(o[i..], n[j + 1..])
               else [Pair(o[i].k, n[j].v)] + Merged(o[i + 1..], n[j + 1..])
  {
    assert o[i..][1..] == o[i + 1..] && n[j..][1..] == n[j + 1..];
  }

  /** Only key and value slots of this update have changed. */
  predicate OnlySlots(h: seq<Word>, h': seq<Word>, kp: nat, hp: nat, size: nat) {
    |h'| == |h| && forall x :: 0 <= x < |h| && !(kp <= x < kp + size) && !(hp <= x < hp + size) ==> h'[x] == h[x]
  }

  /** One association goes to the heap. */
  method Put(heap: array<Word>, kp: nat, hp: nat, w: nat, k: int, v: int, ghost done: seq<Pair>,
             ghost h0: seq<Word>, ghost size: nat)
    requires Written(heap[..], kp, hp, done) && w == |done| < size && kp + size <= hp && hp + size <= heap.Length
    requires OnlySlots(h0, heap[..], kp, hp, size)
    modifies heap
    ensures Written(heap[..], kp, hp, done + [Pair(k, v)]) && OnlySlots(h0, heap[..], kp, hp, size)
  {
    WrittenNext(heap[..], kp, hp, done, Pair(k, v));
    heap[kp + w] := Term(k);
    heap[hp + w] := Term(v);
  }

  lemma Shift(done: seq<Pair>, p: Pair, rest: seq<Pair>, all: seq<Pair>)
    requires done + ([p] + rest) == all
    ensures (done + [p]) + rest == all
  {
    assert (done + [p]) + rest == done + ([p] + rest);
  }

  /** The merge loop: `i` old and `j` new associations have been used, `w` written. */
  method MergeLoop(heap: array<Word>, kp: nat, hp: nat, o: seq<Pair>, n: seq<Pair>)
    returns (i: nat, j: nat, w: nat, ghost done: seq<Pair>)
    requires |o| > 0 && |n| > 0 && kp + |o| + |n| <= hp && hp + |o| + |n| <= heap.Length
    modifies heap
    ensures i <= |o| && j <= |n| && (i == |o| || j == |n|) && w == |done| <= i + j
    ensures Written(heap[..], kp, hp, done) && done + Merged(o[i..], n[j..]) == Merged(o, n)
    ensures OnlySlots(old(heap[..]), heap[..], kp, hp, |o| + |n|)
  {
    hide Merged, Written, OnlySlots;
    ghost var h0 := heap[..];
    i, j, w, done := 0, 0, 0, [];
    Start(h0, kp, hp, |o| + |n|);
    assert o[0..] == o && n[0..] == n && [] + Merged(o, n) == Merged(o, n);
    while true
      invariant i < |o| && j < |n| && w == |done| <= i + j
      invariant Written(heap[..], kp, hp, done) && OnlySlots(h0, heap[..], kp, hp, |o| + |n|)
      invariant done + Merged(o[i..], n[j..]) == Merged(o, n)
      decreases |o| + |n| - i - j
    {
      MergeStep(o, n, i, j);
      if o[i].k < n[j].k {
        Put(heap, kp, hp, w, o[i].k, o[i].v, done, h0, |o| + |n|);
        Shift(done, o[i], Merged(o[i + 1..], n[j..]), Merged(o, n));
        done := done + [o[i]];
        i := i + 1;
      } else if o[i].k > n[j].k {
        Put(heap, kp, hp, w, n[j].k, n[j].v, done, h0, |o| + |n|);
        Shift(done, n[j], Merged(o[i..], n[j + 1..]), Merged(o, n));
        done := done + [n[j]];
        j := j + 1;
      } else {
        Put(heap, kp, hp, w, o[i].k, n[j].v, done, h0, |o| + |n|);
        Shift(done, Pair(o[i].k, n[j].v), Merged(o[i + 1..], n[j + 1..]), Merged(o, n));
        done := done + [Pair(o[i].k, n[j].v)];
        i, j := i + 1, j + 1;
      }
      w := w + 1;
      if j == |n| || i == |o| {
        return;
      }
    }
  }

  lemma Start(h: seq<Word>, kp: nat, hp: nat, size: nat)
    requires kp + size <= hp && hp + size <= |h|
    ensures Written(h, kp, hp, []) && OnlySlots(h, h, kp, hp, size)
  {
  }

  /** The loops that copy what is left of one list. */
  method CopyRest(heap: array<Word>, kp: nat, hp: nat, w0: nat, rest: seq<Pair>, ghost done: seq<Pair>,
                  ghost h0: seq<Word>, ghost size: nat) returns (w: nat)
    requires Written(heap[..], kp, hp, done) && w0 == |done| && w0 + |rest| <= size
    requires kp + size <= hp && hp + size <= heap.Length && OnlySlots(h0, heap[..], kp, hp, size)
    modifies heap
    ensures w == w0 + |rest| && Written(heap[..], kp, hp, done + rest) && OnlySlots(h0, heap[..], kp, hp, size)
  {
    hide Written, OnlySlots;
    w := w0;
    var i := 0;
    assert done + rest[..0] == done;
    while i < |rest|
      invariant 0 <= i <= |rest| && w == w0 + i
      invariant Written(heap[..], kp, hp, done + rest[..i]) && OnlySlots(h0, heap[..], kp, hp, size)
    {
      Put(heap, kp, hp, w, rest[i].k, rest[i].v, done + rest[..i], h0, size);
      assert (done + rest[..i]) + [Pair(rest[i].k, rest[i].v)] == done + rest[..i + 1];
      w, i := w + 1, i + 1;
    }
    assert done + rest[..i] == done + rest;
  }

  lemma RestIs(o: seq<Pair>, n: seq<Pair>, i: nat, j: nat)
    requires i <= |o| && j <= |n| && (i == |o| || j == |n|)
    ensures Merged(o[i..], n[j..]) == if j < |n| then n[j..] else o[i..]
  {
  }

  /** The map on the heap: key tuple at `keys`, size and values behind the header at `mp`. */
  predicate FlatMap(h: seq<Word>, keys: nat, mp: nat, s: seq<Pair>) {
    && mp + MAP_HEADER_SZ + |s| <= |h| && keys + 1 + |s| <= mp
    && h[keys] == Size(|s|) && h[mp] == MapHeader && h[mp + 1] == Size(|s|) && h[mp + 2] == Pointer(keys)
    && Written(h, keys + 1, mp + MAP_HEADER_SZ, s)
  }

  /** Words the update uses in the worst case. */
  function Need(o: nat, n: nat): nat {
    2 * (o + n) + 1 + MAP_HEADER_SZ
  }

  method UpdateAssoc(heap: array<Word>, htop: nat, o: seq<Pair>, n: seq<Pair>) returns (mp: nat, top: nat)
    requires |o| > 0 && |n| > 0 && Sorted(o) && Sorted(n)
    requires htop + Need(|o|, |n|) <= heap.Length
    modifies heap
    ensures mp == htop + 1 + |o| + |n| && top <= htop + Need(|o|, |n|)
    ensures top == htop + Need(|o|, |n|) <==> AllNew(o, n)
    ensures exists s :: FlatMap(heap[..], htop, mp, s) && Sorted(s) && MapOf(s) == MapOf(o) + MapOf(n)
                        && top == mp + MAP_HEADER_SZ + |s|
                        && (htop + 1 + |s| < mp ==> heap[htop + 1 + |s|] == Filler(mp - (htop + 1 + |s|) - 1))
    ensures forall x :: 0 <= x < heap.Length && !(htop <= x < htop + Need(|o|, |n|)) ==> heap[x] == old(heap[x])
  {
    hide Merged, MapOf, Sorted, Written, FlatMap, AllNew;
    ghost var size := |o| + |n|;
    var kp := htop + 1;
    mp := kp + |o| + |n|;
    var hp := mp + MAP_HEADER_SZ;
    heap[mp] := MapHeader;
    heap[mp + 2] := Pointer(htop);
    ghost var h1 := heap[..];
    ghost var done;
    var i, j, w;
    i, j, w, done := MergeLoop(heap, kp, hp, o, n);
    RestIs(o, n, i, j);
    MergedSorted(o, n);
    MergedOverrides(o, n);
    MergedFull(o, n);
    ghost var all := Merged(o, n);
    if j < |n| {
      w := CopyRest(heap, kp, hp, w, n[j..], done, h1, size);
    } else {
      w := CopyRest(heap, kp, hp, w, o[i..], done, h1, size);
    }
    assert Written(heap[..], kp, hp, all) && w == |all|;
    Finish(heap, htop, mp, w, all, h1);
    top := hp + w;
    assert FlatMap(heap[..], htop, mp, all);
  }

  /** The closing stores: filler behind the keys, arity of the tuple, size of the map. */
  method Finish(heap: array<Word>, htop: nat, mp: nat, w: nat, ghost all: seq<Pair>, ghost h1: seq<Word>)
    requires w == |all| && htop + 1 + w <= mp && mp + MAP_HEADER_SZ + w <= heap.Length
    requires Written(heap[..], htop + 1, mp + MAP_HEADER_SZ, all) && heap[mp] == MapHeader && heap[mp + 2] == Pointer(htop)
    modifies heap
    ensures FlatMap(heap[..], htop, mp, all)
    ensures htop + 1 + w < mp ==> heap[htop + 1 + w] == Filler(mp - (htop + 1 + w) - 1)
    ensures forall x :: 0 <= x < heap.Length && !(htop <= x < mp + MAP_HEADER_SZ) ==> heap[x] == old(heap[x])
  {
    if mp - (htop + 1 + w) > 0 {
      heap[htop + 1 + w] := Filler(mp - (htop + 1 + w) - 1);
    }
    heap[htop] := Size(w);
    heap[mp + 1] := Size(w);
  }

  // ---------- update_map_exact ----------

  datatype Outcome = Updated | BadKey(key: int)

  /** The association list with the same keys and other values. */
  function WithValues(o: seq<Pair>, vs: seq<int>): seq<Pair>
    requires |vs| == |o|
  {
    seq(|o|, i requires 0 <= i < |o| => Pair(o[i].k, vs[i]))
  }

  predicate HasKey(s: seq<Pair>, k: int) {
    exists i :: 0 <= i < |s| && s[i].k == k
  }

  /** Values copied so far: those of the first `j` updates where they have the key, the old ones elsewhere. */
  predicate Copied(o: seq<Pair>, n: seq<Pair>, j: nat, vs: seq<int>)
    requires |vs| <= |o| && j <= |n|
  {
    forall i :: 0 <= i < |vs| ==>
      (forall k :: 0 <= k < j && n[k].k == o[i].k ==> vs[i] == n[k].v)
      && (!HasKey(n[..j], o[i].k) ==> vs[i] == o[i].v)
  }

  /** The first `j` updates have been found among the first `i` keys, the next one not. */
  predicate Scanned(o: seq<Pair>, n: seq<Pair>, i: nat, j: nat)
    requires i <= |o| && j <= |n|
  {
    && (forall k :: 0 <= k < j ==> HasKey(o[..i], n[k].k))
    && (j < |n| ==> !HasKey(o[..i], n[j].k))
  }

  lemma HasKeyStep(s: seq<Pair>, i: nat, k: int)
    requires i < |s|
    ensures HasKey(s[..i + 1], k) <==> HasKey(s[..i], k) || s[i].k == k
  {
    if HasKey(s[..i], k) {
      var x :| 0 <= x < |s[..i]| && s[..i][x].k == k;
      assert s[..i + 1][x].k == k;
    }
    assert s[..i + 1][i] == s[i];
    assert forall x :: 0 <= x < i ==> s[..i][x] == s[..i + 1][x];
  }

  /** A key that is not the next update's is none of the earlier ones' either. */
  lemma NotUpdated(o: seq<Pair>, n: seq<Pair>, i: nat, j: nat)
    requires Sorted(o) && i < |o| && j <= |n| && Scanned(o, n, i, j)
    ensures !HasKey(n[..j], o[i].k)
  {
  }

  lemma CopyOld(o: seq<Pair>, n: seq<Pair>, j: nat, vs: seq<int>)
    requires |vs| < |o| && j <= |n| && Copied(o, n, j, vs) && !HasKey(n[..j], o[|vs|].k)
    ensures Copied(o, n, j, vs + [o[|vs|].v])
  {
    forall k | 0 <= k < j
      ensures n[k].k != o[|vs|].k
    {
      assert n[..j][k] == n[k];
    }
  }

  lemma CopyNew(o: seq<Pair>, n: seq<Pair>, j: nat, vs: seq<int>)
    requires Sorted(o) && Sorted(n) && |vs| < |o| && j < |n| && Copied(o, n, j, vs) && o[|vs|].k == n[j].k
    ensures Copied(o, n, j + 1, vs + [n[j].v])
  {
    forall k {
      HasKeyStep(n, j, k);
    }
    var us := vs + [n[j].v];
    forall i | 0 <= i < |us|
      ensures forall k :: 0 <= k < j + 1 && n[k].k == o[i].k ==> us[i] == n[k].v
      ensures !HasKey(n[..j + 1], o[i].k) ==> us[i] == o[i].v
    {
      if i < |vs| {
        assert o[i].k < o[|vs|].k;
      } else {
        assert forall k :: 0 <= k < j ==> n[k].k < n[j].k;
      }
    }
  }

  lemma ScanStep(o: seq<Pair>, n: seq<Pair>, i: nat, j: nat)
    requires Sorted(o) && Sorted(n) && i < |o| && j < |n| && Scanned(o, n, i, j)
    ensures o[i].k != n[j].k ==> Scanned(o, n, i + 1, j)
    ensures o[i].k == n[j].k ==> Scanned(o, n, i + 1, j + 1)
  {
    forall k {
      HasKeyStep(o, i, k);
    }
  }

  /** When every update has been found, the values are those of the old map overridden by the updates. */
  lemma ExactOverrides(o: seq<Pair>, n: seq<Pair>, vs: seq<int>)
    requires Sorted(o) && Sorted(n) && |vs| == |o| && Copied(o, n, |n|, vs)
    requires forall k :: 0 <= k < |n| ==> HasKey(o, n[k].k)
    ensures MapOf(WithValues(o, vs)) == MapOf(o) + MapOf(n)
  {
    hide MapOf, Sorted, Copied, WithValues;
    var s, m := WithValues(o, vs), MapOf(o) + MapOf(n);
    forall k
      ensures k in MapOf(s) <==> k in m
      ensures k in MapOf(s) ==> MapOf(s)[k] == m[k]
    {
      MapOfKeys(s, k);
      MapOfKeys(o, k);
      MapOfKeys(n, k);
      SameKeys(o, vs, k);
      if HasKey(o, k) {
        var i :| 0 <= i < |o| && o[i].k == k;
        ValueAt(o, n, vs, i);
      }
    }
  }

  lemma ValueAt(o: seq<Pair>, n: seq<Pair>, vs: seq<int>, i: nat)
    requires Sorted(o) && Sorted(n) && |vs| == |o| && i < |o| && Copied(o, n, |n|, vs)
    ensures var (k, s) := (o[i].k, WithValues(o, vs));
            k in MapOf(s) && k in MapOf(o) && MapOf(s)[k] == (MapOf(o) + MapOf(n))[k]
  {
    hide MapOf;
    var k, s := o[i].k, WithValues(o, vs);
    assert n[..|n|] == n;
    MapOfAt(s, i);
    MapOfAt(o, i);
    MapOfKeys(n, k);
    if x :| 0 <= x < |n| && n[x].k == k {
      MapOfAt(n, x);
    } else {
      assert !HasKey(n, k);
    }
  }

  lemma SameKeys(o: seq<Pair>, vs: seq<int>, k: int)
    requires |vs| == |o|
    ensures HasKey(WithValues(o, vs), k) <==> HasKey(o, k)
  {
    if HasKey(o, k) {
      var i :| 0 <= i < |o| && o[i].k == k;
      assert WithValues(o, vs)[i].k == k;
    }
  }

  /**
   * The update that keeps the key tuple: it succeeds exactly if every key is in the
   * map, and otherwise names the first update whose key is missing.
   */
  method UpdateExact(heap: array<Word>, htop: nat, keys: nat, om: nat, ghost o: seq<Pair>, n: seq<Pair>)
    returns (r: Outcome, top: nat)
    requires Sorted(o) && Sorted(n) && |n| > 0 && MapAt(heap[..], keys, om, o)
    requires Beside(heap[..], keys, om, htop, |o|)
    modifies heap
    ensures r.Updated? <==> forall k :: 0 <= k < |n| ==> HasKey(o, n[k].k)
    ensures r.Updated? ==> exists vs ::
              |vs| == |o| && MapAt(heap[..], keys, htop, WithValues(o, vs))
              && MapOf(WithValues(o, vs)) == MapOf(o) + MapOf(n)
    ensures top == if r.Updated? then htop + MAP_HEADER_SZ + |o| else htop
    ensures r.BadKey? ==> exists j :: 0 <= j < |n| && r.key == n[j].k && !HasKey(o, r.key)
                                       && forall k :: 0 <= k < j ==> HasKey(o, n[k].k)
    ensures forall x :: 0 <= x < heap.Length && !(htop <= x < htop + MAP_HEADER_SZ + |o|) ==> heap[x] == old(heap[x])
  {
    hide MapOf, Sorted, HasKey, Copied, Scanned, Filling;
    FillingStart(heap[..], keys, om, htop, o);
    hide MapAt, Beside;
    var size := heap[om + 1].n;
    if size == 0 {
      Nothing(o, n);
      return BadKey(n[0].k), htop;
    }
    ghost var h0, vs := heap[..], [];
    var j := 0;
    top := htop;
    heap[htop] := MapHeader;
    heap[htop + 1] := Size(size);
    heap[htop + 2] := Pointer(keys);
    ScanStart(o, n);
    for i := 0 to size
      invariant i == |vs| <= |o| && 0 <= j < |n|
      invariant Scanned(o, n, i, j) && Copied(o, n, j, vs)
      invariant Filling(h0, heap[..], keys, om, htop, o, vs)
    {
      ScanStep(o, n, i, j);
      FillingNext(h0, heap[..], keys, om, htop, o, vs, o[i].v);
      if heap[keys + 1 + i] != Term(n[j].k) {
        NotUpdated(o, n, i, j);
        CopyOld(o, n, j, vs);
        heap[htop + MAP_HEADER_SZ + i] := heap[om + MAP_HEADER_SZ + i];
        vs := vs + [o[i].v];
      } else {
        CopyNew(o, n, j, vs);
        FillingNext(h0, heap[..], keys, om, htop, o, vs, n[j].v);
        heap[htop + MAP_HEADER_SZ + i] := Term(n[j].v);
        vs := vs + [n[j].v];
        j := j + 1;
        if j == |n| {
          vs := CopyTail(heap, htop, keys, om, i + 1, size, o, n, vs, h0);
          Found(o, n, i + 1);
          ExactOverrides(o, n, vs);
          FillingDone(h0, heap[..], keys, om, htop, o, vs);
          FillingOnly(h0, heap[..], keys, om, htop, o, vs);
          return Updated, htop + MAP_HEADER_SZ + size;
        }
      }
    }
    Missing(o, n, j);
    FillingOnly(h0, heap[..], keys, om, htop, o, vs);
    r := BadKey(n[j].k);
  }

  lemma FillingOnly(h0: seq<Word>, h: seq<Word>, keys: nat, om: nat, htop: nat, o: seq<Pair>, vs: seq<int>)
    requires Filling(h0, h, keys, om, htop, o, vs)
    ensures |h| == |h0|
    ensures forall x :: 0 <= x < |h| && !(htop <= x < htop + MAP_HEADER_SZ + |o|) ==> h[x] == h0[x]
  {
  }

  /** A flat map at `mp` whose key tuple may lie anywhere and be shared with other maps. */
  ghost predicate MapAt(h: seq<Word>, keys: nat, mp: nat, s: seq<Pair>) {
    && keys + 1 + |s| <= |h| && mp + MAP_HEADER_SZ + |s| <= |h|
    && h[keys] == Size(|s|) && h[mp] == MapHeader && h[mp + 1] == Size(|s|) && h[mp + 2] == Pointer(keys)
    && (forall i :: 0 <= i < |s| ==> h[keys + 1 + i] == Term(s[i].k))
    && (forall i :: 0 <= i < |s| ==> h[mp + MAP_HEADER_SZ + i] == Term(s[i].v))
  }

  /** The `n` words from `at` on are none of the `m` words from `from` on. */
  predicate Clear(at: nat, n: nat, from: nat, m: nat) {
    at + n <= from || from + m <= at
  }

  /** There is room at `htop` for a map of this size beside the old map and its keys. */
  predicate Beside(h: seq<Word>, keys: nat, om: nat, htop: nat, size: nat) {
    var need := MAP_HEADER_SZ + size;
    htop + need <= |h| && Clear(keys, 1 + size, htop, need) && Clear(om, need, htop, need)
  }

  /** The new map at `htop` shares the key tuple of the old one at `om`; the values `vs` are written so far. */
  ghost predicate Filling(h0: seq<Word>, h: seq<Word>, keys: nat, om: nat, htop: nat, o: seq<Pair>, vs: seq<int>) {
    && |h| == |h0| && |vs| <= |o| && MapAt(h0, keys, om, o) && Beside(h, keys, om, htop, |o|)
    && (forall x :: 0 <= x < |h| && !(htop <= x < htop + MAP_HEADER_SZ + |o|) ==> h[x] == h0[x])
    && h[htop] == MapHeader && h[htop + 1] == Size(|o|) && h[htop + 2] == Pointer(keys)
    && (forall i :: 0 <= i < |vs| ==> h[htop + MAP_HEADER_SZ + i] == Term(vs[i]))
  }

  lemma FillingStart(h0: seq<Word>, keys: nat, om: nat, htop: nat, o: seq<Pair>)
    requires MapAt(h0, keys, om, o) && Beside(h0, keys, om, htop, |o|)
    ensures om + 1 < |h0| && h0[om + 1] == Size(|o|) && htop + MAP_HEADER_SZ + |o| <= |h0|
    ensures Filling(h0, h0[htop := MapHeader][htop + 1 := Size(|o|)][htop + 2 := Pointer(keys)], keys, om, htop, o, [])
  {
  }

  /** The old keys and values are still there while the new values are written. */
  lemma FillingNext(h0: seq<Word>, h: seq<Word>, keys: nat, om: nat, htop: nat, o: seq<Pair>, vs: seq<int>, v: int)
    requires Filling(h0, h, keys, om, htop, o, vs) && |vs| < |o|
    ensures keys + 1 + |o| <= |h| && htop + MAP_HEADER_SZ + |o| <= |h| && om + MAP_HEADER_SZ + |o| <= |h|
    ensures h[keys + 1 + |vs|] == Term(o[|vs|].k) && h[om + MAP_HEADER_SZ + |vs|] == Term(o[|vs|].v)
    ensures Filling(h0, h[htop + MAP_HEADER_SZ + |vs| := Term(v)], keys, om, htop, o, vs + [v])
  {
  }

  lemma FillingDone(h0: seq<Word>, h: seq<Word>, keys: nat, om: nat, htop: nat, o: seq<Pair>, vs: seq<int>)
    requires Filling(h0, h, keys, om, htop, o, vs) && |vs| == |o|
    ensures MapAt(h, keys, htop, WithValues(o, vs))
  {
    var s := WithValues(o, vs);
    forall i | 0 <= i < |s|
      ensures h[keys + 1 + i] == Term(s[i].k) && h[htop + MAP_HEADER_SZ + i] == Term(s[i].v)
    {
    }
  }

  /** The loop that copies the remaining values. */
  method CopyTail(heap: array<Word>, htop: nat, keys: nat, om: nat, from: nat, size: nat,
                  ghost o: seq<Pair>, ghost n: seq<Pair>, ghost vs: seq<int>, ghost h0: seq<Word>)
    returns (ghost us: seq<int>)
    requires Sorted(o) && from == |vs| <= |o| == size && Scanned(o, n, from, |n|) && Copied(o, n, |n|, vs)
    requires Filling(h0, heap[..], keys, om, htop, o, vs)
    modifies heap
    ensures |us| == |o| && Copied(o, n, |n|, us) && Filling(h0, heap[..], keys, om, htop, o, us)
  {
    hide Sorted, HasKey, Copied, Scanned, Filling;
    us := vs;
    var i := from;
    while i < size
      invariant from <= i == |us| <= |o| && Copied(o, n, |n|, us) && Scanned(o, n, i, |n|)
      invariant Filling(h0, heap[..], keys, om, htop, o, us)
    {
      NotUpdated(o, n, i, |n|);
      CopyOld(o, n, |n|, us);
      ScanOn(o, n, i);
      FillingNext(h0, heap[..], keys, om, htop, o, us, o[i].v);
      heap[htop + MAP_HEADER_SZ + i] := heap[om + MAP_HEADER_SZ + i];
      us := us + [o[i].v];
      i := i + 1;
    }
  }

  lemma ScanOn(o: seq<Pair>, n: seq<Pair>, i: nat)
    requires i < |o| && Scanned(o, n, i, |n|)
    ensures Scanned(o, n, i + 1, |n|)
  {
    forall k {
      HasKeyStep(o, i, k);
    }
  }

  lemma ScanStart(o: seq<Pair>, n: seq<Pair>)
    ensures Scanned(o, n, 0, 0) && Copied(o, n, 0, [])
  {
  }

  lemma Found(o: seq<Pair>, n: seq<Pair>, i: nat)
    requires i <= |o| && Scanned(o, n, i, |n|)
    ensures forall k :: 0 <= k < |n| ==> HasKey(o, n[k].k)
  {
    forall k | 0 <= k < |n|
      ensures HasKey(o, n[k].k)
    {
      var x :| 0 <= x < |o[..i]| && o[..i][x].k == n[k].k;
      assert o[x].k == n[k].k;
    }
  }

  lemma Missing(o: seq<Pair>, n: seq<Pair>, j: nat)
    requires j < |n| && Scanned(o, n, |o|, j)
    ensures !HasKey(o, n[j].k) && forall k :: 0 <= k < j ==> HasKey(o, n[k].k)
  {
    assert o[..|o|] == o;
  }

  lemma Nothing(o: seq<Pair>, n: seq<Pair>)
    requires o == [] && |n| > 0
    ensures !HasKey(o, n[0].k)
  {
  }
}

/**
 * Label references in loaded code (erts/emulator/beam/beam_load.c): until the
 * addresses are known, every word that refers to a label holds the index of the
 * previous reference to the same label, so the unresolved references are lists
 * threaded through the code and the function table in front of it.
 */
module Labels {
  /** `value` is the code index of the label, 0 while unknown; `patches` the newest reference, -1 if none. */
  datatype Label = Label(value: nat, patches: int)

  /** For the proof: the references of each label, newest first, and the label of each referring word. */
  datatype View = View(chains: seq<seq<nat>>, refs: map<nat, nat>)

  function At(ps: seq<nat>, k: nat): int {
    if k < |ps| then ps[k] else -1
  }

  /** The list that starts at `head` and is linked through the code words is `ps`. */
  predicate Threaded(code: seq<int>, head: int, ps: seq<nat>) {
    && head == At(ps, 0)
    && (forall k :: 0 <= k < |ps| ==> ps[k] < |code| && code[ps[k]] == At(ps, k + 1))
  }

  predicate Acyclic(ps: seq<nat>) {
    forall j, k :: 0 <= j < k < |ps| ==> ps[j] != ps[k]
  }

  /** The list of label `l` runs through exactly the words that refer to `l`. */
  ghost predicate Collects(refs: map<nat, nat>, l: nat, ps: seq<nat>) {
    && Acyclic(ps)
    && (forall p :: p in ps <==> p in refs && refs[p] == l)
  }

  /** References are function-table slots in use and words of the code proper. */
  ghost predicate Inv(code: seq<int>, labels: seq<Label>, functions: nat, used: nat, v: View) {
    && used <= functions < |code|
    && |v.chains| == |labels|
    && (forall l :: 0 <= l < |labels| ==> Threaded(code, labels[l].patches, v.chains[l]))
    && (forall l :: 0 <= l < |labels| ==> Collects(v.refs, l, v.chains[l]))
    && (forall p :: p in v.refs ==> v.refs[p] < |labels| && (p < used || functions < p < |code|))
    && (forall l :: 0 <= l < |labels| ==> labels[l].value == 0 || functions < labels[l].value <= |code|)
  }

  /** Words outside a list may change. */
  lemma ThreadedFrame(code: seq<int>, code': seq<int>, head: int, ps: seq<nat>)
    requires Threaded(code, head, ps) && |code| <= |code'|
    requires forall p :: p in ps && p < |code| ==> code'[p] == code[p]
    ensures Threaded(code', head, ps)
  {
    forall k | 0 <= k < |ps|
      ensures ps[k] < |code'| && code'[ps[k]] == At(ps, k + 1)
    {
      assert ps[k] in ps;
    }
  }

  /** A word that stores the old head becomes the new head. */
  lemma ThreadedPush(code: seq<int>, code': seq<int>, head: int, ps: seq<nat>, p: nat)
    requires Threaded(code, head, ps) && |code| <= |code'| && p < |code'| && p !in ps
    requires code'[p] == head
    requires forall q :: q in ps && q < |code| ==> code'[q] == code[q]
    ensures Threaded(code', p, [p] + ps)
  {
    ThreadedFrame(code, code', head, ps);
    forall k | 0 <= k < |[p] + ps|
      ensures ([p] + ps)[k] < |code'| && code'[([p] + ps)[k]] == At([p] + ps, k + 1)
    {
      if k > 0 {
        assert ([p] + ps)[k] == ps[k - 1];
        assert At([p] + ps, k + 1) == At(ps, k);
      }
    }
  }

  lemma CollectsPush(refs: map<nat, nat>, l: nat, ps: seq<nat>, p: nat)
    requires Collects(refs, l, ps) && p !in refs
    ensures Collects(refs[p := l], l, [p] + ps)
  {
    assert p !in ps;
    forall j, k | 0 <= j < k < |[p] + ps|
      ensures ([p] + ps)[j] != ([p] + ps)[k]
    {
      assert ps[k - 1] in ps;
      if j > 0 {
        assert ps[j - 1] != ps[k - 1];
      }
    }
  }

  /** Storing the newest reference of `l` in word `p` adds `p` to the list of `l` and to no other. */
  function Pushed(v: View, l: nat, p: nat): View
    requires l < |v.chains|
  {
    View(v.chains[l := [p] + v.chains[l]], v.refs[p := l])
  }

  lemma PushKeeps(code: seq<int>, labels: seq<Label>, functions: nat, used: nat, v: View,
                  code': seq<int>, used': nat, l: nat, p: nat)
    requires Inv(code, labels, functions, used, v)
    requires l < |labels| && p !in v.refs
    requires |code| <= |code'| && used <= used' <= functions
    requires p < used' || functions < p < |code'|
    requires p < |code'| && code'[p] == labels[l].patches
    requires forall q :: 0 <= q < |code| && q != p ==> code'[q] == code[q]
    ensures Inv(code', labels[l := labels[l].(patches := p)], functions, used', Pushed(v, l, p))
  {
    var labels' := labels[l := labels[l].(patches := p)];
    var v' := Pushed(v, l, p);
    forall i | 0 <= i < |labels|
      ensures Threaded(code', labels'[i].patches, v'.chains[i])
      ensures Collects(v'.refs, i, v'.chains[i])
    {
      assert forall q :: q in v.chains[i] ==> q in v.refs by { assert Collects(v.refs, i, v.chains[i]); }
      if i == l {
        ThreadedPush(code, code', labels[l].patches, v.chains[l], p);
        CollectsPush(v.refs, l, v.chains[l], p);
      } else {
        ThreadedFrame(code, code', labels[i].patches, v.chains[i]);
      }
    }
  }

  /** Appending words, or changing words that refer to no label, keeps every list. */
  lemma EmitKeeps(code: seq<int>, labels: seq<Label>, functions: nat, used: nat, v: View,
                  code': seq<int>, labels': seq<Label>)
    requires Inv(code, labels, functions, used, v)
    requires |code| <= |code'| && |labels'| == |labels|
    requires forall q :: 0 <= q < |code| && q in v.refs ==> code'[q] == code[q]
    requires forall l :: 0 <= l < |labels| ==> labels'[l].patches == labels[l].patches
    requires forall l :: 0 <= l < |labels| ==> labels'[l].value == 0 || functions < labels'[l].value <= |code'|
    ensures Inv(code', labels', functions, used, v)
  {
    forall l | 0 <= l < |labels|
      ensures Threaded(code', labels'[l].patches, v.chains[l])
    {
      assert forall q :: q in v.chains[l] ==> q in v.refs by { assert Collects(v.refs, l, v.chains[l]); }
      ThreadedFrame(code, code', labels[l].patches, v.chains[l]);
    }
  }

  // ---------- resolution ----------

  /** The address of a code index. */
  function Address(base: nat, index: nat): int {
    base + 8 * index
  }

  /** References to the first `n` labels hold addresses; every other word is as loaded. */
  ghost predicate Resolved(code: seq<int>, code': seq<int>, labels: seq<Label>, base: nat, v: View, n: nat)
    requires n <= |labels|
  {
    && |code'| == |code|
    && (forall p :: 0 <= p < |code| && p in v.refs && v.refs[p] < n ==> code'[p] == Address(base, labels[v.refs[p]].value))
    && (forall p :: 0 <= p < |code| && !(p in v.refs && v.refs[p] < n) ==> code'[p] == code[p])
  }

  /** The first `k` references of label `l` hold its address as well. */
  ghost predicate Resolving(code: seq<int>, code': seq<int>, ps: seq<nat>, k: nat, address: int)
    requires k <= |ps|
  {
    && |code'| == |code|
    && (forall j :: 0 <= j < k ==> ps[j] < |code| && code'[ps[j]] == address)
    && (forall p :: 0 <= p < |code| && p !in ps[..k] ==> code'[p] == code[p])
  }

  lemma ResolveStart(code: seq<int>, ps: seq<nat>, address: int)
    ensures Resolving(code, code, ps, 0, address)
  {
  }

  /** The next word still holds its link, and overwriting it touches no other word. */
  lemma ResolveStep(code: seq<int>, code': seq<int>, ps: seq<nat>, k: nat, address: int)
    requires Acyclic(ps) && k < |ps| && ps[k] < |code| && Resolving(code, code', ps, k, address)
    ensures |code'| == |code| && code'[ps[k]] == code[ps[k]]
    ensures Resolving(code, code'[ps[k] := address], ps, k + 1, address)
  {
    var done := code'[ps[k] := address];
    assert ps[k] !in ps[..k];
    forall p | 0 <= p < |code| && p !in ps[..k + 1]
      ensures done[p] == code[p]
    {
      assert ps[..k + 1][k] == ps[k];
      assert forall j :: 0 <= j < k ==> ps[..k][j] == ps[..k + 1][j];
    }
  }

  /** The inner loop: follows one list, which it overwrites behind itself. */
  method ResolveLabel(code: seq<int>, head: int, address: int, ghost ps: seq<nat>) returns (code': seq<int>)
    requires Threaded(code, head, ps) && Acyclic(ps)
    ensures Resolving(code, code', ps, |ps|, address)
  {
    hide Resolving, Acyclic;
    code' := code;
    var patch := head;
    ghost var k := 0;
    ResolveStart(code, ps, address);
    while patch >= 0
      invariant k <= |ps| && patch == At(ps, k)
      invariant Resolving(code, code', ps, k, address)
      decreases |ps| - k
    {
      ResolveStep(code, code', ps, k, address);
      var next := code'[patch];
      code' := code'[patch := address];
      patch := next;
      k := k + 1;
    }
  }

  lemma LabelResolved(code: seq<int>, code1: seq<int>, code2: seq<int>, labels: seq<Label>, functions: nat, used: nat,
                      base: nat, v: View, l: nat)
    requires Inv(code, labels, functions, used, v) && l < |labels|
    requires Resolved(code, code1, labels, base, v, l)
    requires Resolving(code1, code2, v.chains[l], |v.chains[l]|, Address(base, labels[l].value))
    ensures Resolved(code, code2, labels, base, v, l + 1)
  {
    var ps := v.chains[l];
    assert ps[..|ps|] == ps;
    assert Collects(v.refs, l, ps);
    forall p | 0 <= p < |code|
      ensures p in v.refs && v.refs[p] < l + 1 ==> code2[p] == Address(base, labels[v.refs[p]].value)
      ensures !(p in v.refs && v.refs[p] < l + 1) ==> code2[p] == code[p]
    {
      if p in ps {
        var j :| 0 <= j < |ps| && ps[j] == p;
        assert code2[ps[j]] == Address(base, labels[l].value);
      } else {
        assert code2[p] == code1[p];
      }
    }
  }

  /** The lists still to be followed are not touched by the ones already resolved. */
  lemma StillThreaded(code: seq<int>, code1: seq<int>, labels: seq<Label>, functions: nat, used: nat,
                      base: nat, v: View, l: nat)
    requires Inv(code, labels, functions, used, v) && l < |labels|
    requires Resolved(code, code1, labels, base, v, l)
    ensures Threaded(code1, labels[l].patches, v.chains[l]) && Acyclic(v.chains[l])
  {
    assert Collects(v.refs, l, v.chains[l]);
    ThreadedFrame(code, code1, labels[l].patches, v.chains[l]);
  }

  // ---------- what the load has emitted ----------

  /** One step of the load; `Info` is a func_info with the padding in front of it. */
  datatype Event = Words(ws: seq<int>) | Refer(l: nat) | Define(l: nat) | Info(ws: seq<int>, pad: nat) | New

  /** The words of the code, behind `functions` table slots and their end marker; 0 for a reference. */
  function Emitted(es: seq<Event>, functions: nat): (code: seq<int>)
    ensures |code| > functions
  {
    if es == [] then seq(functions + 1, _ => 0)
    else
      var before := Emitted(es[..|es| - 1], functions);
      match es[|es| - 1]
      case Words(ws) => before + ws
      case Refer(_) => before + [0]
      case Info(ws, pad) => before + seq(pad, _ => 0) + ws
      case _ => before
  }

  function LastDefined(es: seq<Event>): nat {
    if es == [] then 0
    else if es[|es| - 1].Define? then es[|es| - 1].l
    else LastDefined(es[..|es| - 1])
  }

  function Infos(es: seq<Event>): nat {
    if es == [] then 0 else Infos(es[..|es| - 1]) + if es[|es| - 1].Info? then 1 else 0
  }

  /** The code index at which `l` was defined, moved by the padding of its own func_info; 0 if it was not defined. */
  function IndexOf(es: seq<Event>, functions: nat, l: nat): nat {
    if es == [] then 0
    else
      var front := es[..|es| - 1];
      match es[|es| - 1]
      case Define(k) => if k == l then |Emitted(front, functions)| else IndexOf(front, functions, l)
      case Info(_, pad) => IndexOf(front, functions, l) + if LastDefined(front) == l then pad else 0
      case _ => IndexOf(front, functions, l)
  }

  /** The words that refer to labels: operands where they were emitted, and one table slot per func_info. */
  function References(es: seq<Event>, functions: nat): map<nat, nat> {
    if es == [] then map[]
    else
      var front := es[..|es| - 1];
      match es[|es| - 1]
      case Refer(l) => References(front, functions)[|Emitted(front, functions)| := l]
      case Info(_, _) => References(front, functions)[Infos(front) := LastDefined(front)]
      case _ => References(front, functions)
  }

  /** Step k makes the word at p refer to l: an operand where it was emitted, or the table slot of a func_info. */
  ghost predicate RefersAt(es: seq<Event>, functions: nat, k: nat, p: nat, l: nat)
    requires k < |es|
  {
    match es[k]
    case Refer(m) => m == l && p == |Emitted(es[..k], functions)|
    case Info(_, _) => p == Infos(es[..k]) && l == LastDefined(es[..k])
    case _ => false
  }

  /** The word of step k lies below the end of the code, and a table slot below those in use. */
  lemma {:induction false} RefersBelow(es: seq<Event>, functions: nat, k: nat, p: nat, l: nat)
    requires k < |es| && RefersAt(es, functions, k, p, l) && Infos(es) <= functions
    ensures p < |Emitted(es, functions)| && (p < functions ==> p < Infos(es))
    decreases |es|
  {
    var n := |es| - 1;
    if k < n {
      assert es[..n][..k] == es[..k];
      RefersBelow(es[..n], functions, k, p, l);
    }
  }

  /** In every load the references are those that some step made, and none replaces another. */
  lemma {:induction false} ReferencesAre(es: seq<Event>, functions: nat, p: nat, l: nat)
    requires Infos(es) <= functions
    ensures p in References(es, functions) && References(es, functions)[p] == l
            <==> exists k: nat :: k < |es| && RefersAt(es, functions, k, p, l)
    decreases |es|
  {
    if es != [] {
      var n := |es| - 1;
      var front := es[..n];
      ReferencesAre(front, functions, p, l);
      if k: nat :| k < n && RefersAt(es, functions, k, p, l) {
        assert front[..k] == es[..k] && RefersAt(front, functions, k, p, l);
        RefersBelow(front, functions, k, p, l);
      } else {
        forall k: nat | k < n
          ensures !RefersAt(front, functions, k, p, l)
        {
          assert front[..k] == es[..k] && !RefersAt(es, functions, k, p, l);
        }
        assert p in References(es, functions) && References(es, functions)[p] == l <==> RefersAt(es, functions, n, p, l);
      }
    }
  }

  /** Later steps that are not about `l` leave its index. */
  lemma {:induction false} IndexKept(es: seq<Event>, functions: nat, l: nat, more: seq<Event>)
    requires Define(l) !in more
    requires forall k :: 0 <= k < |more| && more[k].Info? ==> LastDefined(es + more[..k]) != l
    ensures IndexOf(es + more, functions, l) == IndexOf(es, functions, l)
    ensures Emitted(es, functions) <= Emitted(es + more, functions)
    decreases |more|
  {
    hide IndexOf, Emitted, LastDefined;
    if more == [] {
      assert es + more == es;
    } else {
      var n := |more| - 1;
      assert es + more == (es + more[..n]) + [more[n]];
      assert forall k :: 0 <= k < n ==> more[..n][..k] == more[..k];
      IndexKept(es, functions, l, more[..n]);
      assert more[n] in more;
      IndexStep(es + more[..n], functions, l, more[n]);
    }
  }

  lemma IndexStep(es: seq<Event>, functions: nat, l: nat, e: Event)
    requires e != Define(l) && (e.Info? ==> LastDefined(es) != l)
    ensures IndexOf(es + [e], functions, l) == IndexOf(es, functions, l)
    ensures Emitted(es, functions) <= Emitted(es + [e], functions)
  {
    Appended(es, e);
  }

  /** A label stands for the word that follows its definition. */
  lemma LabelPointsAt(es: seq<Event>, functions: nat, l: nat, w: int, ws: seq<int>, more: seq<Event>)
    requires Define(l) !in more
    requires forall k :: 0 <= k < |more| && more[k].Info? ==> LastDefined(es + [Define(l), Words([w] + ws)] + more[..k]) != l
    ensures var all := es + [Define(l), Words([w] + ws)] + more;
            var index := IndexOf(all, functions, l);
            index == |Emitted(es, functions)| < |Emitted(all, functions)| && Emitted(all, functions)[index] == w
  {
    var one := es + [Define(l)];
    var two := one + [Words([w] + ws)];
    assert one[..|one| - 1] == es && two[..|two| - 1] == one && two == es + [Define(l), Words([w] + ws)];
    IndexKept(two, functions, l, more);
    assert Emitted(two, functions)[|Emitted(es, functions)|] == w;
  }

  /** The label of a function stands for its func_info, behind the padding. */
  lemma LabelPointsAtInfo(es: seq<Event>, functions: nat, l: nat, ws: seq<int>, pad: nat, more: seq<Event>)
    requires Define(l) !in more
    requires forall k :: 0 <= k < |more| && more[k].Info? ==> LastDefined(es + [Define(l), Info(ws, pad)] + more[..k]) != l
    ensures var all := es + [Define(l), Info(ws, pad)] + more;
            var index := IndexOf(all, functions, l);
            && index == |Emitted(es, functions)| + pad && index + |ws| <= |Emitted(all, functions)|
            && Emitted(all, functions)[index..index + |ws|] == ws
  {
    var one := es + [Define(l)];
    var two := one + [Info(ws, pad)];
    assert one[..|one| - 1] == es && two[..|two| - 1] == one && two == es + [Define(l), Info(ws, pad)];
    IndexKept(two, functions, l, more);
    var index := |Emitted(es, functions)| + pad;
    assert Emitted(two, functions)[index..index + |ws|] == ws;
  }

  /** The loader's state is what the steps say; referring words hold links until they are resolved. */
  ghost predicate Recorded(code: seq<int>, labels: seq<Label>, functions: nat, used: nat, last: nat, refs: map<nat, nat>,
                           es: seq<Event>)
  {
    var emitted := Emitted(es, functions);
    && |code| == |emitted| && used == Infos(es) && last == LastDefined(es) && refs == References(es, functions)
    && (forall l :: 0 <= l < |labels| ==> labels[l].value == IndexOf(es, functions, l))
    && (forall p :: 0 <= p < |code| && p !in refs ==> code[p] == emitted[p])
  }

  lemma Appended(es: seq<Event>, e: Event)
    ensures (es + [e])[..|es + [e]| - 1] == es && (es + [e])[|es + [e]| - 1] == e
  {
  }

  lemma RecordedNew(code: seq<int>, labels: seq<Label>, functions: nat, used: nat, last: nat, refs: map<nat, nat>,
                    es: seq<Event>)
    requires Recorded(code, labels, functions, used, last, refs, es) && Fresh(es, |labels|) && |labels| > 0
    ensures Recorded(code, labels + [Label(0, -1)], functions, used, last, refs, es + [New])
  {
    Appended(es, New);
    Undefined(es, functions, |labels|);
  }

  /** No step is about label `n` or a later one. */
  predicate Fresh(es: seq<Event>, n: nat) {
    forall i :: 0 <= i < |es| && es[i].Define? ==> es[i].l < n
  }

  lemma {:induction false} Undefined(es: seq<Event>, functions: nat, l: nat)
    requires Fresh(es, l) && l > 0
    ensures IndexOf(es, functions, l) == 0 && LastDefined(es) < l
  {
    if es != [] {
      Undefined(es[..|es| - 1], functions, l);
    }
  }

  lemma RecordedWords(code: seq<int>, labels: seq<Label>, functions: nat, used: nat, last: nat, refs: map<nat, nat>,
                      es: seq<Event>, ws: seq<int>)
    requires Recorded(code, labels, functions, used, last, refs, es)
    requires forall p :: p in refs ==> p < |code|
    ensures Recorded(code + ws, labels, functions, used, last, refs, es + [Words(ws)])
  {
    Appended(es, Words(ws));
  }

  lemma RecordedRefer(code: seq<int>, labels: seq<Label>, functions: nat, used: nat, last: nat, refs: map<nat, nat>,
                      es: seq<Event>, l: nat, w: int, labels': seq<Label>)
    requires Recorded(code, labels, functions, used, last, refs, es)
    requires |labels'| == |labels| && forall i :: 0 <= i < |labels| ==> labels'[i].value == labels[i].value
    ensures Recorded(code + [w], labels', functions, used, last, refs[|code| := l], es + [Refer(l)])
  {
    Appended(es, Refer(l));
  }

  lemma RecordedDefine(code: seq<int>, labels: seq<Label>, functions: nat, used: nat, last: nat, refs: map<nat, nat>,
                       es: seq<Event>, l: nat)
    requires Recorded(code, labels, functions, used, last, refs, es) && l < |labels|
    ensures Recorded(code, labels[l := labels[l].(value := |code|)], functions, used, l, refs, es + [Define(l)])
  {
    Appended(es, Define(l));
  }

  lemma RecordedInfo(code: seq<int>, labels: seq<Label>, functions: nat, used: nat, last: nat, refs: map<nat, nat>,
                     es: seq<Event>, ws: seq<int>, pad: nat, code': seq<int>, labels': seq<Label>)
    requires Recorded(code, labels, functions, used, last, refs, es) && used < |code|
    requires |code'| == |code| + pad + |ws|
    requires forall p :: 0 <= p < |code'| && p != used ==> code'[p] == (code + seq(pad, _ => 0) + ws)[p]
    requires |labels'| == |labels|
    requires forall i :: 0 <= i < |labels| ==> labels'[i].value == labels[i].value + if i == last then pad else 0
    ensures Recorded(code', labels', functions, used + 1, last, refs[used := last], es + [Info(ws, pad)])
  {
    Appended(es, Info(ws, pad));
  }

  lemma Sizes(code: seq<int>, labels: seq<Label>, functions: nat, used: nat, v: View)
    requires Inv(code, labels, functions, used, v)
    ensures used <= functions < |code| && |v.chains| == |labels|
  {
  }

  lemma InfoKeeps(code: seq<int>, labels: seq<Label>, functions: nat, used: nat, last: nat, v: View, es: seq<Event>,
                  ws: seq<int>, pad: nat)
    requires Inv(code, labels, functions, used, v) && used < functions && last < |labels|
    requires Recorded(code, labels, functions, used, last, v.refs, es) && labels[last].value == |code|
    ensures |v.chains| == |labels|
    ensures var code' := (code + seq(pad, _ => 0) + ws)[used := labels[last].patches];
            var labels' := labels[last := Label(labels[last].value + pad, used)];
            && Inv(code', labels', functions, used + 1, Pushed(v, last, used))
            && Recorded(code', labels', functions, used + 1, last, v.refs[used := last], es + [Info(ws, pad)])
  {
    hide Threaded, Collects, Recorded;
    var code1 := code + seq(pad, _ => 0) + ws;
    var labels1 := labels[last := labels[last].(value := labels[last].value + pad)];
    EmitKeeps(code, labels, functions, used, v, code1, labels1);
    var code2 := code1[used := labels[last].patches];
    var labels2 := labels1[last := labels1[last].(patches := used)];
    PushKeeps(code1, labels1, functions, used, v, code2, used + 1, last, used);
    RecordedInfo(code, labels, functions, used, last, v.refs, es, ws, pad, code2, labels2);
    assert labels2 == labels[last := Label(labels[last].value + pad, used)];
  }

  datatype Result = Ok(code: seq<int>) | Unresolved(l: nat)

  const FUNC_INFO_SZ: nat := 5
  /** Room for a call_nif instruction. */
  const MIN_FUNC_SZ: nat := 4

  class Loader {
    var code: seq<int>
    var labels: seq<Label>
    var functions: nat
    var used: nat
    var lastLabel: nat
    var lastFuncStart: nat
    const mayLoadNif: bool
    ghost var view: View
    ghost var history: seq<Event>

    ghost predicate Valid()
      reads this
    {
      && Inv(code, labels, functions, used, view)
      && Recorded(code, labels, functions, used, lastLabel, view.refs, history)
      && Fresh(history, |labels|) && lastLabel < |labels| && lastFuncStart <= |code|
    }

    /** read_code_header and the start of the code buffer. */
    constructor (numLabels: nat, numFunctions: nat, nifs: bool)
      requires numLabels > 0
      ensures Valid() && fresh(this)
      ensures |labels| == numLabels && functions == numFunctions && mayLoadNif == nifs
      ensures history == [] && lastFuncStart == 0
    {
      code := seq(numFunctions + 1, _ => 0);
      labels := seq(numLabels, _ => Label(0, -1));
      functions, used, lastLabel, lastFuncStart, mayLoadNif := numFunctions, 0, 0, 0, nifs;
      view := View(seq(numLabels, _ => []), map[]);
      history := [];
    }

    /** new_label. */
    method NewLabel() returns (l: nat)
      requires Valid()
      modifies this`labels, this`view, this`history
      ensures Valid() && history == old(history) + [New]
      ensures l == |old(labels)| && labels == old(labels) + [Label(0, -1)] && view.refs == old(view.refs)
    {
      hide Threaded, Collects, Recorded;
      l := |labels|;
      Unreferenced(code, labels, functions, used, view);
      RecordedNew(code, labels, functions, used, lastLabel, view.refs, history);
      labels := labels + [Label(0, -1)];
      view := View(view.chains + [[]], view.refs);
      history := history + [New];
    }

    /** Any operand that is not a label. */
    method EmitWord(w: int)
      requires Valid()
      modifies this`code, this`history
      ensures Valid() && code == old(code) + [w] && history == old(history) + [Words([w])]
    {
      hide Threaded, Collects, Recorded;
      EmitKeeps(code, labels, functions, used, view, code + [w], labels);
      RecordedWords(code, labels, functions, used, lastLabel, view.refs, history, [w]);
      code := code + [w];
      history := history + [Words([w])];
    }

    /** An operand of type 'f': the word joins the list of its label. */
    method EmitReference(l: nat)
      requires Valid() && l < |labels|
      modifies this`code, this`labels, this`view, this`history
      ensures Valid() && history == old(history) + [Refer(l)]
      ensures |code| == |old(code)| + 1 && code[..|old(code)|] == old(code)
      ensures view.refs == old(view.refs)[|old(code)| := l]
      ensures |labels| == |old(labels)| && forall i :: 0 <= i < |labels| ==> labels[i].value == old(labels)[i].value
    {
      hide Threaded, Collects, Recorded;
      var ci := |code|;
      var labels1 := labels[l := labels[l].(patches := ci)];
      PushKeeps(code, labels, functions, used, view, code + [labels[l].patches], used, l, ci);
      RecordedRefer(code, labels, functions, used, lastLabel, view.refs, history, l, labels[l].patches, labels1);
      code := code + [labels[l].patches];
      labels := labels1;
      view := Pushed(view, l, ci);
      history := history + [Refer(l)];
    }

    /** Operand 'L' of the label instruction. */
    method DefineLabel(l: nat) returns (ok: bool)
      requires Valid()
      modifies this`labels, this`lastLabel, this`history
      ensures Valid()
      ensures ok <==> 0 < l < |old(labels)| && old(labels)[l].value == 0
      ensures ok ==> labels == old(labels)[l := old(labels)[l].(value := |code|)] && lastLabel == l
      ensures history == if ok then old(history) + [Define(l)] else old(history)
      ensures !ok ==> labels == old(labels)
    {
      hide Threaded, Collects, Recorded;
      if !(0 < l < |labels|) || labels[l].value != 0 {
        return false;
      }
      lastLabel := l;
      EmitKeeps(code, labels, functions, used, view, code, labels[l := labels[l].(value := |code|)]);
      RecordedDefine(code, labels, functions, used, old(lastLabel), view.refs, history, l);
      labels := labels[l := labels[l].(value := |code|)];
      history := history + [Define(l)];
      ok := true;
    }

    /**
     * i_func_info: makes room if needed, then the function-table slot joins the list of the last
     * label.  Only that label moves, and a function that may become a NIF has room for call_nif.
     */
    method FuncInfo(words: seq<int>) returns (ok: bool, ghost pad: nat)
      requires Valid() && |words| == FUNC_INFO_SZ && labels[lastLabel].value == |code|
      modifies this`code, this`labels, this`used, this`lastFuncStart, this`view, this`history
      ensures Valid()
      ensures ok <==> old(used) < functions
      ensures history == old(history) + [if ok then Info(words, pad) else Words(words)]
      ensures ok ==> used == old(used) + 1 && view.refs == old(view.refs)[old(used) := lastLabel]
      ensures ok ==> |code| == |old(code)| + pad + FUNC_INFO_SZ && code[|old(code)| + pad..] == words
      ensures ok ==> forall p :: 0 <= p < |old(code)| && p != old(used) ==> code[p] == old(code)[p]
      ensures ok ==> lastFuncStart == |code| && labels[lastLabel].value == |code| - FUNC_INFO_SZ
      ensures |labels| == |old(labels)|
      ensures forall i :: 0 <= i < |labels| ==>
                labels[i].value == old(labels)[i].value + if ok && i == lastLabel then pad else 0
      ensures ok && mayLoadNif && old(lastFuncStart) != 0 ==> |old(code)| + pad - old(lastFuncStart) >= MIN_FUNC_SZ
      ensures ok && pad > 0 ==>
                mayLoadNif && old(lastFuncStart) != 0 && |old(code)| + pad - old(lastFuncStart) == MIN_FUNC_SZ
      ensures !ok ==> view.refs == old(view.refs)
    {
      hide Inv, Recorded, Fresh;
      Sizes(code, labels, functions, used, view);
      if used >= functions {
        TooMany(words);
        return false, 0;
      }
      var room := |code| - lastFuncStart;
      var more: nat := if mayLoadNif && lastFuncStart != 0 && room < MIN_FUNC_SZ then MIN_FUNC_SZ - room else 0;
      pad := more;
      PlaceInfo(words, more);
      lastFuncStart := |code|;
      ok := true;
    }

    /** The words of a func_info for which the header announced no function. */
    method TooMany(words: seq<int>)
      requires Valid()
      modifies this`code, this`history
      ensures Valid() && code == old(code) + words && history == old(history) + [Words(words)]
    {
      hide Threaded, Collects, Recorded;
      EmitKeeps(code, labels, functions, used, view, code + words, labels);
      RecordedWords(code, labels, functions, used, lastLabel, view.refs, history, words);
      code := code + words;
      history := history + [Words(words)];
    }

    /** The words behind their padding, and the table slot. */
    method PlaceInfo(words: seq<int>, pad: nat)
      requires Valid() && labels[lastLabel].value == |code| && used < functions < |code|
      modifies this`code, this`labels, this`used, this`view, this`history
      ensures Valid() && history == old(history) + [Info(words, pad)]
      ensures used == old(used) + 1 && view.refs == old(view.refs)[old(used) := lastLabel]
      ensures |code| == |old(code)| + pad + |words| && code[|old(code)| + pad..] == words
      ensures forall p :: 0 <= p < |old(code)| && p != old(used) ==> code[p] == old(code)[p]
      ensures |labels| == |old(labels)|
      ensures forall i :: 0 <= i < |labels| ==>
                labels[i].value == old(labels)[i].value + if i == lastLabel then pad else 0
    {
      hide Inv, Recorded;
      InfoKeeps(code, labels, functions, used, lastLabel, view, history, words, pad);
      var slot := used;
      ghost var g := Pushed(view, lastLabel, slot);
      code, labels, used := (code + seq(pad, _ => 0) + words)[slot := labels[lastLabel].patches],
        labels[lastLabel := Label(labels[lastLabel].value + pad, slot)], used + 1;
      view := g;
      history := history + [Info(words, pad)];
    }

    /**
     * The label part of freeze_code.  It succeeds exactly if every label that is
     * referred to has been defined.  Then every reference holds the address of the
     * index where its label was defined, and every other word is as emitted.
     */
    method Freeze(base: nat) returns (r: Result)
      requires Valid()
      ensures r.Ok? <==> forall p :: p in view.refs ==> labels[view.refs[p]].value != 0
      ensures r.Ok? ==> |r.code| == |code|
      ensures r.Ok? ==> forall p :: p in view.refs ==> r.code[p] == Address(base, labels[view.refs[p]].value)
      ensures r.Ok? ==> forall p :: 0 <= p < |code| && p !in view.refs ==> r.code[p] == code[p]
      ensures r.Unresolved? ==> r.l < |labels| && labels[r.l].value == 0 && r.l in view.refs.Values
      ensures r.Ok? <==> Complete(history, functions)
      ensures r.Ok? ==> Frozen(history, functions, base, r.code)
    {
      hide Threaded, Resolving, Recorded, Complete;
      RecordedComplete(code, labels, functions, used, lastLabel, view.refs, history);
      var cur := code;
      for i := 0 to |labels|
        invariant Resolved(code, cur, labels, base, view, i)
        invariant forall p :: p in view.refs && view.refs[p] < i ==> labels[view.refs[p]].value != 0
      {
        HeadMeans(code, labels, functions, used, view, i);
        if labels[i].value == 0 && labels[i].patches >= 0 {
          return Unresolved(i);
        }
        StillThreaded(code, cur, labels, functions, used, base, view, i);
        var next := ResolveLabel(cur, labels[i].patches, Address(base, labels[i].value), view.chains[i]);
        LabelResolved(code, cur, next, labels, functions, used, base, view, i);
        cur := next;
      }
      r := Ok(cur);
      RecordedFrozen(code, labels, functions, used, lastLabel, view.refs, history, base, cur);
    }
  }

  /** Every label that some step refers to was defined by some step. */
  ghost predicate Complete(es: seq<Event>, functions: nat) {
    var refs := References(es, functions);
    forall p :: p in refs ==> IndexOf(es, functions, refs[p]) != 0
  }

  lemma RecordedComplete(code: seq<int>, labels: seq<Label>, functions: nat, used: nat, last: nat, refs: map<nat, nat>,
                         es: seq<Event>)
    requires Recorded(code, labels, functions, used, last, refs, es)
    requires forall p :: p in refs ==> refs[p] < |labels|
    ensures Complete(es, functions) <==> forall p :: p in refs ==> labels[refs[p]].value != 0
  {
  }

  /** The finished code, from the steps of the load alone. */
  ghost predicate Frozen(es: seq<Event>, functions: nat, base: nat, code: seq<int>) {
    var emitted, refs := Emitted(es, functions), References(es, functions);
    && |code| == |emitted|
    && forall p :: 0 <= p < |code| ==>
         if p in refs then IndexOf(es, functions, refs[p]) != 0 && code[p] == Address(base, IndexOf(es, functions, refs[p]))
         else code[p] == emitted[p]
  }

  lemma RecordedFrozen(code: seq<int>, labels: seq<Label>, functions: nat, used: nat, last: nat, refs: map<nat, nat>,
                       es: seq<Event>, base: nat, code': seq<int>)
    requires Recorded(code, labels, functions, used, last, refs, es) && |code'| == |code|
    requires forall p :: p in refs ==> p < |code| && refs[p] < |labels| && labels[refs[p]].value != 0
    requires forall p :: p in refs ==> code'[p] == Address(base, labels[refs[p]].value)
    requires forall p :: 0 <= p < |code| && p !in refs ==> code'[p] == code[p]
    ensures Frozen(es, functions, base, code')
  {
  }

  lemma Unreferenced(code: seq<int>, labels: seq<Label>, functions: nat, used: nat, v: View)
    requires Inv(code, labels, functions, used, v)
    ensures Inv(code, labels + [Label(0, -1)], functions, used, View(v.chains + [[]], v.refs))
  {
  }

  /** A label has a head exactly if some word refers to it. */
  lemma HeadMeans(code: seq<int>, labels: seq<Label>, functions: nat, used: nat, v: View, l: nat)
    requires Inv(code, labels, functions, used, v) && l < |labels|
    ensures labels[l].patches >= 0 <==> exists p :: p in v.refs && v.refs[p] == l
    ensures labels[l].patches >= 0 ==> l in v.refs.Values
  {
    assert Threaded(code, labels[l].patches, v.chains[l]);
    assert Collects(v.refs, l, v.chains[l]);
    if v.chains[l] != [] {
      var p := v.chains[l][0];
      assert p in v.chains[l];
      assert p in v.refs && v.refs[p] == l;
    }
  }
}

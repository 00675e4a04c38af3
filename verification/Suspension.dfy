/** Suspension counts of processes, and waking a whole list of them (erts_suspend and erts_resume). */
module Suspension {
  type Proc = nat

  /** One resumption for every listed process that is still alive. */
  function Resumed(ps: seq<Proc>, dead: set<Proc>, suspended: multiset<Proc>): multiset<Proc> {
    if ps == [] then suspended
    else Resumed(ps[1..], dead, if ps[0] in dead then suspended else suspended - multiset{ps[0]})
  }

  /** A live process loses as many suspensions as it is listed times, a dead one none. */
  lemma {:induction false} ResumedCounts(ps: seq<Proc>, dead: set<Proc>, suspended: multiset<Proc>, p: Proc)
    requires forall q :: q !in dead ==> suspended[q] >= multiset(ps)[q]
    ensures p !in dead ==> Resumed(ps, dead, suspended)[p] == suspended[p] - multiset(ps)[p]
    ensures p in dead ==> Resumed(ps, dead, suspended)[p] == suspended[p]
  {
    if ps != [] {
      assert ps == [ps[0]] + ps[1..];
      assert multiset(ps) == multiset{ps[0]} + multiset(ps[1..]);
      ResumedCounts(ps[1..], dead, if ps[0] in dead then suspended else suspended - multiset{ps[0]}, p);
    }
  }
}

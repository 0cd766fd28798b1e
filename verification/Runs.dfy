/** Runs of a step system: what holds of every run, whatever the system. */
module Runs {
  import opened Text

  /** The steps can be taken one after the other from `s` and lead to `t`; `next` gives the state
      after a step, or None where the step cannot be taken. */
  ghost predicate Leads<S, A>(next: (S, A) -> Option<S>, s: S, steps: seq<A>, t: S)
    decreases |steps|
  {
    if steps == [] then s == t
    else next(s, steps[0]).Some? && Leads(next, next(s, steps[0]).value, steps[1..], t)
  }

  lemma {:induction false} LeadsOn<S, A>(next: (S, A) -> Option<S>, s: S, steps: seq<A>, t: S, step: A)
    requires Leads(next, s, steps, t) && next(t, step).Some?
    ensures Leads(next, s, steps + [step], next(t, step).value)
    decreases |steps|
  {
    var all, u := steps + [step], next(t, step).value;
    if steps == [] {
      assert all[0] == step && all[1..] == [];
      assert Leads(next, u, [], u);
    } else {
      LeadsOn(next, next(s, steps[0]).value, steps[1..], t, step);
      assert all[0] == steps[0] && all[1..] == steps[1..] + [step];
    }
  }

  /** What every step keeps holds at the end of every run that starts with it. */
  lemma {:induction false} RunKeeps<S(!new), A(!new)>(next: (S, A) -> Option<S>, inv: S -> bool,
                                                      s: S, steps: seq<A>, t: S)
    requires forall u, a :: inv(u) && next(u, a).Some? ==> inv(next(u, a).value)
    requires inv(s) && Leads(next, s, steps, t)
    ensures inv(t)
    decreases |steps|
  {
    if steps == [] {
    } else {
      RunKeeps(next, inv, next(s, steps[0]).value, steps[1..], t);
    }
  }

  /** Some run leads from `s` to `t`. */
  ghost predicate Reaches<S(!new), A(!new)>(next: (S, A) -> Option<S>, s: S, t: S) {
    exists steps :: Leads(next, s, steps, t)
  }

  lemma ReachesItself<S(!new), A(!new)>(next: (S, A) -> Option<S>, s: S)
    ensures Reaches(next, s, s)
  {
    assert Leads(next, s, [], s);
  }

  lemma ReachesOn<S(!new), A(!new)>(next: (S, A) -> Option<S>, s: S, t: S, step: A)
    requires Reaches(next, s, t) && next(t, step).Some?
    ensures Reaches(next, s, next(t, step).value)
  {
    var steps :| Leads(next, s, steps, t);
    LeadsOn(next, s, steps, t, step);
  }

  lemma ReachesThrough<S(!new), A(!new)>(next: (S, A) -> Option<S>, s: S, t: S, u: S)
    requires Reaches(next, s, t) && Reaches(next, t, u)
    ensures Reaches(next, s, u)
  {
    var inv := (v: S) => Reaches(next, s, v);
    forall v, a | inv(v) && next(v, a).Some?
      ensures inv(next(v, a).value)
    {
      ReachesOn(next, s, v, a);
    }
    var more :| Leads(next, t, more, u);
    RunKeeps(next, inv, t, more, u);
  }
}

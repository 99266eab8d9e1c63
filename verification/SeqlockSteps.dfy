/** Steps of the protocol taken one after another, and the run they make. */
module SeqlockSteps {
  import opened Basics
  import opened Seqlock

  /** Taking these steps from `s` ends in `t`. */
  predicate Leads(s: State, steps: seq<Step>, t: State)
    decreases |steps|
  {
    if steps == [] then s == t else Enabled(s, steps[0]) && Leads(Next(s, steps[0]), steps[1..], t)
  }

  lemma {:induction false} LeadsOn(s: State, a: seq<Step>, t: State, b: seq<Step>, u: State)
    requires Leads(s, a, t) && Leads(t, b, u)
    ensures Leads(s, a + b, u)
    decreases |a|
  {
    if a == [] {
      assert a + b == b;
    } else {
      assert (a + b)[1..] == a[1..] + b;
      LeadsOn(Next(s, a[0]), a[1..], t, b, u);
    }
  }

  lemma {:induction false} LeadsOneMore(s: State, a: seq<Step>, t: State, step: Step)
    requires Leads(s, a, t) && Enabled(t, step)
    ensures Leads(s, a + [step], Next(t, step))
  {
    assert [step][1..] == [];
    LeadsOn(s, a, t, [step], Next(t, step));
  }

  /** The states on the way, when these steps lead from `s` to `t`. */
  function Trace(s: State, steps: seq<Step>, t: State): (states: seq<State>)
    requires Leads(s, steps, t)
    ensures |states| == |steps| + 1 && states[0] == s && Last(states) == t
    decreases |steps|
  {
    if steps == [] then [s] else [s] + Trace(Next(s, steps[0]), steps[1..], t)
  }

  lemma {:induction false} TraceIsARun(s: State, steps: seq<Step>, t: State)
    requires Leads(s, steps, t)
    ensures
      var states := Trace(s, steps, t);
      forall i | 0 <= i < |steps| :: Enabled(states[i], steps[i]) && states[i + 1] == Next(states[i], steps[i])
    decreases |steps|
  {
    if steps != [] {
      TraceIsARun(Next(s, steps[0]), steps[1..], t);
    }
  }
}

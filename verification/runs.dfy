// Runs of a system: the state after a list of actions, each of which has to be
// possible when it happens.
module Runs {
  import opened Results

  function Run<S, A>(step: (S, A) -> Option<S>, s: S, actions: seq<A>): Option<S> {
    if actions == [] then Some(s)
    else
      var before := Run(step, s, actions[..|actions| - 1]);
      if before.None? then None else step(before.value, actions[|actions| - 1])
  }

  lemma OneMore<S, A>(step: (S, A) -> Option<S>, s: S, first: seq<A>, a: A)
    ensures Run(step, s, first + [a]) ==
            if Run(step, s, first).None? then None else step(Run(step, s, first).value, a)
  {
    assert (first + [a])[..|first|] == first;
  }

  lemma Two<S, A>(step: (S, A) -> Option<S>, s: S, a: A, b: A)
    ensures Run(step, s, [a, b]) == if step(s, a).None? then None else step(step(s, a).value, b)
  {
    OneMore(step, s, [], a);
    assert [] + [a] == [a] && [a] + [b] == [a, b];
    OneMore(step, s, [a], b);
  }

  lemma {:induction false} Concat<S, A>(step: (S, A) -> Option<S>, s: S, first: seq<A>, more: seq<A>)
    requires Run(step, s, first).Some?
    ensures Run(step, s, first + more) == Run(step, Run(step, s, first).value, more)
    decreases |more|
  {
    if more == [] {
      assert first + more == first;
    } else {
      var n := |more| - 1;
      Concat(step, s, first, more[..n]);
      assert (first + more)[..|first + more| - 1] == first + more[..n];
    }
  }
}

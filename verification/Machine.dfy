/** Stream machines: a step function folded over an input stream.

    Every signal-processing block of the model is specified by such a step
    function; the block's imperative work method is proved to compute `Run`. */
module Machine {

  /** Final state and concatenated output of `step` over all of `input`. */
  function Run<S, I, O>(step: (S, I) -> (S, seq<O>), s: S, input: seq<I>): (r: (S, seq<O>))
    decreases |input|
  {
    if input == [] then (s, [])
    else
      var (s1, o1) := Run(step, s, input[..|input| - 1]);
      var (s2, o2) := step(s1, input[|input| - 1]);
      (s2, o1 + o2)
  }

  lemma RunSnoc<S, I, O>(step: (S, I) -> (S, seq<O>), s: S, input: seq<I>, x: I)
    ensures Run(step, s, input + [x]) ==
            (var (s1, o1) := Run(step, s, input);
             var (s2, o2) := step(s1, x);
             (s2, o1 + o2))
  {
    assert (input + [x])[..|input|] == input;
  }

  /** Splitting the stream into two calls changes nothing. */
  lemma {:induction false} RunAppend<S, I, O>(step: (S, I) -> (S, seq<O>), s: S, a: seq<I>, b: seq<I>)
    ensures Run(step, s, a + b) ==
            (var (s1, o1) := Run(step, s, a);
             var (s2, o2) := Run(step, s1, b);
             (s2, o1 + o2))
    decreases |b|
  {
    var (s1, o1) := Run(step, s, a);
    if b == [] {
      assert a + b == a;
      assert o1 + [] == o1;
    } else {
      var b', x := b[..|b| - 1], b[|b| - 1];
      assert b == b' + [x] && a + b == (a + b') + [x];
      RunAppend(step, s, a, b');
      RunSnoc(step, s, a + b', x);
      var (s2, o2) := Run(step, s1, b');
      assert Run(step, s, a + b') == (s2, o1 + o2);
      RunSnoc(step, s1, b', x);
      assert (o1 + o2) + step(s2, x).1 == o1 + (o2 + step(s2, x).1);
    }
  }
}

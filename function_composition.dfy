/** `HigherOrderUtils.FunctionComposition`: from `f: B -> C` and
    `g: A -> B`, the function that runs `g` and feeds its result to `f`
    (Java's `g.andThen(f)`). */
module FunctionComposition {

  function Composition<A, B, C>(f: B -> C, g: A -> B): (h: A -> C) {
    x => f(g(x))
  }

  /** The composed function applies `g` first and `f` to its result. */
  lemma CompositionApplies<A, B, C>(f: B -> C, g: A -> B, x: A)
    ensures Composition(f, g)(x) == f(g(x))
  {
  }

  /** Composing is associative: grouping does not change the function. */
  lemma CompositionAssociative<A, B, C, D>(f: C -> D, g: B -> C, k: A -> B, x: A)
    ensures Composition(f, Composition(g, k))(x) == Composition(Composition(f, g), k)(x)
  {
  }

  /** The order of the two arguments matters: with `f = x + 1` and
      `g = 2 * x`, `Composition(f, g)(3)` is 7 while `Composition(g, f)(3)` is 8. */
  lemma CompositionOrderMatters()
    ensures var f := (x: int) => x + 1;
            var g := (x: int) => 2 * x;
            Composition(f, g)(3) == 7 && Composition(g, f)(3) == 8
  {
  }
}

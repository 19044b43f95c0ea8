/** An optional value, and the sizes of parts of finite sets. */
module Basics {

  datatype Option<+T> = None | Some(value: T)

  lemma {:induction false} SubsetSize<T>(a: set<T>, b: set<T>)
    requires a <= b
    ensures |a| <= |b|
  {
    if a != {} {
      var x :| x in a;
      SubsetSize(a - {x}, b - {x});
    }
  }

  /** Taking one more element of the universe leaves fewer. */
  lemma FewerLeft<T>(universe: set<T>, before: set<T>, after: set<T>, x: T)
    requires x in universe && x !in before && before <= after && x in after
    ensures |universe - after| < |universe - before|
  {
    SubsetSize(universe - after, universe - before - {x});
  }
}

/** Small shared vocabulary: optional values, results, and the
    (pattern, replacement) pair that both the template store and the
    renamer work with. */
module Base {

  /** A value that may be missing (Python's `None`, SQL's NULL). */
  datatype Option<+T> = None | Some(value: T)

  /** The outcome of an operation that either produces a value or raises. */
  datatype Result<+R, +E> = Success(value: R) | Failure(error: E)

  /** One rename rule as the renamer receives it: a regular expression and
      its replacement text. */
  datatype Template = Template(pattern: string, replacement: string)

  /** Every element of `xs` is different from every other one. */
  predicate Distinct<T(==)>(xs: seq<T>) {
    forall i, j :: 0 <= i < j < |xs| ==> xs[i] != xs[j]
  }

  /** Sequence facts the proofs use in contexts where the solver would
      otherwise search too widely for them. */
  lemma SplitFirst<T>(xs: seq<T>)
    requires xs != []
    ensures xs == [xs[0]] + xs[1..]
  {
  }

  lemma ConcatAssoc<T>(a: seq<T>, b: seq<T>, c: seq<T>)
    ensures (a + b) + c == a + (b + c)
  {
  }

  lemma TailOfAppend<T>(a: seq<T>, b: seq<T>)
    requires a != []
    ensures (a + b)[0] == a[0] && (a + b)[1..] == a[1..] + b
  {
  }
}

/** Outcomes of the macro expansion and small facts about lists of strings. */
module Results {

  /** A value or the error that stopped the computation. */
  datatype Result<T, E> = Ok(value: T) | Err(error: E)

  /** Why `html_format!` produces no string.  `MissingKey` is the
      "missing value for key" compile error; `NoLiteralParts` is the panic
      of `lit_tokens.last().unwrap()` when the template left no literal part. */
  datatype FormatError = MissingKey(name: string) | NoLiteralParts
}

module Strings {

  /** Sum of the lengths of `ss` (what `.map(|s| s.len()).sum()` computes). */
  function SumLens(ss: seq<string>): (n: nat)
  {
    if ss == [] then 0 else SumLens(ss[..|ss| - 1]) + |ss[|ss| - 1]|
  }

  /** SumLens distributes over concatenation. */
  lemma {:induction false} SumLensAppend(a: seq<string>, b: seq<string>)
    ensures SumLens(a + b) == SumLens(a) + SumLens(b)
    decreases |b|
  {
    if b != [] {
      assert (a + b)[..|a + b| - 1] == a + b[..|b| - 1];
      SumLensAppend(a, b[..|b| - 1]);
    } else {
      assert a + b == a;
    }
  }

  /** Strings of at most `bound` characters have lengths that sum to at most `bound` per string. */
  lemma {:induction false} SumLensBounded(ss: seq<string>, bound: nat)
    requires forall j :: 0 <= j < |ss| ==> |ss[j]| <= bound
    ensures SumLens(ss) <= bound * |ss|
    decreases |ss|
  {
    if ss != [] {
      SumLensBounded(ss[..|ss| - 1], bound);
    }
  }
}

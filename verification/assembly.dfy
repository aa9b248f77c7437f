/** The code `html_format` generates (src/lib.rs), read as a string function:
    a `String` pre-sized to `lit_len + 16 * n`, the first literal parts
    each followed by a value, and then the last literal part once more. */
module Assembly {
  import opened Results
  import opened Strings

  /** What the generated block evaluates to: the string and the capacity it
      was created with. */
  datatype Expansion = Expansion(text: string, capacity: nat)

  /** `lits[0] + vals[0] + lits[1] + vals[1] + ...`, as the interleave loop
      emits `s.push_str(lit); s.push_str(val)` for each pair. */
  function Interleave(lits: seq<string>, vals: seq<string>): (out: string)
    requires |lits| == |vals|
    ensures |out| == SumLens(lits) + SumLens(vals)
  {
    if lits == [] then ""
    else Interleave(lits[..|lits| - 1], vals[..|vals| - 1]) + lits[|lits| - 1] + vals[|vals| - 1]
  }

  /** The capacity of the generated `String`: the literal length and 16
      bytes per value. */
  function Capacity(litLen: nat, n: nat): (cap: nat)
    ensures cap >= litLen
    ensures cap == litLen <==> n == 0
  {
    litLen + 16 * n
  }

  /** The string the generated code builds: the pairs of
      `lit_parts.take(n).zip(vals)` (as many as the shorter of the two has),
      then the last literal part; no literal part is the `unwrap` panic. */
  function Assemble(lits: seq<string>, vals: seq<string>): (r: Result<string, FormatError>)
    ensures r.Err? <==> lits == []
    ensures r.Err? ==> r.error == NoLiteralParts
  {
    if lits == [] then Err(NoLiteralParts)
    else
      var k := if |lits| < |vals| then |lits| else |vals|;
      Ok(Interleave(lits[..k], vals[..k]) + lits[|lits| - 1])
  }

  /** With exactly one more literal part than values, every literal part and
      every value is written once, in order, and the output is as long as
      `lit_len` plus the value lengths. */
  lemma AssembleAligned(lits: seq<string>, vals: seq<string>)
    requires |lits| == |vals| + 1
    ensures Assemble(lits, vals) == Ok(Interleave(lits[..|vals|], vals) + lits[|vals|])
    ensures |Assemble(lits, vals).value| == SumLens(lits) + SumLens(vals)
  {
    assert vals[..|vals|] == vals;
    assert lits[..|vals|] + [lits[|vals|]] == lits;
    SumLensAppend(lits[..|vals|], [lits[|vals|]]);
  }

  /** With no more literal parts than values, the values past the literal
      parts are dropped and the last literal part is written twice: once
      in the last pair and once more at the end. */
  lemma AssembleShortLits(lits: seq<string>, vals: seq<string>)
    requires 0 < |lits| <= |vals|
    ensures Assemble(lits, vals) == Assemble(lits, vals[..|lits|])
    ensures var n := |lits|;
      Assemble(lits, vals)
        == Ok(Interleave(lits[..n - 1], vals[..n - 1]) + lits[n - 1] + vals[n - 1] + lits[n - 1])
  {
    var n := |lits|;
    assert lits[..n] == lits;
    assert vals[..n][..n] == vals[..n];
    assert vals[..n][..n - 1] == vals[..n - 1];
  }

  /** Values no longer than 16 bytes never outgrow the capacity when the
      literal parts and values are aligned. */
  lemma CapacityCoversShortValues(lits: seq<string>, vals: seq<string>)
    requires |lits| == |vals| + 1
    requires forall j :: 0 <= j < |vals| ==> |vals[j]| <= 16
    ensures |Assemble(lits, vals).value| <= Capacity(SumLens(lits), |vals|)
  {
    AssembleAligned(lits, vals);
    SumLensBounded(vals, 16);
  }
}

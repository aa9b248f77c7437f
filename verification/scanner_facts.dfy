/** Properties of the template scanner of src/lib.rs (module Scanner). */
module ScannerFacts {
  import opened Strings
  import opened Scanner

  /** The template contains no `{{`. */
  predicate NoOpening(raw: string)
  {
    forall j :: 0 <= j < |raw| ==> !OpensAt(raw, j)
  }

  /** Every byte of `s` read as a literal byte. */
  function TextPieces(s: string): seq<Piece>
  {
    if s == [] then [] else [Text(s[0])] + TextPieces(s[1..])
  }

  /** `TextPieces` read from the back. */
  lemma {:induction false} TextPiecesSnoc(s: string)
    requires s != []
    ensures TextPieces(s) == TextPieces(s[..|s| - 1]) + [Text(s[|s| - 1])]
    decreases |s|
  {
    if |s| > 1 {
      TextPiecesSnoc(s[1..]);
      assert s[1..][..|s| - 2] == s[..|s| - 1][1..];
    }
  }

  /** The total length of the escaped literal bytes among `ps`. */
  function TextLen(ps: seq<Piece>): nat
  {
    if ps == [] then 0
    else
      TextLen(ps[..|ps| - 1]) + match ps[|ps| - 1] case Text(c) => |Escape(c)| case Hole(_) => 0
  }

  /** Where no `{{` starts in `[i, j)`, the scan reads those bytes as literal bytes. */
  lemma {:induction false} PiecesFromText(raw: string, i: nat, j: nat)
    requires i <= j <= |raw|
    requires forall k :: i <= k < j ==> !OpensAt(raw, k)
    ensures PiecesFrom(raw, i) == TextPieces(raw[i..j]) + PiecesFrom(raw, j)
    decreases j - i
  {
    if i < j {
      PiecesFromText(raw, i + 1, j);
      PiecesFromTextStep(raw, i, j);
    } else {
      assert TextPieces(raw[i..j]) == [];
    }
  }

  /** One literal byte in front of a literal stretch. */
  lemma PiecesFromTextStep(raw: string, i: nat, j: nat)
    requires i < j <= |raw| && !OpensAt(raw, i)
    requires PiecesFrom(raw, i + 1) == TextPieces(raw[i + 1..j]) + PiecesFrom(raw, j)
    ensures PiecesFrom(raw, i) == TextPieces(raw[i..j]) + PiecesFrom(raw, j)
  {
    var s := raw[i..j];
    assert TextPieces(s) == [Text(raw[i])] + TextPieces(raw[i + 1..j]) by {
      assert s[0] == raw[i] && s[1..] == raw[i + 1..j];
    }
    PiecesFromText1(raw, i);
  }

  /** Extending the last gap twice extends it by both texts. */
  lemma ExtendTwice(runs: seq<string>, a: string, b: string)
    requires runs != []
    ensures Extend(Extend(runs, a), b) == Extend(runs, a + b)
  {
    var n := |runs|;
    assert Extend(runs, a)[..n - 1] == runs[..n - 1];
    assert (runs[n - 1] + a) + b == runs[n - 1] + (a + b);
  }

  /** Literal bytes extend the last gap by their escaped text and add no key. */
  lemma {:induction false} RunsOfText(ps: seq<Piece>, s: string)
    ensures Runs(ps + TextPieces(s)) == Extend(Runs(ps), EscapeAll(s))
    ensures KeysOf(ps + TextPieces(s)) == KeysOf(ps)
    decreases |s|
  {
    if s == [] {
      var runs := Runs(ps);
      assert EscapeAll(s) == [] && runs[|runs| - 1] + [] == runs[|runs| - 1];
      assert ps + TextPieces(s) == ps;
      assert runs[..|runs| - 1] + [runs[|runs| - 1]] == runs;
    } else {
      var init, c := s[..|s| - 1], s[|s| - 1];
      var q := ps + TextPieces(init);
      RunsOfText(ps, init);
      assert ps + TextPieces(s) == q + [Text(c)] by {
        TextPiecesSnoc(s);
      }
      RunsText(q, c);
      ExtendTwice(Runs(ps), EscapeAll(init), Escape(c));
    }
  }

  /** Brace-free text is its own escape: it passes through verbatim. */
  lemma {:induction false} EscapeVerbatim(s: string)
    requires forall j :: 0 <= j < |s| ==> s[j] != '{' && s[j] != '}'
    ensures EscapeAll(s) == s
    decreases |s|
  {
    if s != [] {
      EscapeVerbatim(s[..|s| - 1]);
      assert s[..|s| - 1] + [s[|s| - 1]] == s;
    }
  }

  /** A template without `{{` yields no key and, unless it is empty, one
      literal part: the template with every brace doubled. */
  lemma ScanPlain(raw: string)
    requires NoOpening(raw)
    ensures Scan(raw).keys == []
    ensures Scan(raw).lits == if raw == [] then [] else [EscapeAll(raw)]
    ensures Scan(raw).litLen == |EscapeAll(raw)|
  {
    var e := EscapeAll(raw);
    assert Runs(Pieces(raw)) == [e] && KeysOf(Pieces(raw)) == [] by {
      PiecesPlain(raw);
      RunsPlain(raw);
    }
    var lits := NonEmpty([e]);
    assert lits == if raw == [] then [] else [e] by {
      NonEmptySnoc([e]);
      assert [e][..0] == [];
    }
    assert SumLens([e]) == SumLens([]) + |e|;
  }

  /** Without `{{`, every byte is a literal byte. */
  lemma PiecesPlain(raw: string)
    requires NoOpening(raw)
    ensures Pieces(raw) == TextPieces(raw)
  {
    PiecesFromText(raw, 0, |raw|);
    assert raw[0..|raw|] == raw;
    assert PiecesFrom(raw, |raw|) == [];
  }

  /** Literal bytes alone form a single gap, their escaped text. */
  lemma RunsPlain(s: string)
    ensures Runs(TextPieces(s)) == [EscapeAll(s)]
    ensures KeysOf(TextPieces(s)) == []
  {
    var e := EscapeAll(s);
    calc {
      Runs(TextPieces(s));
    == { assert [] + TextPieces(s) == TextPieces(s); }
      Runs([] + TextPieces(s));
    == { RunsOfText([], s); assert Runs([]) == [""]; }
      Extend([""], e);
    == { assert "" + e == e; }
      [e];
    }
    assert KeysOf(TextPieces(s)) == [] by {
      RunsOfText([], s);
      assert [] + TextPieces(s) == TextPieces(s);
    }
  }

  /** An unterminated `{{` takes the rest of the template as its key and ends the scan. */
  lemma UnterminatedPlaceholder(raw: string, i: nat)
    requires OpensAt(raw, i)
    requires forall k :: i + 2 <= k < |raw| ==> raw[k] != '}'
    ensures PiecesFrom(raw, i) == [Hole(Trim(raw[SkipWs(raw, i + 2)..]))]
  {
    var start := SkipWs(raw, i + 2);
    assert KeyEnd(raw, start) == |raw| by {
      KeyEndStops(raw, start);
    }
    assert raw[start..|raw|] == raw[start..];
  }

  /** The key-reading loop started at `i` stops at `j` when `j` holds the first `}`. */
  lemma {:induction false} KeyEndAt(raw: string, i: nat, j: nat)
    requires i <= j < |raw| && raw[j] == '}'
    requires forall k :: i <= k < j ==> raw[k] != '}'
    ensures KeyEnd(raw, i) == j
    decreases j - i
  {
    if i < j {
      KeyEndAt(raw, i + 1, j);
    }
  }

  /** `{{key}` lies at `i` in `raw`, with at least one more byte after it. */
  predicate OpenedAt(raw: string, i: nat, key: string)
  {
    i + |key| + 4 <= |raw| && raw[i..i + |key| + 3] == "{{" + key + "}"
  }

  /** The placeholder `{{key}}` lies at `i` in `raw`. */
  predicate PlaceholderAt(raw: string, i: nat, key: string)
  {
    OpenedAt(raw, i, key) && raw[i + |key| + 3] == '}'
  }

  /** `{{key}` with a valid non-empty key is read as that key, and the byte
      after the `}` is consumed with it whatever it is: a well-formed
      placeholder `{{key}}` is consumed entirely. */
  lemma StepPlaceholder(raw: string, i: nat, key: string)
    requires IsKey(key) && key != [] && OpenedAt(raw, i, key)
    ensures Step(raw, i) == (Hole(key), i + |key| + 4)
  {
    var e := i + 2 + |key|;
    var w := raw[i..i + |key| + 3];
    assert raw[i] == '{' && raw[i + 1] == '{' && raw[e] == '}' by {
      assert raw[i] == w[0] && raw[i + 1] == w[1] && raw[e] == w[|key| + 2];
    }
    assert forall k :: i + 2 <= k < e ==> raw[k] == key[k - i - 2] by {
      forall k | i + 2 <= k < e ensures raw[k] == key[k - i - 2] {
        assert raw[k] == w[k - i];
      }
    }
    assert raw[i + 2..e] == key;
    assert SkipWs(raw, i + 2) == i + 2 by {
      assert raw[i + 2] == key[0];
    }
    assert KeyEnd(raw, i + 2) == e by {
      KeyEndAt(raw, i + 2, e);
    }
    assert Trim(key) == key by {
      assert TrimStart(key) == key;
      assert TrimEnd(key) == key;
    }
  }

  /** The scan reads a well-formed placeholder as one piece and goes on after it. */
  lemma PiecesAfterPlaceholder(raw: string, i: nat, key: string, j: nat)
    requires IsKey(key) && key != [] && PlaceholderAt(raw, i, key) && j == i + |key| + 4
    ensures PiecesFrom(raw, i) == [Hole(key)] + PiecesFrom(raw, j)
  {
    StepPlaceholder(raw, i, key);
  }

  /** The byte after the first `}` of a placeholder is skipped even when it
      is not `}`: a template `{{key}` followed by any one byte, such as
      `{{a}x`, scans to the placeholder alone and the last byte is lost. */
  lemma SecondCloserUnchecked(raw: string, key: string)
    requires IsKey(key) && key != [] && |raw| == |key| + 4 && OpenedAt(raw, 0, key)
    ensures Pieces(raw) == [Hole(key)]
  {
    StepPlaceholder(raw, 0, key);
    assert PiecesFrom(raw, |raw|) == [];
  }

  /** Dropping empty strings does not change the total length. */
  lemma {:induction false} SumLensNonEmpty(runs: seq<string>)
    ensures SumLens(NonEmpty(runs)) == SumLens(runs)
    decreases |runs|
  {
    if runs != [] {
      var last := runs[|runs| - 1];
      SumLensNonEmpty(runs[..|runs| - 1]);
      NonEmptySnoc(runs);
      SumLensAppend(NonEmpty(runs[..|runs| - 1]), if last == "" then [] else [last]);
      SumLensAppend(runs[..|runs| - 1], [last]);
      assert runs[..|runs| - 1] + [last] == runs;
    }
  }

  /** The gaps hold exactly the escaped literal bytes. */
  lemma {:induction false} SumLensRuns(ps: seq<Piece>)
    ensures SumLens(Runs(ps)) == TextLen(ps)
    decreases |ps|
  {
    if ps != [] {
      var init := ps[..|ps| - 1];
      SumLensRuns(init);
      var runs := Runs(init);
      assert ps == init + [ps[|ps| - 1]];
      match ps[|ps| - 1]
      case Text(c) =>
        RunsText(init, c);
        SumLensAppend(runs[..|runs| - 1], [runs[|runs| - 1] + Escape(c)]);
        SumLensAppend(runs[..|runs| - 1], [runs[|runs| - 1]]);
        assert runs[..|runs| - 1] + [runs[|runs| - 1]] == runs;
      case Hole(k) =>
        RunsHole(init, k);
        SumLensAppend(runs, [""]);
    }
  }

  /** `lit_len` is the number of escaped literal bytes of the template: every
      literal byte counts once, a brace twice, and placeholders not at all. */
  lemma ScanLitLen(raw: string)
    ensures Scan(raw).litLen == TextLen(Pieces(raw))
  {
    SumLensNonEmpty(Runs(Pieces(raw)));
    SumLensRuns(Pieces(raw));
  }
}

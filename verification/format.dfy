/** The `html_format!` macro of src/lib.rs end to end: scan the template,
    resolve its keys against the bindings, and build the string the
    generated code evaluates to.

    `Expand` is the macro as written. `FormatIntended` is the intended
    expansion: one literal part per gap between placeholders, `|keys| + 1`
    in all, empty ones included. It is proved equal to direct substitution
    (`Render`), and `Expand` is proved to agree with it whenever no gap is
    empty. */
module Macro {
  import opened Results
  import opened Strings
  import opened Scanner
  import opened ScannerFacts
  import opened Resolution
  import opened Assembly

  /** `html_format!(raw, pairs...)` as written: a missing key is reported
      before the `unwrap` of the last literal part can panic. */
  function Expand(raw: string, pairs: seq<Binding>): (r: Result<Expansion, FormatError>)
    ensures r.Ok? ==> r.value.capacity >= Scan(raw).litLen
  {
    var p := Scan(raw);
    match Resolve(p.keys, BindingMap(pairs))
    case Err(e) => Err(e)
    case Ok(vals) =>
      match Assemble(p.lits, vals)
      case Err(e) => Err(e)
      case Ok(text) => Ok(Expansion(text, Capacity(p.litLen, |vals|)))
  }

  /** The body of `html_format`: the scanner, the two resolution loops and
      the assembly, in the source's order. */
  method HtmlFormat(raw: string, pairs: seq<Binding>) returns (r: Result<Expansion, FormatError>)
    ensures r == Expand(raw, pairs)
  {
    var lits, keys, litLen := ParseTemplate(raw);
    var valMap := BuildValMap(pairs);
    var vals := ResolveKeys(keys, valMap);
    if vals.Err? {
      return Err(vals.error);
    }
    var text := Assemble(lits, vals.value);
    if text.Err? {
      return Err(text.error);
    }
    var cap := Capacity(litLen, |vals.value|);
    return Ok(Expansion(text.value, cap));
  }

  /** The two ways the macro fails: a key without a binding (the first such
      key in template order is named), and otherwise a template that left
      no literal part. */
  lemma ExpandErrors(raw: string, pairs: seq<Binding>)
    ensures var p, m := Scan(raw), BindingMap(pairs);
      (Expand(raw, pairs).Err? && Expand(raw, pairs).error.MissingKey?) <==>
        exists j :: 0 <= j < |p.keys| && p.keys[j] !in m
    ensures var p, m := Scan(raw), BindingMap(pairs);
      Expand(raw, pairs) == Err(NoLiteralParts) <==>
        (forall j :: 0 <= j < |p.keys| ==> p.keys[j] in m) && p.lits == []
  {
    ResolveSpec(Scan(raw).keys, BindingMap(pairs));
  }

  /** A template without `{{` needs no binding: it expands to itself with
      every brace doubled (brace-free text verbatim), except that the empty
      template leaves no literal part and panics. */
  lemma ExpandPlain(raw: string, pairs: seq<Binding>)
    requires NoOpening(raw)
    ensures raw == [] ==> Expand(raw, pairs) == Err(NoLiteralParts)
    ensures raw != [] ==> Expand(raw, pairs) == Ok(Expansion(EscapeAll(raw), |EscapeAll(raw)|))
    ensures raw != [] && (forall j :: 0 <= j < |raw| ==> raw[j] != '{' && raw[j] != '}')
      ==> Expand(raw, pairs) == Ok(Expansion(raw, |raw|))
  {
    ScanPlain(raw);
    var e := EscapeAll(raw);
    if raw != [] {
      assert Resolve([], BindingMap(pairs)) == Ok([]);
      assert Assemble([e], []) == Ok(e) by {
        var none: seq<string> := [];
        assert [e][..0] == [] && none[..0] == [];
        assert "" + e == e;
      }
    }
    if forall j :: 0 <= j < |raw| ==> raw[j] != '{' && raw[j] != '}' {
      EscapeVerbatim(raw);
    }
  }

  /** Every placeholder of `ps` has a binding in `m`. */
  predicate Bound(ps: seq<Piece>, m: map<string, string>)
  {
    forall j :: 0 <= j < |ps| ==> ps[j].Hole? ==> ps[j].key in m
  }

  /** Direct substitution: every literal byte escaped, every placeholder
      replaced by the value bound to its key. */
  function Render(ps: seq<Piece>, m: map<string, string>): (out: string)
    requires Bound(ps, m)
    ensures |out| >= TextLen(ps)
  {
    if ps == [] then ""
    else
      var init := ps[..|ps| - 1];
      assert Bound(init, m) by {
        assert forall j :: 0 <= j < |init| ==> init[j] == ps[j];
      }
      Render(init, m) + match ps[|ps| - 1] case Text(c) => Escape(c) case Hole(k) => m[k]
  }

  /** The gaps `runs` with the values `vals` written between them:
      `runs[0] + vals[0] + runs[1] + ... + vals[n-1] + runs[n]`. */
  function Fill(runs: seq<string>, vals: seq<string>): (out: string)
    requires |runs| == |vals| + 1
    ensures |out| == SumLens(runs) + SumLens(vals)
  {
    var n := |vals|;
    assert runs == runs[..n] + [runs[n]];
    SumLensAppend(runs[..n], [runs[n]]);
    Interleave(runs[..n], vals) + runs[n]
  }

  /** Text added to the last gap lands at the end. */
  lemma FillExtend(runs: seq<string>, vals: seq<string>, e: string)
    requires |runs| == |vals| + 1
    ensures Fill(Extend(runs, e), vals) == Fill(runs, vals) + e
  {
    var n := |vals|;
    assert Extend(runs, e)[..n] == runs[..n];
  }

  /** A new value followed by a new, empty gap lands at the end. */
  lemma FillHole(runs: seq<string>, vals: seq<string>, v: string)
    requires |runs| == |vals| + 1
    ensures Fill(runs + [""], vals + [v]) == Fill(runs, vals) + v
  {
    var n := |vals|;
    assert (runs + [""])[..n + 1] == runs;
    assert runs[..n + 1][..n] == runs[..n];
    assert (vals + [v])[..n] == vals;
  }

  /** The intended expansion: the gaps between placeholders, empty ones
      included, as the literal parts, so the `j`-th value always follows
      the `j`-th gap. Its capacity is that of `Expand`. */
  function FormatIntended(raw: string, pairs: seq<Binding>): (r: Result<Expansion, FormatError>)
    ensures r.Err? ==> r.error.MissingKey?
  {
    var ps := Pieces(raw);
    match Resolve(KeysOf(ps), BindingMap(pairs))
    case Err(e) => Err(e)
    case Ok(vals) => Ok(Expansion(Fill(Runs(ps), vals), Capacity(Scan(raw).litLen, |vals|)))
  }

  /** Filling the gaps of `ps` with the values of its keys is direct
      substitution. */
  lemma {:induction false} RenderRuns(ps: seq<Piece>, m: map<string, string>)
    requires Bound(ps, m)
    ensures Resolve(KeysOf(ps), m).Ok?
    ensures Fill(Runs(ps), Resolve(KeysOf(ps), m).value) == Render(ps, m)
    decreases |ps|
  {
    if ps == [] {
      assert Runs(ps) == [""];
    } else {
      var init := ps[..|ps| - 1];
      assert ps == init + [ps[|ps| - 1]];
      assert Bound(init, m) by {
        assert forall j :: 0 <= j < |init| ==> init[j] == ps[j];
      }
      RenderRuns(init, m);
      var vals := Resolve(KeysOf(init), m).value;
      match ps[|ps| - 1]
      case Text(c) =>
        RunsText(init, c);
        FillExtend(Runs(init), vals, Escape(c));
      case Hole(k) =>
        RunsHole(init, k);
        var keys := KeysOf(init);
        assert Resolve(keys + [k], m) == Ok(vals + [m[k]]) by {
          assert (keys + [k])[..|keys|] == keys;
        }
        FillHole(Runs(init), vals, m[k]);
    }
  }

  /** When every key is bound, the intended expansion is direct
      substitution into the template. */
  lemma IntendedIsSubstitution(raw: string, pairs: seq<Binding>)
    requires Bound(Pieces(raw), BindingMap(pairs))
    ensures FormatIntended(raw, pairs).Ok?
    ensures FormatIntended(raw, pairs).value.text == Render(Pieces(raw), BindingMap(pairs))
  {
    RenderRuns(Pieces(raw), BindingMap(pairs));
  }

  /** The macro as written agrees with the intended expansion, for every
      set of bindings, when no gap between placeholders (before the first,
      between two, after the last) is empty. */
  lemma ExpandMatchesIntended(raw: string, pairs: seq<Binding>)
    requires forall j :: 0 <= j < |Runs(Pieces(raw))| ==> Runs(Pieces(raw))[j] != ""
    ensures Expand(raw, pairs) == FormatIntended(raw, pairs)
  {
    var ps := Pieces(raw);
    var runs := Runs(ps);
    NonEmptyShape(runs);
    assert Scan(raw).lits == runs;
    match Resolve(KeysOf(ps), BindingMap(pairs))
    case Err(_) =>
    case Ok(vals) =>
      AssembleAligned(runs, vals);
  }

  /** The pieces of a stretch without `{` at `[i, j)`, followed by whatever the scan reads after it. */
  lemma PiecesAfterText(raw: string, i: nat, sep: string, j: nat)
    requires j == i + |sep| <= |raw| && raw[i..j] == sep
    requires forall k :: 0 <= k < |sep| ==> sep[k] != '{'
    ensures PiecesFrom(raw, i) == TextPieces(sep) + PiecesFrom(raw, j)
  {
    forall k | i <= k < j ensures !OpensAt(raw, k) {
      assert raw[k] == sep[k - i];
    }
    PiecesFromText(raw, i, j);
  }

  /** The scan of `{{a}}sep{{b}}`, where the separator `sep` has no `{`
      and lies at `[i, j)`: a placeholder, the separator's bytes, a
      placeholder. */
  lemma PiecesOfTwoPlaceholders(raw: string, a: string, sep: string, b: string, i: nat, j: nat)
    requires IsKey(a) && a != [] && IsKey(b) && b != []
    requires forall k :: 0 <= k < |sep| ==> sep[k] != '{'
    requires i == |a| + 4 && j == i + |sep| && j + |b| + 4 == |raw|
    requires PlaceholderAt(raw, 0, a) && raw[i..j] == sep && PlaceholderAt(raw, j, b)
    ensures Pieces(raw) == [Hole(a)] + TextPieces(sep) + [Hole(b)]
  {
    var rest := PiecesFrom(raw, j);
    assert rest == [Hole(b)] by {
      PiecesAfterPlaceholder(raw, j, b, |raw|);
      assert PiecesFrom(raw, |raw|) == [];
    }
    var mid := PiecesFrom(raw, i);
    assert mid == TextPieces(sep) + rest by {
      PiecesAfterText(raw, i, sep, j);
    }
    assert Pieces(raw) == [Hole(a)] + mid by {
      PiecesAfterPlaceholder(raw, 0, a, i);
    }
  }

  /** The scan of a template that is one placeholder `{{a}}`. */
  lemma PiecesOfPlaceholder(raw: string, a: string)
    requires IsKey(a) && a != [] && |raw| == |a| + 4 && PlaceholderAt(raw, 0, a)
    ensures Pieces(raw) == [Hole(a)]
  {
    PiecesAfterPlaceholder(raw, 0, a, |raw|);
    assert PiecesFrom(raw, |raw|) == [];
  }

  /** The two bindings `a = x, b = y` of distinct names resolve `a, b` to `x, y`. */
  lemma ResolveTwo(a: string, x: string, b: string, y: string)
    requires a != b
    ensures Resolve([a, b], BindingMap([Binding(a, x), Binding(b, y)])) == Ok([x, y])
  {
    var pairs := [Binding(a, x), Binding(b, y)];
    assert BindingMap(pairs) == map[a := x, b := y] by {
      assert pairs[..1] == [Binding(a, x)];
      assert pairs[..1][..0] == [];
    }
    var m := map[a := x, b := y];
    assert Resolve([a], m) == Ok([x]) by {
      assert [a][..0] == [];
      assert [] + [x] == [x];
    }
    assert [a, b][..1] == [a];
    assert [x] + [y] == [x, y];
  }

  /** The gaps and keys of a placeholder, literal bytes, a placeholder. */
  lemma RunsOfTwo(a: string, sep: string, b: string)
    ensures Runs([Hole(a)] + TextPieces(sep) + [Hole(b)]) == ["", EscapeAll(sep), ""]
    ensures KeysOf([Hole(a)] + TextPieces(sep) + [Hole(b)]) == [a, b]
  {
    RunsOfOne(a);
    var e := EscapeAll(sep);
    assert Runs([Hole(a)] + TextPieces(sep)) == ["", e] && KeysOf([Hole(a)] + TextPieces(sep)) == [a] by {
      RunsOfText([Hole(a)], sep);
      ExtendEmpty(e);
    }
    RunsHole([Hole(a)] + TextPieces(sep), b);
    assert [a] + [b] == [a, b];
  }

  /** The gaps and keys of a single placeholder. */
  lemma RunsOfOne(a: string)
    ensures Runs([Hole(a)]) == ["", ""] && KeysOf([Hole(a)]) == [a]
  {
    RunsHole([], a);
    assert [] + [Hole(a)] == [Hole(a)];
  }

  /** Text added after one closed, empty gap. */
  lemma ExtendEmpty(e: string)
    ensures Extend(["", ""], e) == ["", e]
  {
    assert ["", ""][..1] == [""];
    assert "" + e == e;
  }

  /** Dropping the empty gaps around one non-empty gap. */
  lemma NonEmptyMiddle(e: string)
    requires e != ""
    ensures NonEmpty(["", e, ""]) == [e]
    ensures SumLens([e]) == |e|
  {
    NonEmptySnoc(["", e, ""]);
    NonEmptySnoc(["", e]);
    NonEmptySnoc([""]);
    assert ["", e, ""][..2] == ["", e];
    assert ["", e][..1] == [""];
    assert [""][..0] == [];
    assert [e][..0] == [];
  }

  /** One literal part and two values: the literal, the first value, the literal again. */
  lemma AssembleOneLit(e: string, x: string, y: string)
    ensures Assemble([e], [x, y]) == Ok(e + x + e)
  {
    assert [x, y][..1] == [x] && [e][..1] == [e];
    assert Interleave([e], [x]) == e + x by {
      assert [e][..0] == [] && [x][..0] == [];
      assert "" + e + x == e + x;
    }
  }

  /** Two values between three gaps, the outer two empty. */
  lemma FillTwo(e: string, x: string, y: string)
    ensures Fill(["", e, ""], [x, y]) == x + e + y
  {
    assert ["", e, ""][..2] == ["", e];
    assert Interleave(["", e], [x, y]) == x + e + y by {
      assert ["", e][..1] == [""] && [x, y][..1] == [x];
      assert [""][..0] == [] && [x][..0] == [];
    }
  }

  /** Finding: the empty gaps are dropped, so literal parts and values
      drift apart. A template that scans to a placeholder, a non-empty
      separator `sep` without braces and a placeholder (as `{{a}}sep{{b}}`
      does), with distinct keys bound to `x` and `y`, expands to
      `sep x sep` (the separator twice, `y` never) instead of `x sep y`:
      `{{a}}-{{b}}` with `a = X, b = Y` gives `-X-` instead of `X-Y`. */
  lemma DroppedGapMisaligns(raw: string, a: string, sep: string, b: string, x: string, y: string)
    requires a != b && sep != [] && forall j :: 0 <= j < |sep| ==> sep[j] != '{' && sep[j] != '}'
    requires Pieces(raw) == [Hole(a)] + TextPieces(sep) + [Hole(b)]
    ensures Expand(raw, [Binding(a, x), Binding(b, y)]) == Ok(Expansion(sep + x + sep, |sep| + 32))
    ensures FormatIntended(raw, [Binding(a, x), Binding(b, y)]) == Ok(Expansion(x + sep + y, |sep| + 32))
  {
    EscapeVerbatim(sep);
    RunsOfTwo(a, sep, b);
    NonEmptyMiddle(sep);
    ResolveTwo(a, x, b, y);
    AssembleOneLit(sep, x, y);
    FillTwo(sep, x, y);
  }

  /** Finding: a template that scans to one placeholder (as `{{a}}` does)
      has no literal part, and `lit_tokens.last().unwrap()` panics: `{{a}}`
      with `a = x` fails instead of expanding to `x`. */
  lemma PlaceholderOnlyPanics(raw: string, a: string, x: string)
    requires Pieces(raw) == [Hole(a)]
    ensures Expand(raw, [Binding(a, x)]) == Err(NoLiteralParts)
    ensures FormatIntended(raw, [Binding(a, x)]) == Ok(Expansion(x, 16))
  {
    var pairs := [Binding(a, x)];
    RunsOfOne(a);
    var m := map[a := x];
    assert BindingMap(pairs) == m by {
      assert pairs[..0] == [];
    }
    assert Resolve([a], m) == Ok([x]) by {
      assert [a][..0] == [];
      assert [] + [x] == [x];
    }
    assert Scan(raw) == Parsed([], [a], 0) by {
      NonEmptySnoc(["", ""]);
      NonEmptySnoc([""]);
      assert ["", ""][..1] == [""];
      assert [""][..0] == [];
    }
    assert Fill(["", ""], [x]) == x by {
      assert ["", ""][..1] == [""];
      assert Interleave([""], [x]) == x by {
        assert [""][..0] == [] && [x][..0] == [];
      }
    }
  }

  /** `{{a}}-{{b}}` scans to the placeholder `a`, the byte `-` and the placeholder `b`. */
  lemma DashPieces(raw: string)
    requires raw == "{{a}}-{{b}}"
    ensures Pieces(raw) == [Hole("a")] + TextPieces("-") + [Hole("b")]
  {
    assert raw[0..4] == "{{" + "a" + "}" && raw[4] == '}';
    assert raw[5..6] == "-";
    assert raw[6..10] == "{{" + "b" + "}" && raw[10] == '}';
    PiecesOfTwoPlaceholders(raw, "a", "-", "b", 5, 6);
  }

  /** The first finding on its concrete input: `{{a}}-{{b}}` with
      `a = X, b = Y` expands to `-X-` with capacity 33, where the intended
      expansion is `X-Y`. */
  lemma DashExample(raw: string, pairs: seq<Binding>)
    requires raw == "{{a}}-{{b}}" && pairs == [Binding("a", "X"), Binding("b", "Y")]
    ensures Expand(raw, pairs) == Ok(Expansion("-X-", 33))
    ensures FormatIntended(raw, pairs) == Ok(Expansion("X-Y", 33))
  {
    DashPieces(raw);
    DroppedGapMisaligns(raw, "a", "-", "b", "X", "Y");
    assert "-" + "X" + "-" == "-X-" && "X" + "-" + "Y" == "X-Y";
  }

  /** The second finding on its concrete input: `{{a}}` with `a = X`
      panics where the intended expansion is `X`. */
  lemma LoneExample(raw: string, pairs: seq<Binding>)
    requires raw == "{{a}}" && pairs == [Binding("a", "X")]
    ensures Expand(raw, pairs) == Err(NoLiteralParts)
    ensures FormatIntended(raw, pairs) == Ok(Expansion("X", 16))
  {
    assert raw[0..4] == "{{" + "a" + "}" && raw[4] == '}';
    PiecesOfPlaceholder(raw, "a");
    PlaceholderOnlyPanics(raw, "a", "X");
  }
}

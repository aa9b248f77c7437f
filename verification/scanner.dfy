/** The template scanner `parse_template` of src/lib.rs.

    The template is a string in which every character stands for one byte of
    the source's `raw.as_bytes()`; for ASCII templates the two coincide.

    The scanner is specified in three layers:
    - `Step` is one iteration of the scan loop and `PiecesFrom` the whole scan,
      as a sequence of `Piece`s (one literal byte or one placeholder);
    - `Runs` groups the pieces into the gaps between placeholders, which
      always number one more than the placeholders;
    - `NonEmpty` drops the empty gaps, as the source never pushes an empty
      literal part.
    `Scan` composes them, and the method `ParseTemplate`, a transcription of
    the source's loop, is proved to compute it. */
module Scanner {
  import opened Strings

  /** One token of a template: a literal byte, or a placeholder with its trimmed key. */
  datatype Piece = Text(c: char) | Hole(key: string)

  /** What the scanner returns: `(lit_parts, keys, lit_len)`. */
  datatype Parsed = Parsed(lits: seq<string>, keys: seq<string>, litLen: nat)

  /** Rust's `u8::is_ascii_whitespace`: space, tab, line feed, form feed and
      carriage return (not the vertical tab). */
  predicate IsAsciiWhitespace(c: char)
  {
    c == ' ' || c == '\t' || c == '\n' || c == '\U{000C}' || c == '\r'
  }

  /** The whitespace `str::trim` removes, restricted to ASCII: the above and the vertical tab. */
  predicate IsTrimWhitespace(c: char)
  {
    IsAsciiWhitespace(c) || c == '\U{000B}'
  }

  /** A key as the scanner can produce it: no `}` and nothing to trim at either end. */
  predicate IsKey(k: string)
  {
    && (forall j :: 0 <= j < |k| ==> k[j] != '}')
    && (k == [] || (!IsTrimWhitespace(k[0]) && !IsTrimWhitespace(k[|k| - 1])))
  }

  /** `{{` starts at `i`. */
  predicate OpensAt(raw: string, i: nat)
  {
    i + 1 < |raw| && raw[i] == '{' && raw[i + 1] == '{'
  }

  /** The literal text a single byte becomes: a brace is doubled. */
  function Escape(c: char): string
  {
    if c == '{' then "{{" else if c == '}' then "}}" else [c]
  }

  /** A byte escapes to itself, once or, for a brace, twice. */
  lemma EscapeSpec(c: char)
    ensures 1 <= |Escape(c)| <= 2 && Escape(c)[0] == c
    ensures |Escape(c)| == 2 <==> c == '{' || c == '}'
    ensures |Escape(c)| == 2 ==> Escape(c)[1] == c
  {
  }

  /** `Escape` applied to every byte of `s`. */
  function EscapeAll(s: string): (e: string)
    ensures |s| <= |e| <= 2 * |s|
  {
    if s == [] then []
    else
      EscapeSpec(s[|s| - 1]);
      EscapeAll(s[..|s| - 1]) + Escape(s[|s| - 1])
  }

  /** The index the whitespace-skipping loop stops at, starting from `i`. */
  function SkipWs(raw: string, i: nat): (j: nat)
    requires i <= |raw|
    ensures i <= j <= |raw|
    decreases |raw| - i
  {
    if i < |raw| && IsAsciiWhitespace(raw[i]) then SkipWs(raw, i + 1) else i
  }

  /** `SkipWs` passes over ASCII whitespace only and stops at the first byte
      that is not, or at the end. */
  lemma {:induction false} SkipWsStops(raw: string, i: nat)
    requires i <= |raw|
    ensures forall k :: i <= k < SkipWs(raw, i) ==> IsAsciiWhitespace(raw[k])
    ensures SkipWs(raw, i) == |raw| || !IsAsciiWhitespace(raw[SkipWs(raw, i)])
    decreases |raw| - i
  {
    if i < |raw| && IsAsciiWhitespace(raw[i]) {
      SkipWsStops(raw, i + 1);
    }
  }

  /** The index the key-reading loop stops at, starting from `i`. */
  function KeyEnd(raw: string, i: nat): (j: nat)
    requires i <= |raw|
    ensures i <= j <= |raw|
    decreases |raw| - i
  {
    if i < |raw| && raw[i] != '}' then KeyEnd(raw, i + 1) else i
  }

  /** `KeyEnd` stops at the first `}` at or after `i`, or at the end. */
  lemma {:induction false} KeyEndStops(raw: string, i: nat)
    requires i <= |raw|
    ensures forall k :: i <= k < KeyEnd(raw, i) ==> raw[k] != '}'
    ensures KeyEnd(raw, i) == |raw| || raw[KeyEnd(raw, i)] == '}'
    decreases |raw| - i
  {
    if i < |raw| && raw[i] != '}' {
      KeyEndStops(raw, i + 1);
    }
  }

  /** `s` without its leading trim-whitespace. */
  function TrimStart(s: string): (t: string)
    ensures |t| <= |s|
  {
    if s != [] && IsTrimWhitespace(s[0]) then TrimStart(s[1..]) else s
  }

  /** `TrimStart` drops a prefix of whitespace, and no more. */
  lemma {:induction false} TrimStartSpec(s: string)
    ensures TrimStart(s) == s[|s| - |TrimStart(s)|..]
    ensures forall k :: 0 <= k < |s| - |TrimStart(s)| ==> IsTrimWhitespace(s[k])
    ensures TrimStart(s) == [] || !IsTrimWhitespace(TrimStart(s)[0])
    decreases |s|
  {
    if s != [] && IsTrimWhitespace(s[0]) {
      TrimStartSpec(s[1..]);
    }
  }

  /** `s` without its trailing trim-whitespace. */
  function TrimEnd(s: string): (t: string)
    ensures |t| <= |s|
  {
    if s != [] && IsTrimWhitespace(s[|s| - 1]) then TrimEnd(s[..|s| - 1]) else s
  }

  /** `TrimEnd` drops a suffix of whitespace, and no more. */
  lemma {:induction false} TrimEndSpec(s: string)
    ensures TrimEnd(s) == s[..|TrimEnd(s)|]
    ensures forall k :: |TrimEnd(s)| <= k < |s| ==> IsTrimWhitespace(s[k])
    ensures TrimEnd(s) == [] || !IsTrimWhitespace(TrimEnd(s)[|TrimEnd(s)| - 1])
    decreases |s|
  {
    if s != [] && IsTrimWhitespace(s[|s| - 1]) {
      TrimEndSpec(s[..|s| - 1]);
    }
  }

  /** `str::trim`. */
  function Trim(s: string): (t: string)
    ensures |t| <= |s|
  {
    TrimEnd(TrimStart(s))
  }

  /** `Trim` keeps a contiguous part of `s` with no whitespace at either end,
      so it adds no `}`. */
  lemma TrimSpec(s: string)
    ensures Trim(s) == [] || (!IsTrimWhitespace(Trim(s)[0]) && !IsTrimWhitespace(Trim(s)[|Trim(s)| - 1]))
    ensures (forall j :: 0 <= j < |s| ==> s[j] != '}') ==> forall j :: 0 <= j < |Trim(s)| ==> Trim(s)[j] != '}'
  {
    var u := TrimStart(s);
    TrimStartSpec(s);
    TrimEndSpec(u);
    if Trim(s) != [] {
      assert Trim(s)[0] == u[0];
    }
    if forall j :: 0 <= j < |s| ==> s[j] != '}' {
      forall j | 0 <= j < |Trim(s)| ensures Trim(s)[j] != '}' {
        assert Trim(s)[j] == u[j] == s[|s| - |u| + j];
      }
    }
  }

  /** One iteration of the scan loop at index `i`: the piece it reads and the
      index it continues from.  A placeholder consumes `{{`, the key and two
      more bytes, whatever they are, so the index may pass the end by two. */
  function Step(raw: string, i: nat): (r: (Piece, nat))
    requires i < |raw|
    ensures r.0.Text? <==> !OpensAt(raw, i)
    ensures r.0.Text? ==> r.0.c == raw[i] && r.1 == i + 1
    ensures r.0.Hole? ==> i + 4 <= r.1 <= |raw| + 2
  {
    if OpensAt(raw, i) then
      var start := SkipWs(raw, i + 2);
      var end := KeyEnd(raw, start);
      (Hole(Trim(raw[start..end])), end + 2)
    else
      (Text(raw[i]), i + 1)
  }

  /** The pieces read by the scan from index `i` to the end. */
  function PiecesFrom(raw: string, i: nat): seq<Piece>
    decreases |raw| - i
  {
    if i >= |raw| then []
    else
      var r := Step(raw, i);
      [r.0] + PiecesFrom(raw, r.1)
  }

  /** The scan reads at least one byte per piece, and reads a piece
      whenever bytes remain. */
  lemma {:induction false} PiecesFromLength(raw: string, i: nat)
    ensures PiecesFrom(raw, i) == [] <==> i >= |raw|
    ensures |PiecesFrom(raw, i)| <= if i < |raw| then |raw| - i else 0
    decreases |raw| - i
  {
    if i < |raw| {
      PiecesFromLength(raw, Step(raw, i).1);
    }
  }

  /** The pieces of the whole template. */
  function Pieces(raw: string): (ps: seq<Piece>)
    ensures ps == [] <==> raw == []
    ensures |ps| <= |raw|
  {
    PiecesFromLength(raw, 0);
    PiecesFrom(raw, 0)
  }

  /** The keys of the placeholders among `ps`, in order. */
  function KeysOf(ps: seq<Piece>): (keys: seq<string>)
    ensures |keys| <= |ps|
  {
    if ps == [] then []
    else
      var keys := KeysOf(ps[..|ps| - 1]);
      match ps[|ps| - 1]
      case Text(_) => keys
      case Hole(k) => keys + [k]
  }

  /** `runs` with `e` appended to its last string. */
  function Extend(runs: seq<string>, e: string): seq<string>
    requires runs != []
  {
    runs[..|runs| - 1] + [runs[|runs| - 1] + e]
  }

  /** The escaped literal text of every gap of `ps`: before the first
      placeholder, between two consecutive ones and after the last. */
  function Runs(ps: seq<Piece>): (runs: seq<string>)
    ensures |runs| == |KeysOf(ps)| + 1
  {
    if ps == [] then [""]
    else
      var runs := Runs(ps[..|ps| - 1]);
      match ps[|ps| - 1]
      case Text(c) => Extend(runs, Escape(c))
      case Hole(_) => runs + [""]
  }

  /** `runs` without its empty strings, order kept. */
  function NonEmpty(runs: seq<string>): (lits: seq<string>)
    ensures |lits| <= |runs|
  {
    if runs == [] then []
    else
      var last := runs[|runs| - 1];
      NonEmpty(runs[..|runs| - 1]) + (if last == "" then [] else [last])
  }

  /** What `parse_template` returns for `raw`. */
  function Scan(raw: string): (r: Parsed)
    ensures |r.keys| <= |raw|
    ensures |r.lits| <= |r.keys| + 1
  {
    var ps := Pieces(raw);
    var lits := NonEmpty(Runs(ps));
    Parsed(lits, KeysOf(ps), SumLens(lits))
  }

  /** The loop invariant of `ParseTemplate` at index `i`: `done` are the
      pieces read so far, `closed` the gaps they have closed and `buf` the
      open one; `keys` and `lits` are what the source has pushed so far. */
  ghost predicate ScanInv(raw: string, i: nat, done: seq<Piece>, closed: seq<string>, buf: string,
                          keys: seq<string>, lits: seq<string>)
  {
    && i <= |raw| + 2
    && Pieces(raw) == done + PiecesFrom(raw, i)
    && Runs(done) == closed + [buf] && keys == KeysOf(done)
    && lits == NonEmpty(closed)
  }

  /** `parse_template`: one left-to-right pass with index `i` and literal buffer `buf`. */
  method ParseTemplate(raw: string) returns (lits: seq<string>, keys: seq<string>, litLen: nat)
    ensures Parsed(lits, keys, litLen) == Scan(raw)
  {
    lits, keys := [], [];
    var buf := "";
    // the pieces read so far, and the gaps they have closed
    ghost var done: seq<Piece> := [];
    ghost var closed: seq<string> := [];
    var i := 0;
    while i < |raw|
      invariant ScanInv(raw, i, done, closed, buf, keys, lits)
      decreases |raw| - i
    {
      if raw[i] == '{' && i + 1 < |raw| && raw[i + 1] == '{' {
        ghost var lits0 := lits;
        // flush the literal
        if buf != "" {
          lits := lits + [buf];
        }
        var key, next := ReadPlaceholder(raw, i);
        HoleInv(raw, i, done, closed, buf, keys, lits0, key, next);
        keys := keys + [key];
        done, closed, buf := done + [Hole(key)], closed + [buf], "";
        i := next;
      } else {
        // a single brace is written doubled
        ghost var buf0 := buf;
        if raw[i] == '{' {
          buf := buf + "{{";
        } else if raw[i] == '}' {
          buf := buf + "}}";
        } else {
          buf := buf + [raw[i]];
        }
        TextInv(raw, i, done, closed, buf0, keys, lits);
        done := done + [Text(raw[i])];
        i := i + 1;
      }
    }
    EndInv(raw, i, done, closed, buf, keys, lits);
    if buf != "" {
      lits := lits + [buf];
    }
    litLen := SumLens(lits);
  }

  /** The placeholder branch keeps the loop invariant. */
  lemma HoleInv(raw: string, i: nat, done: seq<Piece>, closed: seq<string>, buf: string,
                keys: seq<string>, lits: seq<string>, key: string, next: nat)
    requires i < |raw| && Step(raw, i) == (Hole(key), next)
    requires ScanInv(raw, i, done, closed, buf, keys, lits)
    ensures ScanInv(raw, next, done + [Hole(key)], closed + [buf], "", keys + [key],
                    lits + (if buf != "" then [buf] else []))
  {
    ScanAdvance(raw, done, i, Hole(key), next);
    RunsHole(done, key);
    NonEmptyPush(closed, buf);
  }

  /** The literal-byte branch keeps the loop invariant. */
  lemma TextInv(raw: string, i: nat, done: seq<Piece>, closed: seq<string>, buf: string,
                keys: seq<string>, lits: seq<string>)
    requires i < |raw| && !OpensAt(raw, i)
    requires ScanInv(raw, i, done, closed, buf, keys, lits)
    ensures ScanInv(raw, i + 1, done + [Text(raw[i])], closed, buf + Escape(raw[i]), keys, lits)
  {
    ScanAdvance(raw, done, i, Text(raw[i]), i + 1);
    RunsTextAfter(done, raw[i], closed, buf);
  }

  /** When the loop ends, flushing the buffer completes the scan. */
  lemma EndInv(raw: string, i: nat, done: seq<Piece>, closed: seq<string>, buf: string,
               keys: seq<string>, lits: seq<string>)
    requires i >= |raw| && ScanInv(raw, i, done, closed, buf, keys, lits)
    ensures Scan(raw).keys == keys
    ensures Scan(raw).lits == lits + (if buf != "" then [buf] else [])
  {
    assert done == Pieces(raw) by {
      assert PiecesFrom(raw, i) == [];
    }
    NonEmptyPush(closed, buf);
  }

  /** The placeholder branch of the scan loop at an opening `{{`: skip the
      ASCII whitespace, read up to the next `}` or the end, trim the key and
      skip two more bytes. */
  method ReadPlaceholder(raw: string, at: nat) returns (key: string, next: nat)
    requires OpensAt(raw, at)
    ensures Step(raw, at) == (Hole(key), next)
  {
    var i := at + 2;
    while i < |raw| && IsAsciiWhitespace(raw[i])
      invariant at + 2 <= i <= |raw|
      invariant SkipWs(raw, i) == SkipWs(raw, at + 2)
    {
      i := i + 1;
    }
    var start := i;
    assert start == SkipWs(raw, at + 2);
    while i < |raw| && raw[i] != '}'
      invariant start <= i <= |raw|
      invariant KeyEnd(raw, i) == KeyEnd(raw, start)
    {
      i := i + 1;
    }
    assert i == KeyEnd(raw, start);
    key := Trim(raw[start..i]);
    next := i + 2;  // skip "}}"
    assert Step(raw, at).0 == Hole(key) && Step(raw, at).1 == next;
  }

  /** Unfolds the scan at a literal byte. */
  lemma PiecesFromText1(raw: string, i: nat)
    requires i < |raw| && !OpensAt(raw, i)
    ensures PiecesFrom(raw, i) == [Text(raw[i])] + PiecesFrom(raw, i + 1)
  {
    assert Step(raw, i) == (Text(raw[i]), i + 1);
  }

  /** One iteration of the scan moves one piece from what is left to what is done. */
  lemma ScanAdvance(raw: string, done: seq<Piece>, i: nat, p: Piece, j: nat)
    requires i < |raw| && Step(raw, i) == (p, j)
    requires Pieces(raw) == done + PiecesFrom(raw, i)
    ensures Pieces(raw) == (done + [p]) + PiecesFrom(raw, j)
  {
    assert PiecesFrom(raw, i) == [p] + PiecesFrom(raw, j);
    assert done + ([p] + PiecesFrom(raw, j)) == (done + [p]) + PiecesFrom(raw, j);
  }

  /** A literal byte extends the last gap and adds no key. */
  lemma RunsText(ps: seq<Piece>, c: char)
    ensures Runs(ps + [Text(c)]) == Extend(Runs(ps), Escape(c))
    ensures KeysOf(ps + [Text(c)]) == KeysOf(ps)
  {
    assert (ps + [Text(c)])[..|ps|] == ps;
  }

  /** A placeholder opens a new, empty gap and adds its key. */
  lemma RunsHole(ps: seq<Piece>, k: string)
    ensures Runs(ps + [Hole(k)]) == Runs(ps) + [""]
    ensures KeysOf(ps + [Hole(k)]) == KeysOf(ps) + [k]
  {
    assert (ps + [Hole(k)])[..|ps|] == ps;
  }

  /** `RunsText`, with the gaps split into the closed ones and the last. */
  lemma RunsTextAfter(ps: seq<Piece>, c: char, closed: seq<string>, last: string)
    requires Runs(ps) == closed + [last]
    ensures Runs(ps + [Text(c)]) == closed + [last + Escape(c)]
    ensures KeysOf(ps + [Text(c)]) == KeysOf(ps)
  {
    RunsText(ps, c);
    assert (closed + [last])[..|closed|] == closed;
  }

  /** Unfolds `NonEmpty` at an appended string. */
  lemma NonEmptyPush(closed: seq<string>, s: string)
    ensures NonEmpty(closed + [s]) == NonEmpty(closed) + (if s == "" then [] else [s])
  {
    assert (closed + [s])[..|closed|] == closed;
  }

  /** Unfolds `NonEmpty` at the last string. */
  lemma NonEmptySnoc(runs: seq<string>)
    requires runs != []
    ensures NonEmpty(runs) == NonEmpty(runs[..|runs| - 1]) + (if runs[|runs| - 1] == "" then [] else [runs[|runs| - 1]])
  {
  }

  /** The key a placeholder yields has no `}` and nothing to trim at either end. */
  lemma StepKey(raw: string, i: nat)
    requires i < |raw|
    ensures Step(raw, i).0.Hole? ==> IsKey(Step(raw, i).0.key)
  {
    if OpensAt(raw, i) {
      var start := SkipWs(raw, i + 2);
      var end := KeyEnd(raw, start);
      var body := raw[start..end];
      KeyEndStops(raw, start);
      assert forall j :: 0 <= j < |body| ==> body[j] != '}';
      TrimSpec(body);
    }
  }

  /** Every piece is a literal byte or a placeholder with a valid key. */
  predicate ValidPieces(ps: seq<Piece>)
  {
    forall j :: 0 <= j < |ps| ==> ps[j].Hole? ==> IsKey(ps[j].key)
  }

  /** Every key the scan reads from `i` on is a valid key. */
  lemma {:induction false} PiecesKeys(raw: string, i: nat)
    ensures ValidPieces(PiecesFrom(raw, i))
    decreases |raw| - i
  {
    if i < |raw| {
      var r := Step(raw, i);
      StepKey(raw, i);
      PiecesKeys(raw, r.1);
      assert PiecesFrom(raw, i) == [r.0] + PiecesFrom(raw, r.1);
    }
  }

  /** The keys of valid pieces are valid keys. */
  lemma {:induction false} KeysOfValid(ps: seq<Piece>)
    requires ValidPieces(ps)
    ensures forall j :: 0 <= j < |KeysOf(ps)| ==> IsKey(KeysOf(ps)[j])
    decreases |ps|
  {
    if ps != [] {
      KeysOfValid(ps[..|ps| - 1]);
    }
  }

  /** `NonEmpty` keeps exactly the non-empty strings: the result has none
      empty, and it is as long as `runs` exactly when `runs` has none empty,
      in which case it is `runs` itself. */
  lemma {:induction false} NonEmptyShape(runs: seq<string>)
    ensures forall j :: 0 <= j < |NonEmpty(runs)| ==> NonEmpty(runs)[j] != ""
    ensures |NonEmpty(runs)| == |runs| <==> forall j :: 0 <= j < |runs| ==> runs[j] != ""
    ensures |NonEmpty(runs)| == |runs| ==> NonEmpty(runs) == runs
    decreases |runs|
  {
    if runs != [] {
      var init := runs[..|runs| - 1];
      NonEmptyShape(init);
      assert init + [runs[|runs| - 1]] == runs;
    }
  }

  /** The shape of the scanner's result: every literal part is non-empty,
      every key is trimmed and free of `}`, there is at most one more literal
      part than keys, exactly one more when no gap between placeholders is
      empty, and `litLen` is the total length of the literal parts. */
  lemma ScanShape(raw: string)
    ensures var p := Scan(raw);
      && (forall j :: 0 <= j < |p.lits| ==> p.lits[j] != "")
      && (forall j :: 0 <= j < |p.keys| ==> IsKey(p.keys[j]))
      && |p.lits| <= |p.keys| + 1
      && (|p.lits| == |p.keys| + 1 <==> forall j :: 0 <= j < |Runs(Pieces(raw))| ==> Runs(Pieces(raw))[j] != "")
      && p.litLen == SumLens(p.lits)
  {
    var ps := Pieces(raw);
    var runs := Runs(ps);
    var keys := KeysOf(ps);
    assert Scan(raw) == Parsed(NonEmpty(runs), keys, SumLens(NonEmpty(runs)));
    assert |runs| == |keys| + 1;
    PiecesKeys(raw, 0);
    KeysOfValid(ps);
    NonEmptyShape(runs);
    assert Runs(Pieces(raw)) == runs;
  }
}

# html_format — a Dafny model of the template macro

`html_format!("...{{key}}...", key = expr, ...)` is a procedural macro
(`src/lib.rs`). At compile time it scans the template string, splits it
into literal parts and placeholder keys, looks every key up among the
`name = value` arguments, and generates a block that builds a `String`
with a precomputed capacity by pushing the literal parts and the rendered
values in turn.

This project models that pipeline as pure Dafny, with the source's two
loops-over-state kept as methods:

- `Scanner` (`scanner.dfy`) is `parse_template`. It gives the scan three
  layers of specification:
  - `Step` and `PiecesFrom` read the template byte by byte into pieces, each
    either one literal byte or one placeholder;
  - `Runs` groups the pieces into the gaps between placeholders;
  - `NonEmpty` drops the empty gaps, as the source never pushes an empty
    literal part.

  The method `ParseTemplate` transcribes the source's `while` loop, with its
  `buf`, flush and brace-doubling, and is proved to compute `Scan`.
  `ReadPlaceholder` is the two inner loops that skip whitespace and read the
  key.
- `ScannerFacts` (`scanner_facts.dfy`) holds what the scan does with plain
  text, unterminated and well-formed placeholders, and `lit_len`.
- `Resolution` (`resolution.dfy`) covers the `val_map` insertion loop and the
  key-lookup loop. `BuildValMap` and `ResolveKeys` are proved against
  `BindingMap` and `Resolve`.
- `Assembly` (`assembly.dfy`) is the generated code read as a string
  function: the `take(n).zip(vals)` interleave, the last literal part and the
  capacity `lit_len + 16 * n`.
- `Macro` (`format.dfy`):
  - `Expand` is the whole macro, and `HtmlFormat` is its body in source order;
  - `FormatIntended` is the corrected expansion, in which every gap, empty or
    not, is a literal part. It is proved equal to direct substitution
    (`Render`), and `Expand` is proved to agree with it whenever no gap is
    empty.

Modelling conventions:

- A template is a `string` whose characters stand for the bytes of
  `raw.as_bytes()`. The two coincide for ASCII templates.
- A bound expression is represented by the string it renders to through
  `ToString`. The arguments are a sequence of `Binding(name, value)`.
- The compile error `missing value for key` becomes `Err(MissingKey(k))`.
- The panic of `lit_tokens.last().unwrap()` becomes `Err(NoLiteralParts)`.
- The expansion is the text the generated block evaluates to, together with
  the capacity it was created with.
- As in the source, a single `{` or `}` of the template reaches the output
  doubled. The literal parts are written with `push_str`, not through a
  formatting macro.

## Model

| member | source | states |
|---|---|---|
| Scanner.Scan | src/lib.rs:32-67 | what `parse_template` returns (the non-empty gaps, the keys, their total length); it has no more keys than template bytes and at most one more literal part than keys |
| Scanner.PiecesFrom | src/lib.rs:39-60 | the scan loop from index `i` read as pieces; `PiecesFromLength` bounds how many it reads |
| Scanner.PiecesFromLength | src/lib.rs:39-60 | the loop reads a piece exactly when `i` is inside the template, and no more pieces than bytes remain |
| Scanner.Pieces | src/lib.rs:39-60 | the pieces of the whole template: none exactly for the empty template, never more than its bytes |
| Scanner.ParseTemplate | src/lib.rs:32-67 | the loop returns exactly `Scan(raw)`: the non-empty escaped gaps, the trimmed keys in order, and the sum of the gap lengths |
| Scanner.ReadPlaceholder | src/lib.rs:45-50 | after a `{{` the whitespace-skipping and key-reading loops yield the trimmed key and the index two past the first `}` (or two past the end), as `Step` says |
| Scanner.Step | src/lib.rs:40-59 | one iteration reads a literal byte (advancing by one) exactly when no `{{` starts there; a placeholder consumes at least four bytes and may run two past the end |
| Scanner.SkipWs | src/lib.rs:46 | the index the whitespace loop stops at lies between its start and the end; `SkipWsStops` characterises it |
| Scanner.SkipWsStops | src/lib.rs:46 | the whitespace skip passes only ASCII whitespace (not the vertical tab) and stops at the end or at the first other byte |
| Scanner.KeyEnd | src/lib.rs:48 | the index the key loop stops at lies between its start and the end; `KeyEndStops` characterises it |
| Scanner.KeyEndStops | src/lib.rs:48 | the key loop passes no `}` and stops at the end or at the first `}` |
| Scanner.TrimStart | src/lib.rs:49 | the front half of `str::trim`: never longer than its input; `TrimStartSpec` characterises it |
| Scanner.TrimStartSpec | src/lib.rs:49 | trimming the front removes a prefix of whitespace and leaves an empty string or one starting with non-whitespace |
| Scanner.TrimEnd | src/lib.rs:49 | the back half of `str::trim`: never longer than its input; `TrimEndSpec` characterises it |
| Scanner.TrimEndSpec | src/lib.rs:49 | trimming the back removes a suffix of whitespace and leaves an empty string or one ending with non-whitespace |
| Scanner.Trim | src/lib.rs:49 | `str::trim` on the key: never longer than its input; `TrimSpec` characterises it |
| Scanner.TrimSpec | src/lib.rs:49 | the trimmed key starts and ends with non-whitespace, and trimming a `}`-free key leaves it `}`-free |
| Scanner.Escape | src/lib.rs:53-57 | the text one byte adds to the buffer; `EscapeSpec` characterises it |
| Scanner.EscapeSpec | src/lib.rs:53-57 | an escape starts with its byte and is one or two bytes long; it is two bytes, the byte twice, exactly for `{` and `}` |
| Scanner.EscapeAll | src/lib.rs:53-57 | escaping a stretch of bytes at least keeps and at most doubles its length, so only the empty stretch escapes to nothing |
| Scanner.StepKey | src/lib.rs:46-49 | every key a placeholder yields is a valid key: no `}`, nothing to trim at either end |
| Scanner.PiecesKeys | src/lib.rs:39-60 | every key the scan reads is a valid key |
| Scanner.Runs | src/lib.rs:42-44 | there is always one more gap than placeholders |
| Scanner.RunsText | src/lib.rs:52-58 | a literal byte extends the open gap by its escaped text and adds no key |
| Scanner.RunsHole | src/lib.rs:41-49 | a placeholder closes the open gap, opens an empty one and appends its key |
| Scanner.NonEmpty | src/lib.rs:42-44 | flushing only non-empty buffers keeps no more parts than there are gaps; `NonEmptyShape` characterises it |
| Scanner.NonEmptyShape | src/lib.rs:42-44 | the flushed literal parts are never empty, and they are all the gaps exactly when no gap is empty |
| Scanner.ScanShape | src/lib.rs:39-66 | literal parts are non-empty, keys are valid, there are at most one more literal part than keys (exactly one more iff no gap is empty), and `lit_len` is their total length |
| ScannerFacts.PiecesFromText | src/lib.rs:51-58 | where no `{{` starts, the scan reads every byte as a literal byte |
| ScannerFacts.RunsOfText | src/lib.rs:52-58 | a stretch of literal bytes extends the open gap by its escaped text and adds no key |
| ScannerFacts.EscapeVerbatim | src/lib.rs:56 | text without braces is copied verbatim into the literal part |
| ScannerFacts.ScanPlain | src/lib.rs:39-66 | a template without `{{` has no key and, unless empty, one literal part: itself with every brace doubled |
| ScannerFacts.UnterminatedPlaceholder | src/lib.rs:45-50 | a `{{` with no `}` after it takes the rest of the template, trimmed, as its key and ends the scan |
| ScannerFacts.KeyEndAt | src/lib.rs:48 | the key loop stops at the first `}` after its start |
| ScannerFacts.StepPlaceholder | src/lib.rs:45-50 | `{{key}` with a valid non-empty key yields that key and skips the byte after `}` whatever it is |
| ScannerFacts.PiecesAfterPlaceholder | src/lib.rs:45-50 | a well-formed `{{key}}` is one placeholder piece and the scan resumes right after it |
| ScannerFacts.SecondCloserUnchecked | src/lib.rs:50 | `{{key}` followed by any single byte scans to the placeholder alone: the byte is lost |
| ScannerFacts.SumLensNonEmpty | src/lib.rs:61-65 | not pushing empty parts does not change the total literal length |
| ScannerFacts.SumLensRuns | src/lib.rs:52-58 | the gap lengths sum to the number of escaped literal bytes |
| ScannerFacts.ScanLitLen | src/lib.rs:65 | `lit_len` counts every literal byte once, every brace twice and placeholders not at all |
| Strings.SumLens | src/lib.rs:65 | `lit_parts.iter().map(len).sum()`; `SumLensAppend` and `SumLensBounded` give its additivity and its bound |
| Strings.SumLensAppend | src/lib.rs:65 | the total length of two lists of parts is the sum of their totals |
| Strings.SumLensBounded | src/lib.rs:65 | parts of at most `b` bytes each total at most `b` times their number |
| Resolution.BindingMap | src/lib.rs:76-79 | the map has no more entries than there are bindings |
| Resolution.BindingMapDomain | src/lib.rs:76-79 | a name is in `val_map` exactly when some binding names it |
| Resolution.LastBindingWins | src/lib.rs:77-78 | with duplicate names, the value of the last binding of a name is the one stored |
| Resolution.BuildValMap | src/lib.rs:76-79 | the insertion loop builds `BindingMap(pairs)` |
| Resolution.Resolve | src/lib.rs:81-94 | a success has one value per key; a failure is a missing-key error |
| Resolution.ResolveSpec | src/lib.rs:81-94 | lookup succeeds iff every key is bound; each value is the bound value of its key, in template order; a failure names the first unbound key |
| Resolution.ResolveErrPrefix | src/lib.rs:85-92 | once a key is missing, the keys after it are not looked at |
| Resolution.ResolveKeys | src/lib.rs:81-94 | the lookup loop with its early return computes `Resolve(keys, m)` |
| Assembly.Interleave | src/lib.rs:101-107 | the interleaved pairs are exactly as long as all their literal parts and values together |
| Assembly.Capacity | src/lib.rs:110 | the capacity is at least `lit_len`, and equals it exactly when there are no values |
| Assembly.Assemble | src/lib.rs:101-117 | assembly fails exactly when there is no literal part, and then with the `unwrap` failure |
| Assembly.AssembleAligned | src/lib.rs:101-115 | with one more literal part than values every part and value is written once, in order, and the length is `lit_len` plus the value lengths |
| Assembly.AssembleShortLits | src/lib.rs:102-115 | with no more literal parts than values, the extra values are dropped and the last literal part is written twice |
| Assembly.CapacityCoversShortValues | src/lib.rs:110-113 | when aligned and every value is at most 16 bytes, the output fits in the reserved capacity |
| Macro.Expand | src/lib.rs:70-118 | a successful expansion reserves at least `lit_len` bytes |
| Macro.HtmlFormat | src/lib.rs:70-118 | the macro body (scan, map, lookup, assembly, capacity) computes `Expand` |
| Macro.ExpandErrors | src/lib.rs:81-108 | the macro reports a missing key iff some template key is unbound, and panics on `unwrap` iff all keys are bound and no literal part was pushed |
| Macro.ExpandPlain | src/lib.rs:39-117 | a template without `{{` needs no binding and expands to itself with braces doubled (brace-free text verbatim), with capacity its own length; the empty template panics |
| Macro.Render | src/lib.rs:101-115 | direct substitution is at least as long as the template's escaped literal bytes |
| Macro.Fill | src/lib.rs:101-115 | the gaps with the values written between them, `gap0 + val0 + gap1 + ... + gapn`, is as long as all gaps and values together |
| Macro.FormatIntended | src/lib.rs:96-117 | the corrected expansion fails only with a missing key |
| Macro.RenderRuns | src/lib.rs:101-115 | filling every gap, empty ones included, with the values of the keys in order is direct substitution |
| Macro.IntendedIsSubstitution | src/lib.rs:96-117 | when every key is bound the corrected expansion succeeds and is the template with each placeholder replaced by its value |
| Macro.ExpandMatchesIntended | src/lib.rs:96-117 | the macro as written equals the corrected expansion, for all bindings, whenever no gap between placeholders is empty |
| Macro.PiecesOfTwoPlaceholders | src/lib.rs:39-60 | `{{a}}sep{{b}}` with a `{`-free separator scans to a placeholder, the separator's bytes and a placeholder |
| Macro.PiecesOfPlaceholder | src/lib.rs:45-50 | the template `{{a}}` scans to one placeholder |
| Macro.DroppedGapMisaligns | src/lib.rs:102 | for `{{a}}sep{{b}}` with `a = x, b = y`, the macro writes `sep + x + sep` while the corrected expansion writes `x + sep + y` |
| Macro.DashPieces | src/lib.rs:39-60 | `{{a}}-{{b}}` scans to the placeholder `a`, the byte `-` and the placeholder `b` |
| Macro.DashExample | src/lib.rs:102 | `{{a}}-{{b}}` with `a = X, b = Y` expands to `-X-` (capacity 33) where the intended expansion is `X-Y` |
| Macro.LoneExample | src/lib.rs:108 | `{{a}}` with `a = X` panics where the intended expansion is `X` (capacity 16) |
| Macro.PlaceholderOnlyPanics | src/lib.rs:108 | the template `{{a}}` with `a = x` makes the macro panic, while the corrected expansion is `x` with capacity 16 |

## Left out

- Argument parsing (`Input::parse`, src/lib.rs:10-30) is not modelled. The
  model starts from the template string and the list of bindings.
- Token streams are not modelled: `quote!`, `LitStr` creation and spans,
  `syn::Error` and `to_compile_error` (src/lib.rs:86-91, 96-99, 112-118). The
  generated code is modelled by the string it evaluates to, and the compile
  error by `Err(MissingKey(k))`.
- The model does not run `ToString::to_string` on the bound expressions
  (src/lib.rs:105), since those are arbitrary Rust code. Each value is taken
  as already rendered.
- `HashMap` internals are not modelled: hashing, iteration order and
  reallocation. `val_map` is a Dafny `map`.
- Multi-byte UTF-8 is not modelled. Characters stand for bytes, so the
  following are absent:
  - `str::trim` removing non-ASCII Unicode whitespace;
  - `i += 2` (src/lib.rs:50) landing inside a multi-byte character, whose
    remaining bytes then go through `bytes[i] as char` (src/lib.rs:56),
    which re-encodes each non-ASCII byte as a character of its own.
- `usize` overflow is not modelled, in `lit_len + 16 * n` or in `i += 2`.
  Integers are unbounded.
- Only the requested capacity of `String::with_capacity` is modelled, not
  allocator behaviour or growth.
- The intended layout has one literal part per gap between placeholders,
  `|keys| + 1` in all, empty ones included. The code pushes only non-empty
  parts (src/lib.rs:42-44, 61-63). `Expand` follows the code. The
  difference is recorded under Findings, and `FormatIntended` models the
  intended layout.

## Findings

| source | as written | input that shows it | evidently intended | confidence | as-written member | corrected member |
|---|---|---|---|---|---|---|
| src/lib.rs:102 | empty literal parts are never pushed (lines 42-44, 61-63), so the `take(n).zip(vals)` pairing shifts every value after an empty gap onto the wrong literal part | `{{a}}-{{b}}` with `a = "X"`, `b = "Y"` expands to `-X-` (`Macro.DashExample`) | `X-Y`: the j-th value follows the j-th gap | not executed | Macro.DroppedGapMisaligns | Macro.FormatIntended |
| src/lib.rs:108 | a template made only of placeholders pushes no literal part, so `lit_tokens.last().unwrap()` panics during expansion | `{{a}}` with `a = "X"` (`Macro.LoneExample`) | `X` | not executed | Macro.PlaceholderOnlyPanics | Macro.FormatIntended |

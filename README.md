# Regex filter: a verified model

This project models the scanning core of the goose secret scanner in Dafny. The core checks one rule (a regular expression with a confidence and a severity) against every line of one scan target. A line whose first match is non-empty, and which the reflection filter does not classify as a mere reflection, yields one `Finding`. Each finding is stamped with the location `"<path> : <zero-based line index>"` and sent on a results channel.

Three modules:

- `RegexFilter` (`regexfilter.dfy`) holds the pieces of `regexfilter.go`:
  - the `Finding` record and its zero-value sentinel `NoFinding`;
  - `IsEmpty`;
  - the rule evaluation, split in two. `EvaluateRule` is the compile-or-panic step. `MatchLine` is what happens once the pattern has compiled;
  - the scan loop `ScanFile`. It is a method whose loop appends to the sequence `sent`, which stands for the channel. The loop is proved against the specification function `Emissions`, and lemmas characterise that function through `Hits`, the increasing sequence of matching line indices.
- `LineScanner` (`linescanner.dfy`) is the line splitting that the loop relies on, as Go's `bufio.Scanner` does it with `ScanLines`:
  - lines end at `'\n'`;
  - one `'\r'` before a line's end is dropped;
  - the final line needs no terminator;
  - no empty line is invented after a final `'\n'`.
- `Decimal` (`decimal.dfy`) is how `fmt` prints the line index with `%v`.

The regular-expression library and the reflection filter are not defined here. They are the fields of the `Libraries` value passed to every operation:
- `Compiles`: whether `regexp.Compile` accepts a pattern;
- `FindString`: the first match, `""` when there is none;
- `IsReflected`: the reflection filter's verdict.

The one guarantee assumed of `FindString` is that its result is a piece of the line (`FindsSubstrings`). Only `EmittedMatchInLine` uses it.

A pattern that fails to compile is sometimes described as giving the empty finding. The code does not do that: it panics (regexfilter.go lines 57-60), and the model follows the code. It returns `Panic`, a result distinct from the empty finding, and `ScanFile` then ends with status `Panicked`. The pattern is compiled again for each line, so an invalid pattern panics on the first line. It does not panic at all on a target with no lines.

## Model

| member | source | states |
|---|---|---|
| RegexFilter.IsEmpty | internal/pkg/regexfilter/regexfilter.go:26-29 | A finding is empty exactly when it equals the zero value `Finding{}` (all strings empty, confidence and severity zero). |
| RegexFilter.MatchLine | internal/pkg/regexfilter/regexfilter.go:61-70 | The result is empty exactly when the first match is `""` or the reflection filter flags it, so suppression is total. Otherwise the result is not empty: it carries the non-empty match, the location `"NOTSET"`, and the rule's text, confidence and severity. |
| RegexFilter.EvaluateRule | internal/pkg/regexfilter/regexfilter.go:55-71 | It panics exactly when the pattern does not compile, naming that pattern, and this is distinct from the empty finding. Otherwise it gives `MatchLine`'s finding. |
| RegexFilter.PanicIndependentOfLine | internal/pkg/regexfilter/regexfilter.go:57-60 | Whether evaluation panics does not depend on the line, so an invalid pattern never yields a finding on any line. |
| RegexFilter.Locate | internal/pkg/regexfilter/regexfilter.go:48 | The stamped location starts with the target path followed by `" : "` and continues with at least one more character (the index). |
| RegexFilter.LocateInjective | internal/pkg/regexfilter/regexfilter.go:48 | Two line indices of one target give the same location exactly when they are equal. |
| RegexFilter.Hits | internal/pkg/regexfilter/regexfilter.go:45-52 | There are at most as many matching-line indices as lines, and each names an existing line. |
| RegexFilter.Emissions | internal/pkg/regexfilter/regexfilter.go:45-52 | A completed scan sends exactly one finding per matching line, so the count of findings equals the number of matching lines. |
| RegexFilter.ScanFile | internal/pkg/regexfilter/regexfilter.go:37-52 | A load failure gives a fatal status. A non-compiling pattern on a target with at least one line gives a panic. In both cases nothing is sent. Otherwise the scan completes, and the findings sent, in order, are exactly `Emissions` of the scanned lines. |
| RegexFilter.HitsExact | internal/pkg/regexfilter/regexfilter.go:45-47 | An index is a matching-line index exactly when the line exists and its evaluation gives a non-empty finding. |
| RegexFilter.HitsIncreasing | internal/pkg/regexfilter/regexfilter.go:44-51 | Matching-line indices are strictly increasing. So findings come out in line order, at most one per line. |
| RegexFilter.EmissionsAreStampedHits | internal/pkg/regexfilter/regexfilter.go:46-49 | The k-th finding sent is the evaluator's finding for the k-th matching line. Only its location is replaced, by that line's location. |
| RegexFilter.EmissionFields | internal/pkg/regexfilter/regexfilter.go:46-49 | Every finding sent is non-empty. Its match is the first match on its line, is non-empty and is not flagged as a reflection. Its location is `path : index` of that line, and its rule text, confidence and severity are the rule's. |
| RegexFilter.EmissionLocationsDistinct | internal/pkg/regexfilter/regexfilter.go:48-51 | Findings sent by one scan have pairwise distinct locations. |
| RegexFilter.EmittedMatchInLine | internal/pkg/regexfilter/regexfilter.go:61 | If `FindString` returns pieces of its line, every match sent is a piece of the line it was stamped with. |
| LineScanner.ScanLines | internal/pkg/regexfilter/regexfilter.go:43-45 | No line the scanner yields contains a `'\n'`. |
| LineScanner.ScanTerminated | internal/pkg/regexfilter/regexfilter.go:43-45 | Take lines with no `'\n'` and no trailing `'\r'`. Writing each out followed by `'\n'` and scanning the text gives the same lines back. |
| LineScanner.TerminatedScan | internal/pkg/regexfilter/regexfilter.go:43-45 | Take input without `'\r'`. Re-terminating the scanned lines gives the input back, with a final `'\n'` added only when the input lacked one. So no line is lost or invented. |
| LineScanner.ScanLinesCount | internal/pkg/regexfilter/regexfilter.go:43-45 | The number of lines is the number of `'\n'` characters, plus one for a final unterminated line. |
| Decimal.NatToString | internal/pkg/regexfilter/regexfilter.go:48 | The printed index is a non-empty string of decimal digits with no leading zero, and it is one digit long exactly when the index is below ten. |
| Decimal.ValueOfNatToString | internal/pkg/regexfilter/regexfilter.go:48 | Reading the printed index back as a decimal number gives the index. |
| Decimal.NatToStringOfValue | internal/pkg/regexfilter/regexfilter.go:48 | Printing the value of any canonical digit string gives that string back, so every canonical string is the text of exactly one index. |
| Decimal.NatToStringInjective | internal/pkg/regexfilter/regexfilter.go:48 | Two indices print the same text exactly when they are equal. |

## Left out

- Regular-expression compilation and matching (`regexp.Compile`, `FindString`) are not defined. They are the uninterpreted `Compiles` and `FindString` fields of `Libraries`, and leftmost-first match semantics are not modelled.
- `reflectorfilter.IsReflected` is not part of this model. It is the uninterpreted `IsReflected` field of `Libraries`.
- Loading the target (`loader.GetBytesFromScanTarget`) is I/O. Its result is the `LoadResult` parameter of `ScanFile`.
- `log.Fatal` ends the whole process. In the model it is the status `Fatal`, with nothing sent.
- A panic in `evaluateRule` also ends the whole process. In the model it is the status `Panicked`, with nothing sent.
- The goroutine, `defer waitgroup.Done()` and the blocking send on the shared channel are concurrency. They are not modelled. The channel is the output sequence `sent` of one scan, and the interleaving with other scans is left out.
- `bufio.Scanner`'s maximum token size is not modelled. A line longer than 64 KiB silently stops the loop, because the scanner's error is never checked. The model scans every line whatever its length.
- Go strings are byte sequences. The model works on `string` (sequences of `char`) and does not model UTF-8.
- `Finding.String()` is output formatting (float `%v`) and is not modelled.
- Confidence is a Go `float64`. The model uses `real`, so NaN and negative zero are not represented. The core only copies the value and compares it with zero.
- Severity is a Go `int`. Its width does not matter, because the core only copies it and compares it with zero.

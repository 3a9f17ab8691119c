/** The regex filter: evaluating one scan rule against one line, and scanning
    the lines of one target in order, emitting a finding, stamped with its
    location, for every line the rule matches and the reflection filter
    does not suppress. */
module RegexFilter {
  import Decimal
  import LineScanner

  /** One confirmed rule match on one line of one target. `Confidence` is a
      Go float64 that the core only copies and compares with zero. */
  datatype Finding = Finding(Match: string, Location: string, Rule: string, Confidence: real, Severity: int)

  /** The zero value `Finding{}`, the evaluator's "no finding" sentinel. */
  const NoFinding := Finding("", "", "", 0.0, 0)

  /** The location the evaluator leaves for the scan loop to overwrite. */
  const Unstamped := "NOTSET"

  /** A rule: the pattern text and the metadata a finding copies from it. */
  datatype ScanRule = ScanRule(Rule: string, Confidence: real, Severity: int)

  /** A scan target; only its path reaches a finding. */
  datatype ScanTarget = ScanTarget(Path: string)

  /** What the loader returned for a target. */
  datatype LoadResult = Loaded(input: string) | LoadFailed(err: string)

  /** The behaviour of the libraries the core calls but does not define:
      whether `regexp.Compile` accepts a pattern, the text `FindString`
      returns for a pattern and a line ("" when nothing matches), and the
      reflection filter's verdict on a matched text. */
  datatype Libraries = Libraries(
    Compiles: string -> bool,
    FindString: (string, string) -> string,
    IsReflected: string -> bool)

  ghost predicate IsSubstring(s: string, line: string) {
    exists i, j :: 0 <= i <= j <= |line| && line[i..j] == s
  }

  /** What the regexp library promises of `FindString`: the returned text is
      "" or a piece of the line. */
  ghost predicate FindsSubstrings(lib: Libraries) {
    forall pattern, line :: IsSubstring(lib.FindString(pattern, line), line)
  }

  /** Outcome of evaluating a rule: a finding (possibly the empty one), or
      the panic raised when the pattern does not compile. */
  datatype Outcome<T> = Ok(value: T) | Panic(pattern: string)

  /** How one scan ends: all lines processed, a panic on a pattern that does
      not compile, or the fatal exit taken when the target cannot be loaded. */
  datatype ScanStatus = Completed | Panicked(pattern: string) | Fatal(err: string)

  /** The sentinel test: a finding is empty exactly when it is the zero value. */
  function IsEmpty(f: Finding): (empty: bool)
    ensures empty <==> f == NoFinding
  {
    f.Match == "" && f.Confidence == 0.0 && f.Location == "" && f.Rule == "" && f.Severity == 0
  }

  /** Evaluation of a rule whose pattern compiled: the first match of the
      pattern in the line gives a finding, unless it is empty or the
      reflection filter suppresses it. The result is empty exactly in those
      two cases; otherwise it carries the match, the placeholder location
      and the rule's metadata. */
  function MatchLine(line: string, rule: ScanRule, lib: Libraries): (f: Finding)
    ensures IsEmpty(f) <==>
              lib.FindString(rule.Rule, line) == "" || lib.IsReflected(lib.FindString(rule.Rule, line))
    ensures !IsEmpty(f) ==>
              f.Match == lib.FindString(rule.Rule, line) && f.Match != "" && f.Location == Unstamped &&
              f.Rule == rule.Rule && f.Confidence == rule.Confidence && f.Severity == rule.Severity
  {
    var found := lib.FindString(rule.Rule, line);
    if found != "" && !lib.IsReflected(found) then
      Finding(found, Unstamped, rule.Rule, rule.Confidence, rule.Severity)
    else
      NoFinding
  }

  /** Evaluation of one rule on one line. A pattern that does not compile
      panics, which is distinct from the empty finding "no match";
      otherwise the result is that of MatchLine. */
  function EvaluateRule(line: string, rule: ScanRule, lib: Libraries): (r: Outcome<Finding>)
    ensures r.Panic? <==> !lib.Compiles(rule.Rule)
    ensures r.Panic? ==> r.pattern == rule.Rule
    ensures r.Ok? ==> r.value == MatchLine(line, rule, lib)
  {
    if !lib.Compiles(rule.Rule) then Panic(rule.Rule) else Ok(MatchLine(line, rule, lib))
  }

  /** The location stamped on a finding from line `index` of the target at `path`. */
  function Locate(path: string, index: nat): (loc: string)
    ensures |loc| > |path| + 3 && loc[..|path| + 3] == path + " : "
  {
    path + " : " + Decimal.NatToString(index)
  }

  /** Distinct lines of one target get distinct locations. */
  lemma LocateInjective(path: string, i: nat, j: nat)
    ensures Locate(path, i) == Locate(path, j) <==> i == j
  {
    var prefix := path + " : ";
    if Locate(path, i) == Locate(path, j) {
      assert Locate(path, i)[|prefix|..] == Decimal.NatToString(i);
      assert Locate(path, j)[|prefix|..] == Decimal.NatToString(j);
    }
    Decimal.NatToStringInjective(i, j);
  }

  /** The line yields a finding when the rule's pattern compiles. */
  predicate IsHit(line: string, rule: ScanRule, lib: Libraries) {
    !IsEmpty(MatchLine(line, rule, lib))
  }

  /** The indices, in scan order, of the lines that yield a finding. */
  function Hits(lines: seq<string>, rule: ScanRule, lib: Libraries): (hits: seq<nat>)
    ensures |hits| <= |lines|
    ensures forall k :: 0 <= k < |hits| ==> hits[k] < |lines|
  {
    if lines == [] then []
    else
      var n := |lines| - 1;
      Hits(lines[..n], rule, lib) + (if IsHit(lines[n], rule, lib) then [n] else [])
  }

  /** The findings a completed scan of `lines` sends, in the order it sends them. */
  function Emissions(path: string, lines: seq<string>, rule: ScanRule, lib: Libraries): (sent: seq<Finding>)
    ensures |sent| == |Hits(lines, rule, lib)|
  {
    if lines == [] then []
    else
      var n := |lines| - 1;
      var f := MatchLine(lines[n], rule, lib);
      Emissions(path, lines[..n], rule, lib) + (if IsEmpty(f) then [] else [f.(Location := Locate(path, n))])
  }

  /** Scans the lines of one target against one rule. The channel the
      findings are sent on is modelled by `sent`, the sequence of findings
      sent, in order. */
  method ScanFile(target: ScanTarget, load: LoadResult, rule: ScanRule, lib: Libraries)
    returns (sent: seq<Finding>, status: ScanStatus)
    ensures status.Fatal? <==> load.LoadFailed?
    ensures status.Fatal? ==> status.err == load.err
    ensures status.Panicked? <==>
              load.Loaded? && LineScanner.ScanLines(load.input) != [] && !lib.Compiles(rule.Rule)
    ensures status.Panicked? ==> status.pattern == rule.Rule
    ensures !status.Completed? ==> sent == []
    ensures status.Completed? ==> sent == Emissions(target.Path, LineScanner.ScanLines(load.input), rule, lib)
  {
    sent := [];
    if load.LoadFailed? {
      status := Fatal(load.err);
      return;
    }
    var lines := LineScanner.ScanLines(load.input);
    var index := 0;
    while index < |lines|
      invariant 0 <= index <= |lines|
      invariant index > 0 ==> lib.Compiles(rule.Rule)
      invariant sent == Emissions(target.Path, lines[..index], rule, lib)
    {
      var evaluation := EvaluateRule(lines[index], rule, lib);
      if evaluation.Panic? {
        status := Panicked(evaluation.pattern);
        return;
      }
      var finding := evaluation.value;
      if !IsEmpty(finding) {
        finding := finding.(Location := Locate(target.Path, index));
        sent := sent + [finding];
      }
      assert lines[..index + 1][..index] == lines[..index];
      index := index + 1;
    }
    assert lines[..index] == lines;
    status := Completed;
  }

  /** A line index is a hit index exactly when the line exists and yields a finding. */
  lemma {:induction false} HitsExact(lines: seq<string>, rule: ScanRule, lib: Libraries, i: nat)
    ensures i in Hits(lines, rule, lib) <==> i < |lines| && IsHit(lines[i], rule, lib)
  {
    if lines != [] {
      var n := |lines| - 1;
      HitsExact(lines[..n], rule, lib, i);
    }
  }

  /** Hit indices are strictly increasing, so findings come in line order
      and no line yields two of them. */
  lemma {:induction false} HitsIncreasing(lines: seq<string>, rule: ScanRule, lib: Libraries)
    ensures forall a, b :: 0 <= a < b < |Hits(lines, rule, lib)| ==>
              Hits(lines, rule, lib)[a] < Hits(lines, rule, lib)[b]
  {
    if lines != [] {
      var n := |lines| - 1;
      HitsIncreasing(lines[..n], rule, lib);
    }
  }

  /** The k-th finding sent is the evaluator's finding for the k-th hit line,
      with only its location replaced by that line's location. */
  lemma {:induction false} EmissionsAreStampedHits(path: string, lines: seq<string>, rule: ScanRule, lib: Libraries)
    ensures forall k :: 0 <= k < |Hits(lines, rule, lib)| ==>
              var i := Hits(lines, rule, lib)[k];
              Emissions(path, lines, rule, lib)[k] == MatchLine(lines[i], rule, lib).(Location := Locate(path, i))
  {
    if lines != [] {
      var n := |lines| - 1;
      EmissionsAreStampedHits(path, lines[..n], rule, lib);
    }
  }

  /** Every finding sent is populated: its match is the non-empty,
      unsuppressed first match on its line, its location names its line,
      and the rule's text and metadata are carried over unchanged. */
  lemma {:induction false} EmissionFields(path: string, lines: seq<string>, rule: ScanRule, lib: Libraries, k: nat)
    requires k < |Emissions(path, lines, rule, lib)|
    ensures var f, i := Emissions(path, lines, rule, lib)[k], Hits(lines, rule, lib)[k];
            !IsEmpty(f) && f.Match != "" &&
            f.Match == lib.FindString(rule.Rule, lines[i]) && !lib.IsReflected(f.Match) &&
            f.Location == Locate(path, i) &&
            f.Rule == rule.Rule && f.Confidence == rule.Confidence && f.Severity == rule.Severity
  {
    EmissionsAreStampedHits(path, lines, rule, lib);
    var i := Hits(lines, rule, lib)[k];
    HitsExact(lines, rule, lib, i);
  }

  /** Findings sent by one scan have pairwise distinct locations. */
  lemma EmissionLocationsDistinct(path: string, lines: seq<string>, rule: ScanRule, lib: Libraries, a: nat, b: nat)
    requires a < b < |Emissions(path, lines, rule, lib)|
    ensures Emissions(path, lines, rule, lib)[a].Location != Emissions(path, lines, rule, lib)[b].Location
  {
    EmissionsAreStampedHits(path, lines, rule, lib);
    HitsIncreasing(lines, rule, lib);
    var hits := Hits(lines, rule, lib);
    LocateInjective(path, hits[a], hits[b]);
  }

  /** Given the regexp library's guarantee, every match sent is a piece of
      the line it was found on. */
  lemma {:induction false} EmittedMatchInLine(path: string, lines: seq<string>, rule: ScanRule, lib: Libraries, k: nat)
    requires FindsSubstrings(lib)
    requires k < |Emissions(path, lines, rule, lib)|
    ensures IsSubstring(Emissions(path, lines, rule, lib)[k].Match, lines[Hits(lines, rule, lib)[k]])
  {
    EmissionFields(path, lines, rule, lib, k);
    var i := Hits(lines, rule, lib)[k];
    assert IsSubstring(lib.FindString(rule.Rule, lines[i]), lines[i]);
  }

  /** Whether a rule panics does not depend on the line: a pattern that does
      not compile never yields a finding on any line. */
  lemma PanicIndependentOfLine(line: string, other: string, rule: ScanRule, lib: Libraries)
    ensures EvaluateRule(line, rule, lib).Panic? <==> EvaluateRule(other, rule, lib).Panic?
  {
  }
}

/** The line-by-line scan of a game log (`ProcessLog`): which lines show mod
    loader activity, which mods were loaded, and the captured exception text.

    The scan is split in two. `Facts` reads one line the way the loop body does
    (trim it, test it for the three markers, cut out a mod name, look at its
    indentation). `Step` is the two-state automaton (capturing or not) that the
    loop runs over those facts, and `Run` is the left fold of `Step`, defined on
    the last element so that it reads like the `foreach` it models. */
module LogScan {
  import opened Text

  /** Substring showing that the mod loader wrote the line. */
  const ModLoaderMarker := "BepInEx]"
  /** Substring of the line the mod loader writes when it loads a mod. */
  const LoadingMarker := "BepInEx] Loading ["
  /** Substring that opens the capture of an exception block. */
  const ExceptionMarker := "Exception:"

  // ---------------------------------------------------------------------------
  // Reading one line

  /** `line.StartsWith(' ')`; `string.IsNullOrEmpty(line)` adds nothing to its negation. */
  predicate IndentedBySpace(line: string) {
    |line| > 0 && line[0] == ' '
  }

  /** `trimmed.Split(LoadingMarker)[1].Split(']')[0]`. */
  function ModName(trimmed: string): string
    requires Contains(trimmed, LoadingMarker)
  {
    Split(Split(trimmed, LoadingMarker)[1], "]")[0]
  }

  /** What the loop body finds in one line. */
  datatype LineFacts = LineFacts(
    trimmed: string,          // line.Trim()
    showsModLoader: bool,     // trimmed contains the mod loader marker
    loaded: seq<string>,      // the mod the line announces, if any
    indented: bool,           // the untrimmed line starts with a space
    marksException: bool)     // trimmed contains the exception marker

  function Facts(line: string): LineFacts {
    var t := Trim(line);
    LineFacts(
      t,
      Contains(t, ModLoaderMarker),
      if Contains(t, LoadingMarker) then [ModName(t)] else [],
      IndentedBySpace(line),
      Contains(t, ExceptionMarker))
  }

  function FactsOf(lines: seq<string>): seq<LineFacts> {
    seq(|lines|, i requires 0 <= i < |lines| => Facts(lines[i]))
  }

  predicate ShowsModLoader(line: string) {
    Contains(Trim(line), ModLoaderMarker)
  }

  predicate MarksException(line: string) {
    Contains(Trim(line), ExceptionMarker)
  }

  // ---------------------------------------------------------------------------
  // The automaton

  /** The variables the `foreach` carries from one line to the next:
      `hasMods`, the `mods` and `errors` lists, `isReadingErrors` and the
      text of the `StringBuilder` that collects captured lines. */
  datatype ScanState = ScanState(
    hasMods: bool,
    mods: seq<string>,
    errors: seq<string>,
    reading: bool,
    captured: string)

  const Start := ScanState(false, [], [], false, "")

  /** One iteration of the loop body, `nl` standing for `Environment.NewLine`. */
  function Step(st: ScanState, f: LineFacts, nl: string): ScanState {
    var hasMods := st.hasMods || f.showsModLoader;
    var mods := st.mods + f.loaded;
    // the block is closed on the untrimmed line, before the exception test
    var closes := st.reading && !f.indented;
    var errors := if closes then st.errors + [st.captured] else st.errors;
    var reading := (st.reading && !closes) || f.marksException;
    // the StringBuilder is appended to and never cleared
    var captured := if reading then st.captured + f.trimmed + nl else st.captured;
    ScanState(hasMods, mods, errors, reading, captured)
  }

  /** The state after the loop has consumed the first `n` lines, whose facts are `fs[..n]`. */
  function Run(fs: seq<LineFacts>, n: nat, nl: string): ScanState
    requires n <= |fs|
  {
    if n == 0 then Start else Step(Run(fs, n - 1, nl), fs[n - 1], nl)
  }

  function ScanLines(lines: seq<string>, nl: string): ScanState {
    Run(FactsOf(lines), |lines|, nl)
  }

  /** What `ProcessLog` hands back besides its classification. */
  datatype ParsedLog = ParsedLog(hasMods: bool, mods: seq<string>, errors: seq<string>)

  /** The end of `ProcessLog`: a block still open at the end of input is recorded. */
  function Finish(st: ScanState): ParsedLog {
    ParsedLog(st.hasMods, st.mods, if st.reading then st.errors + [st.captured] else st.errors)
  }

  function Parse(lines: seq<string>, nl: string): ParsedLog {
    Finish(ScanLines(lines, nl))
  }

  // ---------------------------------------------------------------------------
  // Independent descriptions of the results

  /** The names the lines announce, in line order. */
  function Loaded(fs: seq<LineFacts>): seq<string>
    decreases |fs|
  {
    if fs == [] then [] else fs[0].loaded + Loaded(fs[1..])
  }

  /** The trimmed lines, each followed by `nl`: what `AppendLine` writes for them. */
  function Appended(fs: seq<LineFacts>, nl: string): string
    decreases |fs|
  {
    if fs == [] then "" else fs[0].trimmed + nl + Appended(fs[1..], nl)
  }

  /** Every recorded error is a prefix of every later one and of the captured text. */
  ghost predicate GrowingErrors(errors: seq<string>, captured: string) {
    && (forall i, j :: 0 <= i < j < |errors| ==> errors[i] <= errors[j])
    && (forall i :: 0 <= i < |errors| ==> errors[i] <= captured)
  }

  lemma {:induction false} LoadedSnoc(fs: seq<LineFacts>, f: LineFacts)
    ensures Loaded(fs + [f]) == Loaded(fs) + f.loaded
    decreases |fs|
  {
    if fs == [] {
      assert Loaded([f]) == f.loaded + Loaded([]);
    } else {
      assert (fs + [f])[1..] == fs[1..] + [f];
      LoadedSnoc(fs[1..], f);
    }
  }

  lemma {:induction false} AppendedSnoc(fs: seq<LineFacts>, f: LineFacts, nl: string)
    ensures Appended(fs + [f], nl) == Appended(fs, nl) + f.trimmed + nl
    decreases |fs|
  {
    if fs == [] {
      assert Appended([f], nl) == f.trimmed + nl + Appended([], nl);
    } else {
      assert (fs + [f])[1..] == fs[1..] + [f];
      AppendedSnoc(fs[1..], f, nl);
      ConcatAssoc(fs[0].trimmed + nl, Appended(fs[1..], nl), f.trimmed, nl);
    }
  }

  lemma FactsOfSlice(lines: seq<string>, i: nat, j: nat)
    requires i <= j <= |lines|
    ensures FactsOf(lines[i..j]) == FactsOf(lines)[i..j]
  {
    var a, b := FactsOf(lines[i..j]), FactsOf(lines)[i..j];
    assert |a| == |b|;
    forall k | 0 <= k < |a| ensures a[k] == b[k] {
      assert lines[i..j][k] == lines[i + k];
    }
  }

  /** The captured text of a run of lines is what `AppendLine` writes for them. */
  lemma {:induction false} AppendedIsAppendLines(lines: seq<string>, nl: string)
    ensures Appended(FactsOf(lines), nl) == AppendLines(lines, nl)
    decreases |lines|
  {
    if lines != [] {
      var fs := FactsOf(lines);
      FactsOfSlice(lines, 1, |lines|);
      assert lines[1..|lines|] == lines[1..];
      assert fs[1..|lines|] == fs[1..];
      AppendedIsAppendLines(lines[1..], nl);
      assert fs[0].trimmed == Trim(lines[0]);
      assert Appended(fs, nl) == fs[0].trimmed + nl + Appended(fs[1..], nl);
    }
  }

  // ---------------------------------------------------------------------------
  // Mods

  lemma {:induction false} RunHasModsIff(fs: seq<LineFacts>, n: nat, nl: string)
    requires n <= |fs|
    ensures Run(fs, n, nl).hasMods <==> exists i :: 0 <= i < n && fs[i].showsModLoader
  {
    if n > 0 {
      RunHasModsIff(fs, n - 1, nl);
    }
  }

  /** `hasMods` holds exactly when some trimmed line contains the mod loader marker. */
  lemma HasModsIff(lines: seq<string>, nl: string)
    ensures ScanLines(lines, nl).hasMods
        <==> exists i :: 0 <= i < |lines| && ShowsModLoader(lines[i])
  {
    var fs := FactsOf(lines);
    RunHasModsIff(fs, |lines|, nl);
    assert forall i :: 0 <= i < |lines| ==> (fs[i].showsModLoader <==> ShowsModLoader(lines[i]));
  }

  lemma {:induction false} RunModsAreLoaded(fs: seq<LineFacts>, n: nat, nl: string)
    requires n <= |fs|
    ensures Run(fs, n, nl).mods == Loaded(fs[..n])
  {
    if n == 0 {
      assert fs[..0] == [];
    } else {
      RunModsAreLoaded(fs, n - 1, nl);
      assert fs[..n] == fs[..n - 1] + [fs[n - 1]];
      LoadedSnoc(fs[..n - 1], fs[n - 1]);
    }
  }

  /** The mods list holds the name each loading line announces, in line order,
      duplicates kept: one name per line that carries the loading marker. */
  lemma ModsAreLoaded(lines: seq<string>, nl: string)
    ensures ScanLines(lines, nl).mods == Loaded(FactsOf(lines))
    ensures forall i :: 0 <= i < |lines| ==>
              (|FactsOf(lines)[i].loaded| == 1 <==> Contains(Trim(lines[i]), LoadingMarker))
  {
    var fs := FactsOf(lines);
    RunModsAreLoaded(fs, |lines|, nl);
    assert fs[..|lines|] == fs;
  }

  /** A line that announces a mod also shows mod loader activity. */
  lemma LoadingLineShowsModLoader(line: string)
    ensures Facts(line).loaded != [] ==> Facts(line).showsModLoader
  {
    var t := Trim(line);
    if Contains(t, LoadingMarker) {
      assert LoadingMarker == ModLoaderMarker + " Loading [";
      ContainsPrefixOfPattern(t, ModLoaderMarker, " Loading [");
    }
  }

  lemma {:induction false} RunModsImplyHasMods(fs: seq<LineFacts>, n: nat, nl: string)
    requires n <= |fs|
    requires forall i :: 0 <= i < |fs| && fs[i].loaded != [] ==> fs[i].showsModLoader
    ensures |Run(fs, n, nl).mods| > 0 ==> Run(fs, n, nl).hasMods
  {
    if n > 0 {
      RunModsImplyHasMods(fs, n - 1, nl);
    }
  }

  /** A loaded mod is only ever found on a line that also shows mod loader
      activity, so a non-empty mods list implies `hasMods`. */
  lemma ModsImplyHasMods(lines: seq<string>, nl: string)
    ensures |ScanLines(lines, nl).mods| > 0 ==> ScanLines(lines, nl).hasMods
  {
    var fs := FactsOf(lines);
    forall i | 0 <= i < |fs| ensures fs[i].loaded != [] ==> fs[i].showsModLoader {
      LoadingLineShowsModLoader(lines[i]);
    }
    RunModsImplyHasMods(fs, |lines|, nl);
  }

  // ---------------------------------------------------------------------------
  // Mod names

  /** No occurrence of the loading marker starts inside `p` when `p` has no mod
      loader marker: each occurrence has a `]` seven places after its start. */
  lemma FirstLoadingMarker(p: string, rest: string)
    requires !Contains(p, ModLoaderMarker)
    ensures Find(p + LoadingMarker + rest, LoadingMarker) == Some(|p|)
  {
    var m := LoadingMarker;
    var t := p + m + rest;
    assert t[|p|..|p| + |m|] == m;
    assert OccursAt(t, m, |p|);
    assert m[..8] == ModLoaderMarker;
    assert m[7] == ']';
    forall j: nat | j < |p| ensures !OccursAt(t, m, j) {
      var w := t[j..j + |m|];
      if j + 8 <= |p| {
        // the window would start with the mod loader marker, which `p` lacks
        assert !OccursAt(p, ModLoaderMarker, j);
        assert w[..8] == t[j..j + 8] == p[j..j + 8];
      } else {
        // the window's `]` would fall inside the marker's own first seven characters
        assert w[7] == t[j + 7] == m[j + 7 - |p|];
        assert m[j + 7 - |p|] != ']';
      }
    }
  }

  /** After the loading marker, a name without `]` that does not end in
      `BepInEx` runs up to its closing `]` before any further marker starts. */
  lemma NoMarkerInName(x: string, q: string)
    requires forall k :: 0 <= k < |x| ==> x[k] != ']'
    requires !EndsWith(x, "BepInEx")
    ensures forall j: nat :: j <= |x| ==> !OccursAt(x + "]" + q, LoadingMarker, j)
  {
    var m := LoadingMarker;
    var rest := x + "]" + q;
    assert m[..7] == "BepInEx";
    assert m[7] == ']';
    assert rest[|x|] == ']';
    forall j: nat | j <= |x| && j + |m| <= |rest| ensures !OccursAt(rest, m, j) {
      var w := rest[j..j + |m|];
      if j + 7 < |x| {
        // the window's `]` would fall inside the name
        assert w[7] == rest[j + 7] == x[j + 7];
      } else if j + 7 == |x| {
        // the window would start with `BepInEx`, which the name does not end in
        assert x[|x| - 7..] == x[j..j + 7];
        assert w[..7] == rest[j..j + 7] == x[j..j + 7];
      } else {
        // the closing `]` would fall inside `BepInEx`
        assert w[|x| - j] == rest[|x|];
        assert m[|x| - j] != ']';
      }
    }
  }

  /** The first piece of a split ends where the separator first occurs. */
  lemma SplitAtFirst(s: string, sep: string, i: nat)
    requires |sep| > 0 && Find(s, sep) == Some(i)
    ensures Split(s, sep)[0] == s[..i]
    ensures Split(s, sep)[1..] == Split(s[i + |sep|..], sep)
  {
  }

  /** The first piece of `x + "]" + q` split at the loading marker still starts with `x + "]"`. */
  lemma NamePieceKeepsBracket(x: string, q: string)
    requires forall k :: 0 <= k < |x| ==> x[k] != ']'
    requires !EndsWith(x, "BepInEx")
    ensures |x| < |Split(x + "]" + q, LoadingMarker)[0]|
    ensures Split(x + "]" + q, LoadingMarker)[0][..|x| + 1] == x + "]"
  {
    var rest := x + "]" + q;
    NoMarkerInName(x, q);
    match Find(rest, LoadingMarker)
    case None =>
    case Some(i) =>
      SplitAtFirst(rest, LoadingMarker, i);
      assert rest[..i][..|x| + 1] == rest[..|x| + 1];
  }

  /** Cut before the first `]`, a string that starts with `x + "]"` gives `x`. */
  lemma CutAtBracket(x: string, y: string)
    requires forall k :: 0 <= k < |x| ==> x[k] != ']'
    requires |x| < |y| && y[..|x| + 1] == x + "]"
    ensures Split(y, "]")[0] == x
  {
    assert y[|x|] == (x + "]")[|x|] == ']';
    assert OccursAt(y, "]", |x|);
    forall j: nat | j < |x| ensures !OccursAt(y, "]", j) {
      assert y[j] == (x + "]")[j] == x[j];
    }
    FindIsFirstOccurrence(y, "]", |x|);
    SplitAtFirst(y, "]", |x|);
    assert y[..|x|] == (x + "]")[..|x|] == x;
  }

  /** The mod name is the text after the first loading marker up to the first `]`.
      Only a name ending in `BepInEx` could run into a second marker with its `]`,
      so a name such as `BepInExTools 1.0` is still extracted whole. */
  lemma ModNameOfLoadingLine(p: string, x: string, q: string)
    requires !Contains(p, ModLoaderMarker)
    requires forall k :: 0 <= k < |x| ==> x[k] != ']'
    requires !EndsWith(x, "BepInEx")
    ensures Contains(p + LoadingMarker + x + "]" + q, LoadingMarker)
    ensures ModName(p + LoadingMarker + x + "]" + q) == x
  {
    var m := LoadingMarker;
    var rest := x + "]" + q;
    var t := p + m + rest;
    assert p + LoadingMarker + x + "]" + q == t;
    FirstLoadingMarker(p, rest);
    SplitAtFirst(t, m, |p|);
    assert t[|p| + |m|..] == rest;
    assert Split(t, m)[1] == Split(rest, m)[0];
    NamePieceKeepsBracket(x, q);
    CutAtBracket(x, Split(rest, m)[0]);
  }

  /** The piece after the first loading marker is also cut at a second marker:
      on `BepInEx] Loading [FooBepInEx] Loading [Bar]` the extracted name is `Foo`. */
  lemma ModNameStopsAtSecondMarker(x: string, q: string)
    requires !Contains(x, ModLoaderMarker)
    requires forall k :: 0 <= k < |x| ==> x[k] != ']'
    ensures Contains(LoadingMarker + x + LoadingMarker + q, LoadingMarker)
    ensures ModName(LoadingMarker + x + LoadingMarker + q) == x
  {
    var m := LoadingMarker;
    var rest := x + m + q;
    var t := m + rest;
    assert LoadingMarker + x + LoadingMarker + q == "" + m + rest == t;
    assert !Contains("", ModLoaderMarker);
    FirstLoadingMarker("", rest);
    SplitAtFirst(t, m, 0);
    assert t[|m|..] == rest;
    FirstLoadingMarker(x, q);
    SplitAtFirst(rest, m, |x|);
    assert rest[..|x|] == x;
    assert Split(t, m)[1] == x;
    NoBracketNoCut(x);
  }

  /** A string without `]` is not cut by `Split(']')`. */
  lemma NoBracketNoCut(x: string)
    requires forall k :: 0 <= k < |x| ==> x[k] != ']'
    ensures Split(x, "]") == [x]
  {
    forall j: nat | j < |x| ensures !OccursAt(x, "]", j) {
      assert x[j..j + 1][0] == x[j];
    }
    assert Find(x, "]").None?;
  }

  // ---------------------------------------------------------------------------
  // Errors

  lemma {:induction false} RunErrorsGrow(fs: seq<LineFacts>, n: nat, nl: string)
    requires n <= |fs|
    ensures GrowingErrors(Run(fs, n, nl).errors, Run(fs, n, nl).captured)
  {
    if n > 0 {
      var st := Run(fs, n - 1, nl);
      RunErrorsGrow(fs, n - 1, nl);
      var st' := Run(fs, n, nl);
      assert st.captured <= st'.captured;
      forall i | 0 <= i < |st'.errors|
        ensures st'.errors[i] <= st'.captured
      {
        if i < |st.errors| {
          assert st'.errors[i] == st.errors[i];
        }
      }
    }
  }

  /** Errors once recorded stay recorded: the errors after `m` lines are a prefix
      of the errors after `n >= m` lines. */
  lemma {:induction false} ErrorsExtend(fs: seq<LineFacts>, m: nat, n: nat, nl: string)
    requires m <= n <= |fs|
    ensures Run(fs, m, nl).errors <= Run(fs, n, nl).errors
    decreases n
  {
    if m < n {
      ErrorsExtend(fs, m, n - 1, nl);
    }
  }

  /** The captured text is never cleared, so every recorded error is a prefix of
      the next one, and a block left open at the end of input is recorded as the
      whole captured text. */
  lemma ErrorsGrow(lines: seq<string>, nl: string)
    ensures var st := ScanLines(lines, nl);
            var p := Parse(lines, nl);
            && (forall i, j :: 0 <= i < j < |p.errors| ==> p.errors[i] <= p.errors[j])
            && (st.reading ==> |p.errors| > 0 && p.errors[|p.errors| - 1] == st.captured)
  {
    RunErrorsGrow(FactsOf(lines), |lines|, nl);
  }

  /** A line that closes a block and carries an exception marker itself records the
      block and starts capturing again with that line. */
  lemma CloseThenReopen(fs: seq<LineFacts>, n: nat, nl: string)
    requires n < |fs| && Run(fs, n, nl).reading
    requires !fs[n].indented && fs[n].marksException
    ensures var st := Run(fs, n, nl);
            var st' := Run(fs, n + 1, nl);
            && st'.errors == st.errors + [st.captured]
            && st'.reading
            && st'.captured == st.captured + fs[n].trimmed + nl
  {
  }

  /** While capturing, an indented line is appended and capture goes on. */
  lemma IndentedLineContinues(fs: seq<LineFacts>, n: nat, nl: string)
    requires n < |fs| && Run(fs, n, nl).reading && fs[n].indented
    ensures Run(fs, n + 1, nl).reading
    ensures Run(fs, n + 1, nl).errors == Run(fs, n, nl).errors
    ensures Run(fs, n + 1, nl).captured == Run(fs, n, nl).captured + fs[n].trimmed + nl
  {
  }

  /** The text appended for lines `i..j` is that for `i..j-1` and then line `j-1`. */
  lemma AppendedSliceSnoc(fs: seq<LineFacts>, i: nat, j: nat, nl: string)
    requires i < j <= |fs|
    ensures Appended(fs[i..j], nl) == Appended(fs[i..j - 1], nl) + fs[j - 1].trimmed + nl
  {
    assert fs[i..j] == fs[i..j - 1] + [fs[j - 1]];
    AppendedSnoc(fs[i..j - 1], fs[j - 1], nl);
  }

  /** Inside a block, a run of space-indented lines is appended line by line and
      capture goes on; nothing is recorded. */
  lemma {:induction false} ContinueRun(fs: seq<LineFacts>, i: nat, j: nat, nl: string)
    requires i <= j <= |fs|
    requires Run(fs, i, nl).reading
    requires forall k :: i <= k < j ==> fs[k].indented
    ensures Run(fs, j, nl).reading
    ensures Run(fs, j, nl).errors == Run(fs, i, nl).errors
    ensures Run(fs, j, nl).captured == Run(fs, i, nl).captured + Appended(fs[i..j], nl)
    decreases j
  {
    if i == j {
      var c := Run(fs, i, nl).captured;
      assert Appended(fs[i..j], nl) == "";
      assert c + "" == c;
    } else {
      ContinueRun(fs, i, j - 1, nl);
      IndentedLineContinues(fs, j - 1, nl);
      AppendedSliceSnoc(fs, i, j, nl);
      ConcatAssoc(Run(fs, i, nl).captured, Appended(fs[i..j - 1], nl), fs[j - 1].trimmed, nl);
    }
  }

  /** An exception line at `i` met outside a block, followed by indented lines up
      to an unindented line `j` without a marker, is recorded at `j` as the text
      captured before it followed by exactly the trimmed lines `i..j`; capture
      then stops. */
  lemma BlockIsRecorded(fs: seq<LineFacts>, i: nat, j: nat, nl: string)
    requires i < j < |fs|
    requires !Run(fs, i, nl).reading
    requires fs[i].marksException
    requires forall k :: i < k < j ==> fs[k].indented
    requires !fs[j].indented && !fs[j].marksException
    ensures !Run(fs, j + 1, nl).reading
    ensures Run(fs, j + 1, nl).errors
         == Run(fs, i, nl).errors + [Run(fs, i, nl).captured + Appended(fs[i..j], nl)]
  {
    var st := Run(fs, i, nl);
    OpenBlock(fs, i, nl);
    ContinueRun(fs, i + 1, j, nl);
    CloseBlock(fs, j, nl);
    AppendedSliceCons(fs, i, j, nl);
    ConcatAssoc(st.captured, fs[i].trimmed, nl, Appended(fs[i + 1..j], nl));
  }

  /** Outside a block, a line with an exception marker starts capture with itself. */
  lemma OpenBlock(fs: seq<LineFacts>, n: nat, nl: string)
    requires n < |fs| && !Run(fs, n, nl).reading && fs[n].marksException
    ensures Run(fs, n + 1, nl).reading
    ensures Run(fs, n + 1, nl).errors == Run(fs, n, nl).errors
    ensures Run(fs, n + 1, nl).captured == Run(fs, n, nl).captured + fs[n].trimmed + nl
  {
  }

  /** While capturing, an unindented line without a marker records the captured
      text and stops capture. */
  lemma CloseBlock(fs: seq<LineFacts>, n: nat, nl: string)
    requires n < |fs| && Run(fs, n, nl).reading && !fs[n].indented && !fs[n].marksException
    ensures !Run(fs, n + 1, nl).reading
    ensures Run(fs, n + 1, nl).errors == Run(fs, n, nl).errors + [Run(fs, n, nl).captured]
  {
  }

  /** The text appended for lines `i..j` starts with line `i`. */
  lemma AppendedSliceCons(fs: seq<LineFacts>, i: nat, j: nat, nl: string)
    requires i < j <= |fs|
    ensures Appended(fs[i..j], nl) == fs[i].trimmed + nl + Appended(fs[i + 1..j], nl)
  {
    assert fs[i..j][1..] == fs[i + 1..j];
  }

  /** Without an exception marker nothing is captured and no error is recorded. */
  lemma {:induction false} NoMarkerNoCapture(fs: seq<LineFacts>, n: nat, nl: string)
    requires n <= |fs|
    requires forall k :: 0 <= k < n ==> !fs[k].marksException
    ensures var st := Run(fs, n, nl);
            !st.reading && st.errors == [] && st.captured == ""
  {
    if n > 0 {
      NoMarkerNoCapture(fs, n - 1, nl);
    }
  }

  /** When no line before `i` carries an exception marker, the block opened at
      `i` and closed at `j` is the first error reported at the end. */
  lemma FirstBlockOfRun(fs: seq<LineFacts>, i: nat, j: nat, nl: string)
    requires i < j < |fs|
    requires forall k :: 0 <= k < i ==> !fs[k].marksException
    requires fs[i].marksException
    requires forall k :: i < k < j ==> fs[k].indented
    requires !fs[j].indented && !fs[j].marksException
    ensures |Finish(Run(fs, |fs|, nl)).errors| > 0
    ensures Finish(Run(fs, |fs|, nl)).errors[0] == Appended(fs[i..j], nl)
  {
    NoMarkerNoCapture(fs, i, nl);
    BlockIsRecorded(fs, i, j, nl);
    var block := Appended(fs[i..j], nl);
    assert "" + block == block;
    assert [] + [block] == [block];
    assert Run(fs, j + 1, nl).errors == [block];
    ErrorsExtend(fs, j + 1, |fs|, nl);
    var errors := Run(fs, |fs|, nl).errors;
    assert errors[0] == block;
    assert Finish(Run(fs, |fs|, nl)).errors[..|errors|] == errors;
  }

  /** The first exception block of a log, closed by an unindented line without a
      marker, is the first reported error and holds exactly its own trimmed lines. */
  lemma FirstBlockIsRecorded(lines: seq<string>, i: nat, j: nat, nl: string)
    requires i < j < |lines|
    requires forall k :: 0 <= k < i ==> !MarksException(lines[k])
    requires MarksException(lines[i])
    requires forall k :: i < k < j ==> IndentedBySpace(lines[k])
    requires !IndentedBySpace(lines[j]) && !MarksException(lines[j])
    ensures |Parse(lines, nl).errors| > 0
    ensures Parse(lines, nl).errors[0] == AppendLines(lines[i..j], nl)
  {
    var fs := FactsOf(lines);
    assert forall k :: 0 <= k < i ==> !fs[k].marksException;
    assert forall k :: i < k < j ==> fs[k].indented;
    FirstBlockOfRun(fs, i, j, nl);
    FactsOfSlice(lines, i, j);
    AppendedIsAppendLines(lines[i..j], nl);
  }
}

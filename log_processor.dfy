/** The log processor run for a message with attachments: pick the player log,
    split it into lines, scan it, build the three report fields and the error
    messages, and remind the author about installed mods.

    Sending is modelled by the strings that would be sent: each field body, and
    the list of error messages in the order they are posted. The download of the
    attachment is a parameter. */
module LogProcessor {
  import opened Text
  import opened LogScan
  import opened Chunker
  import opened ModClassifier

  // ---------------------------------------------------------------------------
  // Choosing the attachment

  /** An attachment as far as the processor looks at it; a missing file name is "". */
  datatype Attachment = Attachment(filename: string, url: string)

  predicate IsPlayerLog(a: Attachment) {
    |a.filename| > 0 && StartsWith(a.filename, "Player") && EndsWith(a.filename, ".log")
  }

  /** The first attachment whose file name starts with `Player` and ends with `.log`. */
  function FirstPlayerLog(attachments: seq<Attachment>): (r: Option<Attachment>)
    decreases |attachments|
    ensures r.None? <==> forall i :: 0 <= i < |attachments| ==> !IsPlayerLog(attachments[i])
    ensures r.Some? ==> exists i :: 0 <= i < |attachments| && attachments[i] == r.value
                          && IsPlayerLog(r.value)
                          && forall j :: 0 <= j < i ==> !IsPlayerLog(attachments[j])
  {
    if attachments == [] then None
    else if IsPlayerLog(attachments[0]) then Some(attachments[0])
    else
      var r := FirstPlayerLog(attachments[1..]);
      assert forall i :: 1 <= i < |attachments| ==> attachments[i] == attachments[1..][i - 1];
      r
  }

  method GetAttachment(attachments: seq<Attachment>) returns (r: Option<Attachment>)
    ensures r == FirstPlayerLog(attachments)
  {
    for i := 0 to |attachments|
      invariant FirstPlayerLog(attachments) == FirstPlayerLog(attachments[i..])
    {
      assert attachments[i..][1..] == attachments[i + 1..];
      var attachment := attachments[i];
      if |attachment.filename| == 0 {
        continue;
      }
      if !StartsWith(attachment.filename, "Player") {
        continue;
      }
      if !EndsWith(attachment.filename, ".log") {
        continue;
      }
      return Some(attachment);
    }
    return None;
  }

  // ---------------------------------------------------------------------------
  // Splitting the content into lines

  datatype SplitError = EmptyContent | NoLineBreak

  /** The separator the content is split at: `"\r\n"` when it occurs anywhere. */
  function Separator(content: string): string {
    if Contains(content, "\r\n") then "\r\n" else "\n"
  }

  /** Empty content is refused; content with `"\r\n"` is split there, otherwise
      content with `"\n"` is split there; content with neither is refused. */
  function SplitContent(content: string): (r: Result<seq<string>, SplitError>)
    ensures r == Failure(EmptyContent) <==> |content| == 0
    ensures r == Failure(NoLineBreak) <==> |content| > 0 && !Contains(content, "\n")
    ensures r.Ok? ==> && |r.value| >= 2
                      && Join(r.value, Separator(content)) == content
                      && forall k :: 0 <= k < |r.value| ==> !Contains(r.value[k], Separator(content))
  {
    if |content| == 0 then Failure(EmptyContent)
    else if Contains(content, "\r\n") then
      assert "\r" + "\n" == "\r\n";
      ContainsSuffixOfPattern(content, "\r", "\n");
      SplitJoin(content, "\r\n");
      Ok(Split(content, "\r\n"))
    else if Contains(content, "\n") then
      SplitJoin(content, "\n");
      Ok(Split(content, "\n"))
    else Failure(NoLineBreak)
  }

  // ---------------------------------------------------------------------------
  // The scan

  /** The loop of `ProcessLog`, then the classification of the mods it found. */
  method ProcessLog(lines: seq<string>, nl: string, refs: seq<string>)
    returns (hasMods: bool, mods: seq<string>, errors: seq<string>, outdated: seq<string>)
    ensures ParsedLog(hasMods, mods, errors) == Parse(lines, nl)
    ensures outdated == Outdated(mods, refs)
  {
    hasMods := false;
    mods := [];
    errors := [];
    var reading := false;
    var captured := "";
    ghost var fs := LineFactsOf(lines);
    for i := 0 to |lines|
      invariant ScanState(hasMods, mods, errors, reading, captured) == Run(fs, i, nl)
    {
      hasMods, mods, errors, reading, captured := ScanLine(hasMods, mods, errors, reading, captured, lines[i], nl);
    }
    SameLineFacts(lines, fs);
    if reading {
      errors := errors + [captured];
    }
    outdated := Outdated(mods, refs);
  }

  /** The facts of each line, known index by index only when that line is read. */
  lemma LineFactsOf(lines: seq<string>) returns (fs: seq<LineFacts>)
    ensures |fs| == |lines|
    ensures forall k {:trigger lines[k]} :: 0 <= k < |lines| ==> fs[k] == Facts(lines[k])
  {
    fs := FactsOf(lines);
  }

  /** Facts read index by index are the facts of the lines. */
  lemma SameLineFacts(lines: seq<string>, fs: seq<LineFacts>)
    requires |fs| == |lines|
    requires forall k {:trigger lines[k]} :: 0 <= k < |lines| ==> fs[k] == Facts(lines[k])
    ensures fs == FactsOf(lines)
  {
    forall k | 0 <= k < |lines| ensures fs[k] == FactsOf(lines)[k] {
      assert fs[k] == Facts(lines[k]);
    }
  }

  /** The body of `ProcessLog`'s loop: what one line does to the scan's variables. */
  method ScanLine(hasMods0: bool, mods0: seq<string>, errors0: seq<string>, reading0: bool, captured0: string,
                  line: string, nl: string)
    returns (hasMods: bool, mods: seq<string>, errors: seq<string>, reading: bool, captured: string)
    ensures ScanState(hasMods, mods, errors, reading, captured) ==
              Step(ScanState(hasMods0, mods0, errors0, reading0, captured0), Facts(line), nl)
  {
    hasMods, mods, errors, reading, captured := hasMods0, mods0, errors0, reading0, captured0;
    var trimmed := Trim(line);
    ghost var before := ScanState(hasMods, mods, errors, reading, captured);
    ghost var f := Facts(line);
    assert StartsWith(line, " ") <==> f.indented by {
      if |line| > 0 {
        assert line[..1] == [line[0]];
      }
    }
    if Contains(trimmed, ModLoaderMarker) {
      hasMods := true;
    }
    if Contains(trimmed, LoadingMarker) {
      var mod := ModName(trimmed);
      mods := mods + [mod];
    } else {
      assert mods + [] == mods;
    }
    if reading {
      if !StartsWith(line, " ") || |line| == 0 {
        errors := errors + [captured];
        reading := false;
      }
    }
    if Contains(trimmed, ExceptionMarker) {
      reading := true;
    }
    if !reading {
      return;
    }
    captured := captured + trimmed + nl;
  }


  // ---------------------------------------------------------------------------
  // The report fields

  /** What `AppendLine("- " + m)` writes for each `m` in turn. */
  function Bullets(ms: seq<string>, nl: string): string
    decreases |ms|
  {
    if ms == [] then "" else Bullets(ms[..|ms| - 1], nl) + "- " + ms[|ms| - 1] + nl
  }

  /** A bullet list of a concatenation is the two bullet lists one after the other. */
  lemma {:induction false} BulletsOfConcat(a: seq<string>, b: seq<string>, nl: string)
    ensures Bullets(a + b, nl) == Bullets(a, nl) + Bullets(b, nl)
    decreases |b|
  {
    if b == [] {
      assert a + b == a;
    } else {
      var b' := b[..|b| - 1];
      BulletsOfConcat(a, b', nl);
      assert (a + b)[..|a + b| - 1] == a + b' && (a + b)[|a + b| - 1] == b[|b| - 1];
      BulletAfter(Bullets(a, nl), Bullets(b', nl), b[|b| - 1], nl);
    }
  }

  /** One more bullet after two lists joined is one more bullet after the second. */
  lemma BulletAfter(x: string, y: string, m: string, nl: string)
    ensures x + y + "- " + m + nl == x + (y + "- " + m + nl)
  {
  }

  /** Each name gets its own bullet line, in list order: the bullets of the
      names before it, its own line, then the bullets of the names after it. */
  lemma BulletAt(ms: seq<string>, k: nat, nl: string)
    requires k < |ms|
    ensures Bullets(ms, nl) == Bullets(ms[..k], nl) + "- " + ms[k] + nl + Bullets(ms[k + 1..], nl)
  {
    assert ms == ms[..k] + [ms[k]] + ms[k + 1..];
    BulletsOfConcat(ms[..k] + [ms[k]], ms[k + 1..], nl);
    BulletsOfConcat(ms[..k], [ms[k]], nl);
    assert ([ms[k]])[..0] == [];
  }

  /** Body of the installed-mods field: the mods that are not outdated, each once,
      in order, or a notice when no mod loader activity was seen. */
  function ModsBody(hasMods: bool, mods: seq<string>, outdated: seq<string>, nl: string): string {
    if hasMods then Bullets(Sort(Except(mods, outdated)), nl) else "No mods found" + nl
  }

  /** Body of the incompatible-mods field. */
  function OutdatedBody(refs: seq<string>, outdated: seq<string>, nl: string): string {
    if |refs| > 0 then
      if |outdated| > 0 then Bullets(Sort(outdated), nl) else "No incompatible mods found" + nl
    else ""
  }

  /** With mod loader activity the installed-mods field is a bullet list of the
      mods that match no reference entry, each once, in ordinal order. */
  lemma ModsFieldLists(hasMods: bool, mods: seq<string>, refs: seq<string>, nl: string)
    requires hasMods
    ensures var current := Sort(Except(mods, Outdated(mods, refs)));
            && ModsBody(hasMods, mods, Outdated(mods, refs), nl) == Bullets(current, nl)
            && Sorted(current)
            && (forall x :: x in current <==> x in mods && !AnyContained(x, refs))
            && (forall i, j :: 0 <= i < j < |current| ==> current[i] != current[j])
  {
    var outdated := Outdated(mods, refs);
    var except := Except(mods, outdated);
    var current := Sort(except);
    SortSorted(except);
    CurrentAndOutdatedPartition(mods, refs);
    forall x ensures x in current <==> x in except {
      assert x in current <==> x in multiset(current);
      assert x in except <==> x in multiset(except);
    }
    forall i, j | 0 <= i < j < |current| ensures current[i] != current[j] {
      if current[i] == current[j] {
        DuplicateInMultiset(current, i, j);
        DistinctCount(except, current[i]);
        assert false;
      }
    }
  }

  /** Two positions holding the same value make it occur at least twice. */
  lemma {:induction false} DuplicateInMultiset(s: seq<string>, i: nat, j: nat)
    requires i < j < |s| && s[i] == s[j]
    ensures multiset(s)[s[i]] >= 2
    decreases |s|
  {
    if i > 0 {
      DuplicateInMultiset(s[1..], i - 1, j - 1);
      assert s == [s[0]] + s[1..];
    } else {
      assert s[j] == s[1..][j - 1];
      assert s[1..][j - 1] in multiset(s[1..]);
      assert s == [s[0]] + s[1..];
    }
  }

  /** In a sequence without repetitions every value occurs at most once. */
  lemma {:induction false} DistinctCount(s: seq<string>, x: string)
    requires forall i, j :: 0 <= i < j < |s| ==> s[i] != s[j]
    ensures multiset(s)[x] <= 1
    decreases |s|
  {
    if s != [] {
      DistinctCount(s[1..], x);
      assert s == [s[0]] + s[1..];
      if s[0] == x {
        forall k | 0 <= k < |s[1..]| ensures s[1..][k] != x {
          assert s[1..][k] == s[k + 1];
        }
        assert x !in s[1..];
      }
    }
  }

  /** With a non-empty reference list the incompatible-mods field is a bullet
      list of the outdated mods in ordinal order, duplicates kept, or a notice
      when there are none. */
  lemma OutdatedFieldLists(mods: seq<string>, refs: seq<string>, nl: string)
    requires |refs| > 0
    ensures var outdated := Outdated(mods, refs);
            var body := OutdatedBody(refs, outdated, nl);
            && (outdated == [] ==> body == "No incompatible mods found" + nl)
            && (outdated != [] ==> body == Bullets(Sort(outdated), nl)
                                   && Sorted(Sort(outdated))
                                   && multiset(Sort(outdated)) == multiset(outdated))
            && (forall x :: x in Sort(outdated) <==> x in mods && AnyContained(x, refs))
  {
    var outdated := Outdated(mods, refs);
    SortSorted(outdated);
    forall x ensures x in Sort(outdated) <==> x in outdated {
      assert x in Sort(outdated) <==> x in multiset(Sort(outdated));
      assert x in outdated <==> x in multiset(outdated);
    }
  }

  method WriteBullets(ms: seq<string>, nl: string) returns (body: string)
    ensures body == Bullets(ms, nl)
  {
    body := "";
    for i := 0 to |ms|
      invariant body == Bullets(ms[..i], nl)
    {
      assert ms[..i + 1][..i] == ms[..i];
      body := body + "- " + ms[i] + nl;
    }
    assert ms[..|ms|] == ms;
  }

  method AddModsField(hasMods: bool, mods: seq<string>, outdated: seq<string>, nl: string)
    returns (body: string)
    ensures body == ModsBody(hasMods, mods, outdated, nl)
  {
    if hasMods {
      body := WriteBullets(Sort(Except(mods, outdated)), nl);
    } else {
      body := "No mods found" + nl;
    }
  }

  method AddOutdatedModsField(refs: seq<string>, outdated: seq<string>, nl: string)
    returns (body: string)
    ensures body == OutdatedBody(refs, outdated, nl)
  {
    body := "";
    if |refs| > 0 {
      if |outdated| > 0 {
        body := WriteBullets(Sort(outdated), nl);
      } else {
        body := "No incompatible mods found" + nl;
      }
    }
  }

  /** Body of the exceptions field: the count of errors, or a notice when none. */
  function ErrorsBody(count: nat): (r: string)
    ensures r == "No exceptions found" <==> count == 0
  {
    if count > 0 then
      var r := "Found " + Decimal(count) + " exceptions, see following messages";
      assert r[0] == 'F';
      r
    else "No exceptions found"
  }

  // ---------------------------------------------------------------------------
  // The error messages

  /** At most this many errors are sent. */
  const MaxErrorsSent := 5

  function ErrorMessage(n: nat, error: string): string {
    "Exception " + Decimal(n) + "\n```" + error + "```"
  }

  function ChunkMessage(n: nat, j: nat, count: nat, chunk: string): string {
    "Exception " + Decimal(n) + " (" + Decimal(j) + "/" + Decimal(count) + ")\n```" + chunk + "```"
  }

  /** One message per chunk, numbered `(j/count)` from 1 in chunk order. */
  function ChunkMessages(n: nat, chunks: seq<string>): seq<string> {
    seq(|chunks|, j requires 0 <= j < |chunks| => ChunkMessage(n, j + 1, |chunks|, chunks[j]))
  }

  /** The messages for error number `n`: one message when it fits, else its chunks. */
  function MessagesFor(n: nat, error: string, nl: string): seq<string>
    requires |nl| > 0
  {
    if |error| > Limit then ChunkMessages(n, Chunks(error, nl)) else [ErrorMessage(n, error)]
  }

  /** The messages for `errors`, numbered from 1, in order. */
  function AllMessages(errors: seq<string>, nl: string): seq<string>
    requires |nl| > 0
    decreases |errors|
  {
    if errors == [] then []
    else AllMessages(errors[..|errors| - 1], nl) + MessagesFor(|errors|, errors[|errors| - 1], nl)
  }

  /** Every error yields at least one message. */
  lemma MessagesForSome(n: nat, error: string, nl: string)
    requires |nl| > 0
    ensures |MessagesFor(n, error, nl)| >= 1
  {
    if |error| > Limit {
      SomeChunk("", Split(error, nl), nl);
    }
  }

  /** When no error is longer than the limit, error `i` (from 0) is sent as the
      single message `Exception {i + 1}` around its text. */
  lemma {:induction false} ShortErrorsOneMessageEach(errors: seq<string>, nl: string)
    requires |nl| > 0
    requires forall i :: 0 <= i < |errors| ==> |errors[i]| <= Limit
    ensures |AllMessages(errors, nl)| == |errors|
    ensures forall i :: 0 <= i < |errors| ==> AllMessages(errors, nl)[i] == ErrorMessage(i + 1, errors[i])
    decreases |errors|
  {
    if errors != [] {
      var n := |errors|;
      var init := errors[..n - 1];
      assert forall i :: 0 <= i < |init| ==> init[i] == errors[i];
      ShortErrorsOneMessageEach(init, nl);
      var r := AllMessages(errors, nl);
      assert r == AllMessages(init, nl) + [ErrorMessage(n, errors[n - 1])];
      forall i | 0 <= i < n ensures r[i] == ErrorMessage(i + 1, errors[i]) {
        if i < n - 1 {
          assert r[i] == AllMessages(init, nl)[i];
        }
      }
    }
  }

  /** The messages of the first `m` errors come first, unchanged, among the
      messages of all errors: sending fewer errors only cuts the list short. */
  lemma {:induction false} AllMessagesPrefix(errors: seq<string>, m: nat, nl: string)
    requires |nl| > 0 && m <= |errors|
    ensures AllMessages(errors[..m], nl) <= AllMessages(errors, nl)
    ensures |AllMessages(errors, nl)| >= |errors|
    decreases |errors|
  {
    if errors != [] {
      var init := errors[..|errors| - 1];
      MessagesForSome(|errors|, errors[|errors| - 1], nl);
      if m == |errors| {
        assert errors[..m] == errors;
        AllMessagesPrefix(init, 0, nl);
      } else {
        assert errors[..m] == init[..m];
        AllMessagesPrefix(init, m, nl);
      }
    }
  }

  /** The chunker loop of `SendSegmentedErrors`, then one message per chunk. */
  method SendSegmentedErrors(errorNumber: nat, error: string, nl: string) returns (sent: seq<string>)
    requires |nl| > 0
    ensures sent == ChunkMessages(errorNumber, Chunks(error, nl))
  {
    var errorLines := Split(error, nl);
    var buffer := "";
    var chunks := [];
    for i := 0 to |errorLines|
      invariant chunks + Pack(buffer, errorLines[i..], nl) == Pack("", errorLines, nl)
    {
      var errorLine := errorLines[i];
      assert errorLines[i..][0] == errorLine && errorLines[i..][1..] == errorLines[i + 1..];
      if |buffer| + |errorLine| < Limit {
        buffer := buffer + Trim(errorLine) + nl;
      } else {
        SealBuffer(chunks, buffer, errorLines[i..], nl);
        chunks := chunks + [buffer];
        buffer := "";
      }
    }
    assert errorLines[|errorLines|..] == [];
    FlushBuffer(chunks, buffer, nl);
    if |buffer| > 0 {
      chunks := chunks + [buffer];
    }
    sent := [];
    for i := 0 to |chunks|
      invariant sent == ChunkMessages(errorNumber, chunks)[..i]
    {
      NextChunkMessage(errorNumber, chunks, i);
      sent := sent + [ChunkMessage(errorNumber, i + 1, |chunks|, chunks[i])];
    }
  }

  /** The message list of the chunks grows by the message of the next chunk. */
  lemma NextChunkMessage(n: nat, chunks: seq<string>, i: nat)
    requires i < |chunks|
    ensures ChunkMessages(n, chunks)[..i + 1]
         == ChunkMessages(n, chunks)[..i] + [ChunkMessage(n, i + 1, |chunks|, chunks[i])]
  {
    var ms := ChunkMessages(n, chunks);
    assert ms[..i + 1] == ms[..i] + [ms[i]];
  }

  /** The messages for one error, numbered `n`. */
  method SendError(n: nat, error: string, nl: string) returns (sent: seq<string>)
    requires |nl| > 0
    ensures sent == MessagesFor(n, error, nl)
  {
    if |error| > Limit {
      sent := SendSegmentedErrors(n, error, nl);
    } else {
      sent := [ErrorMessage(n, error)];
    }
  }

  /** `SendErrors`: the messages for the first five errors at most. */
  method SendErrors(errors: seq<string>, nl: string) returns (sent: seq<string>)
    requires |nl| > 0
    ensures var n := if |errors| < MaxErrorsSent then |errors| else MaxErrorsSent;
            sent == AllMessages(errors[..n], nl)
  {
    var n := if |errors| < MaxErrorsSent then |errors| else MaxErrorsSent;
    sent := [];
    for i := 0 to n
      invariant sent == AllMessages(errors[..i], nl)
    {
      assert errors[..i + 1][..i] == errors[..i];
      var m := SendError(i + 1, errors[i], nl);
      sent := sent + m;
    }
  }

  // ---------------------------------------------------------------------------
  // The whole run

  /** Everything a parsed log produces: the three field bodies and the error messages. */
  datatype Report = Report(modsField: string, outdatedField: string, errorsField: string, messages: seq<string>)

  const ModsReminderText :=
    "> you seem to have mods installed. It is essential that you remove these mods before reporting bugs.\n" +
    "Mods can introduce unexpected behaviour and interfere with the inner workings of the game resulting in bugs that aren't caused by the game itself.\n\n" +
    "Please remove all your mods and try to reproduce the bug.\n" +
    "The easiest way to remove your mods is by renaming the `BepInEx` folder in your game directory to anything else."

  /** The reminder addressed to the author of the message. */
  function ModsReminder(author: nat): string {
    "<@" + Decimal(author) + ModsReminderText
  }

  /** The outcome of `Process` for a log that was found, downloaded and split. */
  datatype Outcome = Outcome(report: Report, reminder: Option<string>)

  /** What is reported for a parsed log, with at most `cap` errors sent. */
  function ReportOf(p: ParsedLog, refs: seq<string>, nl: string, cap: nat): Report
    requires |nl| > 0
  {
    var outdated := Outdated(p.mods, refs);
    var n := if |p.errors| < cap then |p.errors| else cap;
    Report(ModsBody(p.hasMods, p.mods, outdated, nl), OutdatedBody(refs, outdated, nl),
           ErrorsBody(|p.errors|), AllMessages(p.errors[..n], nl))
  }

  /** `Process`: nothing is sent unless a player log is attached, downloads, and
      has line breaks; otherwise the report, with the first five errors, and the
      reminder exactly when mod loader activity was seen. */
  method Process(attachments: seq<Attachment>, download: Attachment -> Option<string>, author: nat, nl: string)
    returns (r: Option<Outcome>)
    requires |nl| > 0
    ensures r.Some? <==> && FirstPlayerLog(attachments).Some?
                         && download(FirstPlayerLog(attachments).value).Some?
                         && SplitContent(download(FirstPlayerLog(attachments).value).value).Ok?
    ensures r.Some? ==>
              var lines := SplitContent(download(FirstPlayerLog(attachments).value).value).value;
              && r.value.report == ReportOf(Parse(lines, nl), OutdatedMods, nl, MaxErrorsSent)
              && (r.value.reminder.Some? <==> Parse(lines, nl).hasMods)
              && (r.value.reminder.Some? ==> r.value.reminder.value == ModsReminder(author))
  {
    var attachment := GetAttachment(attachments);
    if attachment.None? {
      return None;
    }
    var content := download(attachment.value);
    if content.None? {
      return None;
    }
    var split := SplitContent(content.value);
    if split.Failure? {
      return None;
    }
    var lines := split.value;
    var hasMods, mods, errors, outdated := ProcessLog(lines, nl, OutdatedMods);
    var modsField := AddModsField(hasMods, mods, outdated, nl);
    var outdatedField := AddOutdatedModsField(OutdatedMods, outdated, nl);
    var errorsField := ErrorsBody(|errors|);
    var sent := SendErrors(errors, nl);
    var reminder := if hasMods then Some(ModsReminder(author)) else None;
    return Some(Outcome(Report(modsField, outdatedField, errorsField, sent), reminder));
  }
}

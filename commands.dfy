/** The `parse` slash command: the same log processing as `LogProcessor`, run on
    an attachment the user hands to the command, with a reply for each way the
    attachment can be refused and with every error sent, not only the first five. */
module Commands {
  import opened Text
  import opened LogScan
  import opened ModClassifier
  import LogProcessor

  /** The command's own copy of the incompatible-mods list. */
  const OutdatedMods: seq<string> := [
    "net.tnrd.zeepkist.utilities",
    "com.metalted.zeepkist.blueprints",
    "com.metalted.zeepkist.dragselect",
    "com.metalted.zeepkist.hotbar",
    "com.metalted.zeepkist.selectioncountergui",
    "com.metalted.zeepkist.notooltip",
    "com.metalted.zeepkist.uiinjector",
    "UIInjector",
    "Hotbar",
    "Selection Counter GUI",
    "BlueprintsPlus",
    "Blueprints+",
    "Blueprints",
    "Level Editor Drag Select",
    "No Tooltip",
    "RecordsMod"
  ]

  /** Both copies of the list hold the same entries in the same order, so both
      entry points classify every mod alike. */
  lemma SameOutdatedMods()
    ensures OutdatedMods == ModClassifier.OutdatedMods
    ensures forall mods :: Outdated(mods, OutdatedMods) == Outdated(mods, ModClassifier.OutdatedMods)
  {
  }

  /** The command's `ProcessLog`: the same loop, against the command's list. */
  method ProcessLog(lines: seq<string>, nl: string)
    returns (hasMods: bool, mods: seq<string>, errors: seq<string>, outdated: seq<string>)
    ensures ParsedLog(hasMods, mods, errors) == Parse(lines, nl)
    ensures outdated == Outdated(mods, ModClassifier.OutdatedMods)
  {
    hasMods, mods, errors, outdated := LogProcessor.ProcessLog(lines, nl, OutdatedMods);
    SameOutdatedMods();
  }

  /** The command's `SendErrors`: the messages for every error, in order. */
  method SendErrors(errors: seq<string>, nl: string) returns (sent: seq<string>)
    requires |nl| > 0
    ensures sent == LogProcessor.AllMessages(errors, nl)
  {
    sent := [];
    for i := 0 to |errors|
      invariant sent == LogProcessor.AllMessages(errors[..i], nl)
    {
      assert errors[..i + 1][..i] == errors[..i];
      var m := LogProcessor.SendError(i + 1, errors[i], nl);
      sent := sent + m;
    }
    assert errors[..|errors|] == errors;
  }

  /** What fetching the attachment's URL gave: its text, a failed status, or a
      body that could not be read. */
  datatype Download = Downloaded(content: string) | DownloadFailed | ReadFailed

  /** The command's reply: a contextual warning, a contextual error, or the
      report (its embed fields and the error messages sent after it). */
  datatype Reply = Warning(text: string) | Error(text: string) | Results(report: LogProcessor.Report)

  /** The report the command sends for a parsed log: that of the log
      processor, with every error sent. */
  function CommandReport(p: ParsedLog, nl: string): LogProcessor.Report
    requires |nl| > 0
  {
    LogProcessor.ReportOf(p, ModClassifier.OutdatedMods, nl, |p.errors|)
  }

  /** `Parse`: each check refuses the attachment with its own reply, in the
      order the command makes them; an attachment that passes them all gets
      the report. */
  method ParseCommand(filename: Option<string>, download: Download, nl: string) returns (reply: Reply)
    requires |nl| > 0
    ensures filename.None? ==> reply == Warning("Attachment has no filename.")
    ensures filename.Some? && !EndsWith(filename.value, ".log") ==>
              reply == Warning("Attachment is not a .log file.")
    ensures filename.Some? && EndsWith(filename.value, ".log") ==>
              && (download.DownloadFailed? ==> reply == Error("Unable to download attachment."))
              && (download.ReadFailed? ==> reply == Error("Unable to read attachment."))
              && (download.Downloaded? && |download.content| == 0 ==> reply == Error("Attachment is empty."))
              && (download.Downloaded? && |download.content| > 0 && !Contains(download.content, "\n") ==>
                    reply == Warning("Attachment has no line breaks."))
    ensures reply.Results? <==> && filename.Some? && EndsWith(filename.value, ".log")
                                && download.Downloaded?
                                && LogProcessor.SplitContent(download.content).Ok?
    ensures reply.Results? ==>
              reply.report == CommandReport(Parse(LogProcessor.SplitContent(download.content).value, nl), nl)
  {
    if filename.None? {
      return Warning("Attachment has no filename.");
    }
    var name := filename.value;
    if !EndsWith(name, ".log") {
      return Warning("Attachment is not a .log file.");
    }
    if download.DownloadFailed? {
      return Error("Unable to download attachment.");
    }
    if download.ReadFailed? {
      return Error("Unable to read attachment.");
    }
    var content := download.content;
    var split := LogProcessor.SplitContent(content);
    if split == Failure(LogProcessor.EmptyContent) {
      return Error("Attachment is empty.");
    }
    if split.Failure? {
      return Warning("Attachment has no line breaks.");
    }
    var lines := split.value;
    var hasMods, mods, errors, outdated := ProcessLog(lines, nl);
    var modsField := LogProcessor.AddModsField(hasMods, mods, outdated, nl);
    var outdatedField := LogProcessor.AddOutdatedModsField(OutdatedMods, outdated, nl);
    var errorsField := LogProcessor.ErrorsBody(|errors|);
    var sent := SendErrors(errors, nl);
    assert errors[..|errors|] == errors;
    return Results(LogProcessor.Report(modsField, outdatedField, errorsField, sent));
  }

  /** The messages of the first five errors at most are the first messages of
      those of every error, and all of them exactly when there are at most five. */
  lemma {:induction false} CappedMessagesPrefix(errors: seq<string>, nl: string)
    requires |nl| > 0
    ensures var n := if |errors| < LogProcessor.MaxErrorsSent then |errors| else LogProcessor.MaxErrorsSent;
            var capped := LogProcessor.AllMessages(errors[..n], nl);
            var all := LogProcessor.AllMessages(errors, nl);
            && capped <= all
            && (capped == all <==> |errors| <= LogProcessor.MaxErrorsSent)
  {
    var cap := LogProcessor.MaxErrorsSent;
    if |errors| > cap {
      var init := errors[..|errors| - 1];
      assert errors[..cap] == init[..cap];
      LogProcessor.AllMessagesPrefix(init, cap, nl);
      LogProcessor.AllMessagesPrefix(errors, cap, nl);
      LogProcessor.MessagesForSome(|errors|, errors[|errors| - 1], nl);
    } else {
      assert errors[..|errors|] == errors;
    }
  }

  /** For any reference list, the report that sends the first five errors at
      most and the one that sends every error have the same three fields. The
      capped messages begin the uncapped ones, and are all of them exactly when
      there are at most five errors. */
  lemma CappedReport(p: ParsedLog, refs: seq<string>, nl: string)
    requires |nl| > 0
    ensures var capped := LogProcessor.ReportOf(p, refs, nl, LogProcessor.MaxErrorsSent);
            var all := LogProcessor.ReportOf(p, refs, nl, |p.errors|);
            && capped.modsField == all.modsField
            && capped.outdatedField == all.outdatedField
            && capped.errorsField == all.errorsField
            && capped.messages <= all.messages
            && (capped.messages == all.messages <==> |p.errors| <= LogProcessor.MaxErrorsSent)
  {
    assert p.errors[..|p.errors|] == p.errors;
    CappedMessagesPrefix(p.errors, nl);
  }

  /** For the same parsed log, the processor's report and the command's have
      the same three fields. The processor's messages, those of the first five
      errors at most, are the first messages of the command's, and they are all
      of them exactly when there are at most five errors. */
  lemma CommandExtendsProcessor(p: ParsedLog, nl: string)
    requires |nl| > 0
    ensures var proc := LogProcessor.ReportOf(p, ModClassifier.OutdatedMods, nl, LogProcessor.MaxErrorsSent);
            var cmd := CommandReport(p, nl);
            && proc.modsField == cmd.modsField
            && proc.outdatedField == cmd.outdatedField
            && proc.errorsField == cmd.errorsField
            && proc.messages <= cmd.messages
            && (proc.messages == cmd.messages <==> |p.errors| <= LogProcessor.MaxErrorsSent)
  {
    CappedReport(p, ModClassifier.OutdatedMods, nl);
  }
}

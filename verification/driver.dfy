/** The driver: `applyPatch` for one file and the `glob` callback that runs it
    over every matched path, as a fold of the report over the file sequence. */
module Driver {
  import opened Seqs
  import opened Dom
  import opened SidebarPatch
  import opened Report

  /** The run's configuration, as read from `config.json`. */
  datatype Config = Config(labRoot: string, linknames: seq<string>, domain: string, lab: string)

  /** A matched file: its path and the document its text parses to. */
  datatype HtmlFile = HtmlFile(path: string, doc: Node)

  /** The value `replaceSidebarContents` returns for one file: `null`, or the
      patched document serialised by `serialize`. */
  function PatchResult(f: HtmlFile, cfg: Config, serialize: Node -> string): (r: Content)
    ensures r.Null? <==> !Contains(f.doc, SidebarClass)
    ensures Contains(f.doc, SidebarClass) ==>
      r == Str(serialize(ReplaceSidebarContents(f.doc, cfg.linknames, cfg.domain, cfg.lab).value))
  {
    match ReplaceSidebarContents(f.doc, cfg.linknames, cfg.domain, cfg.lab)
    case None => Null
    case Some(d) => Str(serialize(d))
  }

  /** `applyPatch(html_path, ...)`: patch one file and log its outcome. Exactly
      one list grows, by the file's path; a file without a sidebar goes to
      `fail`, and only a file with one can go to `success`. */
  function ApplyPatch(log: Log, f: HtmlFile, cfg: Config, serialize: Node -> string): (r: Log)
    ensures || (r.success == log.success + [f.path] && r.fail == log.fail)
            || (r.fail == log.fail + [f.path] && r.success == log.success)
    ensures !Contains(f.doc, SidebarClass) ==> r.fail == log.fail + [f.path] && r.success == log.success
    ensures r.success != log.success ==> Contains(f.doc, SidebarClass)
    ensures Truthy(PatchResult(f, cfg, serialize)) ==> r.success == log.success + [f.path] && r.fail == log.fail
    ensures !Truthy(PatchResult(f, cfg, serialize)) ==> r.fail == log.fail + [f.path] && r.success == log.success
  {
    UpdateHtmlAndLog(f.path, PatchResult(f, cfg, serialize), log)
  }

  /** `html_paths.forEach(p => applyPatch(p, ...))`, from report `log`: every
      file adds one entry, and what was already logged stays at the front. */
  function RunFrom(log: Log, files: seq<HtmlFile>, cfg: Config, serialize: Node -> string): (r: Log)
    decreases |files|
    ensures |r.success| + |r.fail| == |log.success| + |log.fail| + |files|
    ensures log.success <= r.success && log.fail <= r.fail
  {
    if |files| == 0 then log
    else RunFrom(ApplyPatch(log, files[0], cfg, serialize), files[1..], cfg, serialize)
  }

  /** A whole run over the matched files, starting from the empty report: it
      logs the files' outcomes in enumeration order, one entry per file. */
  function Run(files: seq<HtmlFile>, cfg: Config, serialize: Node -> string): (r: Log)
    ensures r == LogAll(EmptyLog, Outcomes(files, cfg, serialize))
    ensures |r.success| + |r.fail| == |files|
  {
    RunFromLogsOutcomes(EmptyLog, files, cfg, serialize);
    RunFrom(EmptyLog, files, cfg, serialize)
  }

  /** The outcome of each file, in order. */
  function Outcomes(files: seq<HtmlFile>, cfg: Config, serialize: Node -> string): (r: seq<Outcome>)
    ensures |r| == |files|
    ensures forall i :: 0 <= i < |files| ==>
      r[i] == Outcome(files[i].path, PatchResult(files[i], cfg, serialize))
  {
    seq(|files|, i requires 0 <= i < |files| => Outcome(files[i].path, PatchResult(files[i], cfg, serialize)))
  }

  /** The driver loop logs the files' outcomes one after the other. */
  lemma {:induction false} RunFromLogsOutcomes(log: Log, files: seq<HtmlFile>, cfg: Config, serialize: Node -> string)
    ensures RunFrom(log, files, cfg, serialize) == LogAll(log, Outcomes(files, cfg, serialize))
    decreases |files|
  {
    if |files| > 0 {
      RunFromLogsOutcomes(ApplyPatch(log, files[0], cfg, serialize), files[1..], cfg, serialize);
      assert Outcomes(files, cfg, serialize)[1..] == Outcomes(files[1..], cfg, serialize);
    }
  }

  /** Over a whole run every matched path is logged exactly once (as often as
      it was matched), `success` and `fail` each keep enumeration order, the
      two lengths add up to the number of files, and a file lands in `fail`
      whenever its document has no sidebar. */
  lemma RunPartitionsPaths(files: seq<HtmlFile>, cfg: Config, serialize: Node -> string)
    ensures var r := Run(files, cfg, serialize);
      && multiset(r.success) + multiset(r.fail) == multiset(PathsOf(Outcomes(files, cfg, serialize)))
      && IsSubsequence(r.success, PathsOf(Outcomes(files, cfg, serialize)))
      && IsSubsequence(r.fail, PathsOf(Outcomes(files, cfg, serialize)))
      && |r.success| + |r.fail| == |files|
      && (forall i :: 0 <= i < |files| && !Contains(files[i].doc, SidebarClass) ==> files[i].path in r.fail)
  {
    var outs := Outcomes(files, cfg, serialize);
    RunFromLogsOutcomes(EmptyLog, files, cfg, serialize);
    LogAllPartitions(outs);
  }

  /** A file is logged as a success exactly when its document has a sidebar,
      and as a failure exactly when it has none, given that `glob` lists each
      path once and that the serialiser never yields the empty string (a
      serialised jsdom document always holds at least its `html` element). */
  lemma RunSuccessIffSidebar(files: seq<HtmlFile>, cfg: Config, serialize: Node -> string, i: nat)
    requires forall d :: serialize(d) != ""
    requires forall a, b :: 0 <= a < b < |files| ==> files[a].path != files[b].path
    requires i < |files|
    ensures var r := Run(files, cfg, serialize);
      && (files[i].path in r.success <==> Contains(files[i].doc, SidebarClass))
      && (files[i].path in r.fail <==> !Contains(files[i].doc, SidebarClass))
  {
    var outs := Outcomes(files, cfg, serialize);
    assert DistinctPaths(outs);
    LogAllSidesExactly(outs, i);
  }

  /** The report rewritten after the `k`-th file is the log of the files up to
      and including it: the fold's state after a prefix is that prefix's run. */
  lemma RunPrefix(files: seq<HtmlFile>, k: nat, cfg: Config, serialize: Node -> string)
    requires k < |files|
    ensures Run(files[..k + 1], cfg, serialize)
         == ApplyPatch(Run(files[..k], cfg, serialize), files[k], cfg, serialize)
  {
    RunFromLogsOutcomes(EmptyLog, files[..k + 1], cfg, serialize);
    RunFromLogsOutcomes(EmptyLog, files[..k], cfg, serialize);
    var outs := Outcomes(files[..k], cfg, serialize);
    var o := Outcome(files[k].path, PatchResult(files[k], cfg, serialize));
    assert Outcomes(files[..k + 1], cfg, serialize) == outs + [o];
    LogAllSnoc(EmptyLog, outs, o);
  }
}

/** Collecting the pipeline's results (`outputs` and `zip_file` in
    galaxy_client.py): four result files are moved, in a fixed order, from
    below the work directory to the destinations Galaxy asked for, and then
    every entry of the report directory whose name ends with ".json" is
    written into one ZIP archive under its bare name. A missing result file
    aborts the rest; the moves done before it stay done. */
module Outputs {
  import opened Results
  import opened Seqs
  import opened Paths

  // ---------------------------------------------------------------------
  // Where the results are
  // ---------------------------------------------------------------------

  /** The names the pipeline gives its result directories and files. The
      four file names are the project name followed by a fixed tail. */
  datatype Layout = Layout(
    results: string,
    report: string,
    fasta: string,
    esvTable: string,
    summaryReport: string,
    multiqcDir: string,
    multiqcReport: string,
    esvSequences: string)

  /** Directory names are plain names, tails are relative parts, and the
      four result paths have strictly increasing lengths. */
  predicate ValidLayout(lay: Layout)
  {
    && IsPlainName(lay.results) && IsPlainName(lay.report) && IsPlainName(lay.fasta)
    && IsRelativePart(lay.esvTable) && IsRelativePart(lay.summaryReport)
    && IsRelativePart(lay.multiqcDir) && IsRelativePart(lay.multiqcReport)
    && IsRelativePart(lay.esvSequences)
    && |lay.report| + |lay.esvTable| < |lay.report| + |lay.summaryReport|
    && |lay.report| + |lay.summaryReport| < |lay.fasta| + |lay.esvSequences|
    && |lay.fasta| + |lay.esvSequences| < |lay.report| + |lay.multiqcDir| + 1 + |lay.multiqcReport|
  }

  /** The layout `outputs` expects below the work directory. */
  const Galaxy: Layout := Layout(
    "Results", "report", "ESVs_fasta",
    "_ESV_table.tsv", "_summary_report.tsv",
    "_multiqc_reports", "_multiqc_report.html",
    "_esv_sequences.fasta")

  lemma GalaxyValid()
    ensures ValidLayout(Galaxy)
  {
  }

  /** `os.path.join(work, "Results", "report")`. */
  function ReportDir(lay: Layout, work: string): string
  {
    JoinAll(work, [lay.results, lay.report])
  }

  function EsvTableSource(lay: Layout, work: string, project: string): string
  {
    JoinAll(work, [lay.results, lay.report, project + lay.esvTable])
  }

  function SummaryReportSource(lay: Layout, work: string, project: string): string
  {
    JoinAll(work, [lay.results, lay.report, project + lay.summaryReport])
  }

  function MultiqcReportSource(lay: Layout, work: string, project: string): string
  {
    JoinAll(work, [lay.results, lay.report, project + lay.multiqcDir, project + lay.multiqcReport])
  }

  function EsvSequencesSource(lay: Layout, work: string, project: string): string
  {
    JoinAll(work, [lay.results, lay.fasta, project + lay.esvSequences])
  }

  /** The four result files, in the order `outputs` moves them. */
  function Sources(lay: Layout, work: string, project: string): seq<string>
  {
    [EsvTableSource(lay, work, project), SummaryReportSource(lay, work, project),
     MultiqcReportSource(lay, work, project), EsvSequencesSource(lay, work, project)]
  }

  /** A work directory as `main` builds it: non-empty, no trailing '/'. */
  predicate IsWorkDir(work: string)
  {
    work != [] && work[|work| - 1] != Slash
  }

  /** A project name that does not make the joined file names absolute. */
  predicate IsRelativeProject(project: string)
  {
    project == [] || project[0] != Slash
  }

  /** A project name followed by a relative tail is a relative part. */
  lemma ProjectFileIsRelative(project: string, tail: string)
    requires IsRelativeProject(project) && IsRelativePart(tail)
    ensures IsRelativePart(project + tail)
  {
    var x := project + tail;
    assert x[|x| - 1] == tail[|tail| - 1];
    if project == [] {
      assert x == tail;
    } else {
      assert x[0] == project[0];
    }
  }

  /** Below a work directory, `join` of three relative parts puts exactly
      one '/' before each. */
  lemma JoinThree(work: string, a: string, b: string, c: string)
    requires IsWorkDir(work)
    requires IsRelativePart(a) && IsRelativePart(b) && IsRelativePart(c)
    ensures JoinAll(work, [a, b, c]) == work + [Slash] + a + [Slash] + b + [Slash] + c
  {
    JoinAllRelative(work, [a, b, c]);
    assert [a, b, c][..2] == [a, b];
    assert [a, b][..1] == [a];
    assert [a][..0] == [];
    assert Below([a]) == [Slash] + a;
    assert Below([a, b]) == [Slash] + a + [Slash] + b;
    assert Below([a, b, c]) == [Slash] + a + [Slash] + b + [Slash] + c;
  }

  /** Likewise for four relative parts. */
  lemma JoinFour(work: string, a: string, b: string, c: string, d: string)
    requires IsWorkDir(work)
    requires IsRelativePart(a) && IsRelativePart(b) && IsRelativePart(c) && IsRelativePart(d)
    ensures JoinAll(work, [a, b, c, d]) == work + [Slash] + a + [Slash] + b + [Slash] + c + [Slash] + d
  {
    JoinThree(work, a, b, c);
    JoinAllRelative(work, [a, b, c]);
    assert [a, b, c, d][..3] == [a, b, c];
    var j := JoinAll(work, [a, b, c]);
    assert JoinAll(work, [a, b, c, d]) == Join(j, d);
    assert j[|j| - 1] == c[|c| - 1];
  }

  /** A plain directory name is a relative part. */
  lemma PlainIsRelative(x: string)
    requires IsPlainName(x)
    ensures IsRelativePart(x)
  {
    assert x[0] in x && x[|x| - 1] in x;
  }

  /** For a well-formed work directory and project name the ESV table sits
      at `<work>/Results/report/<project>_ESV_table.tsv`, with exactly one
      '/' between the parts. */
  lemma EsvTableLayout(lay: Layout, work: string, project: string)
    requires ValidLayout(lay) && IsWorkDir(work) && IsRelativeProject(project)
    ensures EsvTableSource(lay, work, project)
            == work + [Slash] + lay.results + [Slash] + lay.report + [Slash] + project + lay.esvTable
  {
    ProjectFileIsRelative(project, lay.esvTable);
    PlainIsRelative(lay.results);
    PlainIsRelative(lay.report);
    JoinThree(work, lay.results, lay.report, project + lay.esvTable);
  }

  /** The summary report sits at
      `<work>/Results/report/<project>_summary_report.tsv`. */
  lemma SummaryReportLayout(lay: Layout, work: string, project: string)
    requires ValidLayout(lay) && IsWorkDir(work) && IsRelativeProject(project)
    ensures SummaryReportSource(lay, work, project)
            == work + [Slash] + lay.results + [Slash] + lay.report + [Slash] + project + lay.summaryReport
  {
    ProjectFileIsRelative(project, lay.summaryReport);
    PlainIsRelative(lay.results);
    PlainIsRelative(lay.report);
    JoinThree(work, lay.results, lay.report, project + lay.summaryReport);
  }

  /** The MultiQC report sits at
      `<work>/Results/report/<project>_multiqc_reports/<project>_multiqc_report.html`. */
  lemma MultiqcReportLayout(lay: Layout, work: string, project: string)
    requires ValidLayout(lay) && IsWorkDir(work) && IsRelativeProject(project)
    ensures MultiqcReportSource(lay, work, project)
            == work + [Slash] + lay.results + [Slash] + lay.report + [Slash] + project + lay.multiqcDir
               + [Slash] + project + lay.multiqcReport
  {
    ProjectFileIsRelative(project, lay.multiqcDir);
    ProjectFileIsRelative(project, lay.multiqcReport);
    PlainIsRelative(lay.results);
    PlainIsRelative(lay.report);
    JoinFour(work, lay.results, lay.report, project + lay.multiqcDir, project + lay.multiqcReport);
  }

  /** The ESV sequences sit at
      `<work>/Results/ESVs_fasta/<project>_esv_sequences.fasta`. */
  lemma EsvSequencesLayout(lay: Layout, work: string, project: string)
    requires ValidLayout(lay) && IsWorkDir(work) && IsRelativeProject(project)
    ensures EsvSequencesSource(lay, work, project)
            == work + [Slash] + lay.results + [Slash] + lay.fasta + [Slash] + project + lay.esvSequences
  {
    ProjectFileIsRelative(project, lay.esvSequences);
    PlainIsRelative(lay.results);
    PlainIsRelative(lay.fasta);
    JoinThree(work, lay.results, lay.fasta, project + lay.esvSequences);
  }

  /** The four result files are four different paths (their lengths grow
      strictly in move order), so no move consumes another's file. */
  lemma SourcesDistinct(lay: Layout, work: string, project: string)
    requires ValidLayout(lay) && IsWorkDir(work) && IsRelativeProject(project)
    ensures Distinct(Sources(lay, work, project))
  {
    EsvTableLayout(lay, work, project);
    SummaryReportLayout(lay, work, project);
    MultiqcReportLayout(lay, work, project);
    EsvSequencesLayout(lay, work, project);
    var s := Sources(lay, work, project);
    assert |s[0]| < |s[1]| < |s[3]| < |s[2]|;
  }

  // ---------------------------------------------------------------------
  // Moving the results
  // ---------------------------------------------------------------------

  /** The destinations Galaxy passes: one for each of the four result
      files, and the path of the JSON report archive. */
  datatype Destinations = Destinations(
    esvTable: string,
    summaryReport: string,
    multiqcReport: string,
    esvSequences: string,
    jsonReports: string)

  /** The destinations of the four moves, in the order `outputs` makes them. */
  function Targets(dest: Destinations): seq<string>
  {
    [dest.esvTable, dest.summaryReport, dest.multiqcReport, dest.esvSequences]
  }

  datatype Move = Move(source: string, target: string)

  /** The moves of `outputs`, in the order it makes them: the i-th result
      file to the i-th destination. */
  function OutputMoves(lay: Layout, work: string, project: string, dest: Destinations): (plan: seq<Move>)
    ensures |plan| == 4
    ensures forall i :: 0 <= i < 4 ==>
              plan[i] == Move(Sources(lay, work, project)[i], Targets(dest)[i])
  {
    [Move(EsvTableSource(lay, work, project), dest.esvTable),
     Move(SummaryReportSource(lay, work, project), dest.summaryReport),
     Move(MultiqcReportSource(lay, work, project), dest.multiqcReport),
     Move(EsvSequencesSource(lay, work, project), dest.esvSequences)]
  }

  /** What a file holds: data the pipeline wrote, or a ZIP archive given
      by its entries. */
  datatype Content = Data(text: string) | ZipOf(entries: seq<ArchiveEntry>)

  /** The files present, by path, with their contents. */
  type FileSystem = map<string, Content>

  /** `shutil.move(source, target)` of a file onto a file path: the
      contents now live at the target (replacing what was there) and no
      longer at the source; nothing else changes. */
  function MoveFile(fs: FileSystem, m: Move): (fs': FileSystem)
    requires m.source in fs
    ensures m.target in fs' && fs'[m.target] == fs[m.source]
    ensures m.source != m.target ==> m.source !in fs'
    ensures forall p :: p != m.source && p != m.target ==>
              (p in fs' <==> p in fs) && (p in fs ==> fs'[p] == fs[p])
  {
    (fs - {m.source})[m.target := fs[m.source]]
  }

  /** The state after a run of moves, or the first source found missing
      together with the state at that moment. */
  datatype MoveOutcome = Moved(fs: FileSystem) | SourceMissing(path: string, fs: FileSystem)

  /** Make the moves one after the other; a missing source raises and ends
      the run, leaving the earlier moves done. */
  function RunMoves(fs: FileSystem, plan: seq<Move>): MoveOutcome
    decreases |plan|
  {
    if |plan| == 0 then Moved(fs)
    else if plan[0].source !in fs then SourceMissing(plan[0].source, fs)
    else RunMoves(MoveFile(fs, plan[0]), plan[1..])
  }

  /** A run that stops stops at the first move whose source is missing:
      every move before it was made, and nothing after it. */
  lemma {:induction false} AbortIsFirstMissing(fs: FileSystem, plan: seq<Move>)
    ensures RunMoves(fs, plan).SourceMissing? ==>
              exists i :: 0 <= i < |plan| && RunMoves(fs, plan[..i]) == Moved(RunMoves(fs, plan).fs)
                          && plan[i].source == RunMoves(fs, plan).path
                          && RunMoves(fs, plan).path !in RunMoves(fs, plan).fs
    decreases |plan|
  {
    if |plan| > 0 && plan[0].source in fs && RunMoves(fs, plan).SourceMissing? {
      var fs1 := MoveFile(fs, plan[0]);
      var rest := plan[1..];
      AbortIsFirstMissing(fs1, rest);
      var i :| 0 <= i < |rest| && RunMoves(fs1, rest[..i]) == Moved(RunMoves(fs1, rest).fs)
               && rest[i].source == RunMoves(fs1, rest).path
               && RunMoves(fs1, rest).path !in RunMoves(fs1, rest).fs;
      assert plan[..i + 1][1..] == rest[..i];
      assert RunMoves(fs, plan[..i + 1]) == RunMoves(fs1, rest[..i]);
    } else if |plan| > 0 && RunMoves(fs, plan).SourceMissing? {
      assert RunMoves(fs, plan[..0]) == Moved(fs);
    }
  }

  /** Every source is present, and no path is the source or the target of
      two moves or both a source and a target. */
  predicate Separated(fs: FileSystem, plan: seq<Move>)
  {
    && (forall i :: 0 <= i < |plan| ==> plan[i].source in fs)
    && (forall i, j :: 0 <= i < j < |plan| ==> plan[i].source != plan[j].source)
    && (forall i, j :: 0 <= i < j < |plan| ==> plan[i].target != plan[j].target)
    && (forall i, j :: 0 <= i < |plan| && 0 <= j < |plan| ==> plan[i].target != plan[j].source)
  }

  /** After the first move of a separated run the rest is still separated. */
  lemma SeparatedTail(fs: FileSystem, plan: seq<Move>)
    requires |plan| > 0 && Separated(fs, plan)
    ensures Separated(MoveFile(fs, plan[0]), plan[1..])
  {
    var m := plan[0];
    var rest := plan[1..];
    forall i | 0 <= i < |rest|
      ensures rest[i].source in MoveFile(fs, m)
    {
      assert rest[i] == plan[i + 1];
    }
    forall i, j | 0 <= i < j < |rest|
      ensures rest[i].source != rest[j].source && rest[i].target != rest[j].target
    {
      assert rest[i] == plan[i + 1] && rest[j] == plan[j + 1];
    }
    forall i, j | 0 <= i < |rest| && 0 <= j < |rest|
      ensures rest[i].target != rest[j].source
    {
      assert rest[i] == plan[i + 1] && rest[j] == plan[j + 1];
    }
  }

  /** A separated run completes, and each target ends up holding its
      source's original contents. */
  lemma {:induction false} SeparatedRunDelivers(fs: FileSystem, plan: seq<Move>)
    requires Separated(fs, plan)
    ensures RunMoves(fs, plan).Moved?
    ensures forall i :: 0 <= i < |plan| ==>
              plan[i].target in RunMoves(fs, plan).fs
              && RunMoves(fs, plan).fs[plan[i].target] == fs[plan[i].source]
    decreases |plan|
  {
    if |plan| > 0 {
      var fs1 := MoveFile(fs, plan[0]);
      var rest := plan[1..];
      SeparatedTail(fs, plan);
      SeparatedRunDelivers(fs1, rest);
      var out := RunMoves(fs1, rest).fs;
      forall i | 0 <= i < |plan|
        ensures plan[i].target in out && out[plan[i].target] == fs[plan[i].source]
      {
        if i == 0 {
          SeparatedRunKeeps(fs1, rest, plan[0].target);
        } else {
          assert plan[i] == rest[i - 1];
          assert plan[i].source != plan[0].source && plan[i].source != plan[0].target;
        }
      }
    }
  }

  /** A separated run leaves every path that is neither a source nor a
      target as it was. */
  lemma {:induction false} SeparatedRunKeeps(fs: FileSystem, plan: seq<Move>, p: string)
    requires Separated(fs, plan)
    requires forall i :: 0 <= i < |plan| ==> p != plan[i].source && p != plan[i].target
    ensures RunMoves(fs, plan).Moved?
    ensures p in RunMoves(fs, plan).fs <==> p in fs
    ensures p in fs ==> RunMoves(fs, plan).fs[p] == fs[p]
    decreases |plan|
  {
    if |plan| > 0 {
      SeparatedTail(fs, plan);
      assert forall i :: 0 <= i < |plan| - 1 ==> plan[1..][i] == plan[i + 1];
      SeparatedRunKeeps(MoveFile(fs, plan[0]), plan[1..], p);
    }
  }

  /** A separated run removes every source. */
  lemma {:induction false} SeparatedRunEmptiesSources(fs: FileSystem, plan: seq<Move>)
    requires Separated(fs, plan)
    ensures RunMoves(fs, plan).Moved?
    ensures forall i :: 0 <= i < |plan| ==> plan[i].source !in RunMoves(fs, plan).fs
    decreases |plan|
  {
    if |plan| > 0 {
      var fs1 := MoveFile(fs, plan[0]);
      var rest := plan[1..];
      SeparatedTail(fs, plan);
      SeparatedRunEmptiesSources(fs1, rest);
      var out := RunMoves(fs1, rest).fs;
      forall i | 0 <= i < |plan|
        ensures plan[i].source !in out
      {
        if i == 0 {
          assert plan[0].source != plan[0].target;
          SeparatedRunKeeps(fs1, rest, plan[0].source);
        } else {
          assert plan[i] == rest[i - 1];
        }
      }
    }
  }

  // ---------------------------------------------------------------------
  // The JSON reports
  // ---------------------------------------------------------------------

  predicate IsJsonName(e: string)
  {
    EndsWith(e, ".json")
  }

  /** The report-directory entries `outputs` zips, in listing order. */
  function JsonReports(listing: seq<string>): seq<string>
  {
    Filter(IsJsonName, listing)
  }

  /** One file written into an archive: where it is read from and the name
      it is stored under. */
  datatype ArchiveEntry = ArchiveEntry(source: string, arcname: string)

  /** `zip_file`: store a file under its basename. The stored name holds no
      '/', and the file's path is its head followed by the stored name. */
  function ZipFileEntry(file: string): (e: ArchiveEntry)
    ensures e.source == file
    ensures Slash !in e.arcname
    ensures file == Head(file) + e.arcname
  {
    HeadBasenameSplit(file);
    ArchiveEntry(file, Basename(file))
  }

  /** The entries of the JSON report archive, in the order they are
      written. */
  function JsonArchive(lay: Layout, work: string, listing: seq<string>): (entries: seq<ArchiveEntry>)
    ensures |entries| == |JsonReports(listing)|
  {
    var reports := JsonReports(listing);
    seq(|reports|, i requires 0 <= i < |reports| => ZipFileEntry(Join(ReportDir(lay, work), reports[i])))
  }

  /** The report directory is a non-empty path without a trailing '/'. */
  lemma ReportDirShape(lay: Layout, work: string)
    requires ValidLayout(lay)
    ensures ReportDir(lay, work) != [] && ReportDir(lay, work)[|ReportDir(lay, work)| - 1] != Slash
  {
    JoinAllGrows(work, [lay.results, lay.report]);
  }

  /** When the listing holds plain names (as `os.listdir` returns), the
      archive holds exactly the entries whose names end with ".json", in
      listing order, each read from the report directory and stored under
      its own name. */
  lemma JsonArchiveContents(lay: Layout, work: string, listing: seq<string>)
    requires ValidLayout(lay)
    requires forall k :: 0 <= k < |listing| ==> IsPlainName(listing[k])
    ensures var entries := JsonArchive(lay, work, listing);
            forall i :: 0 <= i < |entries| ==>
              && entries[i].arcname == JsonReports(listing)[i]
              && entries[i].source == Join(ReportDir(lay, work), entries[i].arcname)
              && Dirname(entries[i].source) == ReportDir(lay, work)
    ensures forall e :: e in JsonReports(listing) <==> e in listing && IsJsonName(e)
  {
    var reports := JsonReports(listing);
    var entries := JsonArchive(lay, work, listing);
    FilterMembership(IsJsonName, listing);
    ReportDirShape(lay, work);
    forall i | 0 <= i < |entries|
      ensures entries[i].arcname == reports[i]
      ensures entries[i].source == Join(ReportDir(lay, work), reports[i])
      ensures Dirname(entries[i].source) == ReportDir(lay, work)
    {
      assert reports[i] in reports;
      var k :| 0 <= k < |listing| && listing[k] == reports[i];
      BasenameOfJoin(ReportDir(lay, work), reports[i]);
      DirnameOfJoin(ReportDir(lay, work), reports[i]);
    }
  }

  /** Distinct listing entries are stored under distinct names: no report
      overwrites another inside the archive. */
  lemma JsonArcnamesDistinct(lay: Layout, work: string, listing: seq<string>)
    requires ValidLayout(lay)
    requires forall k :: 0 <= k < |listing| ==> IsPlainName(listing[k])
    requires Distinct(listing)
    ensures var entries := JsonArchive(lay, work, listing);
            forall i, j :: 0 <= i < j < |entries| ==> entries[i].arcname != entries[j].arcname
  {
    JsonArchiveContents(lay, work, listing);
    FilterKeepsDistinct(IsJsonName, listing);
  }

  // ---------------------------------------------------------------------
  // `outputs`
  // ---------------------------------------------------------------------

  /** What `outputs` leaves behind: the file system after the four moves
      and the archive write, with the JSON archive's entries, or the result
      file found missing and the file system at that moment (no archive is
      written then). */
  datatype OutputsResult =
    | Delivered(fs: FileSystem, jsonArchive: seq<ArchiveEntry>)
    | Aborted(missing: string, fs: FileSystem)

  /** `outputs(work, args)`: `listing` is what `os.listdir` returns for the
      report directory once the moves are done. */
  function Collect(fs: FileSystem, work: string, project: string, dest: Destinations,
                   listing: seq<string>): OutputsResult
  {
    match RunMoves(fs, OutputMoves(Galaxy, work, project, dest))
    case SourceMissing(p, st) => Aborted(p, st)
    case Moved(st) =>
      var archive := JsonArchive(Galaxy, work, listing);
      Delivered(st[dest.jsonReports := ZipOf(archive)], archive)
  }

  /** Destinations that differ from each other and from the result files. */
  predicate FreshDestinations(work: string, project: string, dest: Destinations)
  {
    && Distinct(Targets(dest))
    && (forall i, j :: 0 <= i < 4 && 0 <= j < 4 ==> Targets(dest)[i] != Sources(Galaxy, work, project)[j])
    && (forall i :: 0 <= i < 4 ==>
          dest.jsonReports != Targets(dest)[i] && dest.jsonReports != Sources(Galaxy, work, project)[i])
  }

  /** With the four result files present and fresh destinations, `outputs`
      delivers: every destination receives its result file, the result
      files are gone from the work directory, and the JSON archive is
      written at its destination. */
  lemma CollectDelivers(fs: FileSystem, work: string, project: string, dest: Destinations,
                        listing: seq<string>)
    requires IsWorkDir(work) && IsRelativeProject(project)
    requires forall i :: 0 <= i < 4 ==> Sources(Galaxy, work, project)[i] in fs
    requires FreshDestinations(work, project, dest)
    ensures Collect(fs, work, project, dest, listing).Delivered?
    ensures Collect(fs, work, project, dest, listing).jsonArchive == JsonArchive(Galaxy, work, listing)
    ensures forall i :: 0 <= i < 4 ==>
              && Targets(dest)[i] in Collect(fs, work, project, dest, listing).fs
              && Collect(fs, work, project, dest, listing).fs[Targets(dest)[i]]
                 == fs[Sources(Galaxy, work, project)[i]]
              && Sources(Galaxy, work, project)[i] !in Collect(fs, work, project, dest, listing).fs
    ensures dest.jsonReports in Collect(fs, work, project, dest, listing).fs
    ensures Collect(fs, work, project, dest, listing).fs[dest.jsonReports]
            == ZipOf(JsonArchive(Galaxy, work, listing))
  {
    var plan := OutputMoves(Galaxy, work, project, dest);
    GalaxyValid();
    SourcesDistinct(Galaxy, work, project);
    assert Separated(fs, plan);
    SeparatedRunDelivers(fs, plan);
    SeparatedRunEmptiesSources(fs, plan);
  }

  /** With the four result files present and fresh destinations, every
      path that is neither a result file, nor a destination, nor the JSON
      archive is untouched. */
  lemma CollectLeavesOthers(fs: FileSystem, work: string, project: string, dest: Destinations,
                            listing: seq<string>, p: string)
    requires IsWorkDir(work) && IsRelativeProject(project)
    requires forall i :: 0 <= i < 4 ==> Sources(Galaxy, work, project)[i] in fs
    requires FreshDestinations(work, project, dest)
    requires p !in Sources(Galaxy, work, project) && p !in Targets(dest) && p != dest.jsonReports
    ensures Collect(fs, work, project, dest, listing).Delivered?
    ensures p in Collect(fs, work, project, dest, listing).fs <==> p in fs
    ensures p in fs ==> Collect(fs, work, project, dest, listing).fs[p] == fs[p]
  {
    var plan := OutputMoves(Galaxy, work, project, dest);
    GalaxyValid();
    SourcesDistinct(Galaxy, work, project);
    assert Separated(fs, plan);
    SeparatedRunKeeps(fs, plan, p);
  }

  /** A missing ESV table stops `outputs` at once: nothing is moved and no
      archive is written. */
  lemma MissingTableMovesNothing(fs: FileSystem, work: string, project: string, dest: Destinations,
                                 listing: seq<string>)
    requires EsvTableSource(Galaxy, work, project) !in fs
    ensures Collect(fs, work, project, dest, listing) == Aborted(EsvTableSource(Galaxy, work, project), fs)
  {
  }

  /** `outputs` stops exactly at the first result file that is missing
      when its turn comes; the moves before it stay done. */
  lemma CollectAbortsAtFirstMissing(fs: FileSystem, work: string, project: string, dest: Destinations,
                                    listing: seq<string>)
    ensures var plan := OutputMoves(Galaxy, work, project, dest);
            var r := Collect(fs, work, project, dest, listing);
            r.Aborted? ==>
              exists i :: 0 <= i < 4 && RunMoves(fs, plan[..i]) == Moved(r.fs)
                          && plan[i].source == r.missing && r.missing !in r.fs
  {
    AbortIsFirstMissing(fs, OutputMoves(Galaxy, work, project, dest));
  }
}

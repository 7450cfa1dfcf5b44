/** The driver (`main` in galaxy_client.py): reject an input archive name
    with a space, stage the FASTQ files into `<cwd>/input_data`, build the
    `edentity` command that reads them from there and works in
    `<cwd>/<project>`, and, once the pipeline has run, collect its results
    from that work directory. The pipeline itself is outside the model:
    the file system it leaves behind is a parameter. */
module Job {
  import opened Results
  import opened Seqs
  import opened Paths
  import opened FastqSelection
  import opened Flatten
  import opened Command
  import opened Outputs

  /** The directory the FASTQ files are staged in, below the current one. */
  const InputDataName: string := "input_data"

  lemma InputDataNameIsPlain()
    ensures IsPlainName(InputDataName)
  {
  }

  datatype JobError =
    | SpaceInInputName
    | Staging(reason: StageError)

  /** Everything `main` has decided before the pipeline runs. */
  datatype Job = Job(inputDir: string, workDir: string, staged: Staged, command: seq<string>)

  /** The steps of `main` up to the pipeline run. `cwd` is the current
      directory (an absolute path, so non-empty); `inputName` is the path
      of the input archive and `archive` what is found there. */
  function PrepareJob(cwd: string, inputName: string, archive: Archive, cfg: Config, project: string)
    : Result<Job, JobError>
    requires cwd != []
  {
    if ' ' in inputName then Err(SpaceInInputName)
    else
      var inputDir := Join(cwd, InputDataName);
      var workDir := Join(cwd, project);
      match ExtractFastqFiles(archive, inputDir)
      case Err(e) => Err(Staging(e))
      case Ok(staged) => Ok(Job(inputDir, workDir, staged, BuildCommand(cfg, inputDir, workDir)))
  }

  /** What a run of `main` ends in: rejected before the pipeline, or the
      job together with what collecting the results did. */
  datatype ClientOutcome =
    | Rejected(error: JobError)
    | Finished(job: Job, collected: OutputsResult)

  /** `main`: `produced` is the file system after the pipeline has run and
      `listing` what the report directory then lists. */
  function RunClient(cwd: string, inputName: string, archive: Archive, cfg: Config, project: string,
                     dest: Destinations, produced: FileSystem, listing: seq<string>): ClientOutcome
    requires cwd != []
  {
    match PrepareJob(cwd, inputName, archive, cfg, project)
    case Err(e) => Rejected(e)
    case Ok(job) => Finished(job, Collect(produced, job.workDir, project, dest, listing))
  }

  /** The input directory is a non-empty path without a trailing '/'. */
  lemma InputDirShape(cwd: string)
    ensures Join(cwd, InputDataName) != []
    ensures Join(cwd, InputDataName)[|Join(cwd, InputDataName)| - 1] != Slash
  {
    InputDataNameIsPlain();
    JoinAllGrows(cwd, [InputDataName]);
    assert JoinAll(cwd, [InputDataName]) == Join(JoinAll(cwd, []), InputDataName);
  }

  /** The space check comes first: a name with a space is rejected for
      that reason whatever the archive holds, and a name without one is
      never rejected for it. */
  lemma SpaceRejectedFirst(cwd: string, inputName: string, archive: Archive, cfg: Config, project: string)
    requires cwd != []
    ensures PrepareJob(cwd, inputName, archive, cfg, project) == Err(SpaceInInputName)
            <==> ' ' in inputName
  {
  }

  /** A name without a space goes on to staging, and a staging failure is
      what `main` ends with. */
  lemma StagingFailureStops(cwd: string, inputName: string, archive: Archive, cfg: Config, project: string)
    requires cwd != [] && ' ' !in inputName
    ensures var staging := ExtractFastqFiles(archive, Join(cwd, InputDataName));
            && (staging.Err? ==> PrepareJob(cwd, inputName, archive, cfg, project) == Err(Staging(staging.error)))
            && (staging.Ok? ==> PrepareJob(cwd, inputName, archive, cfg, project).Ok?)
  {
    InputDirShape(cwd);
  }

  /** Staging an accepted archive whose moves are not blocked puts every
      selected file directly in the staging directory, under its entry's
      basename. */
  lemma StagedInto(names: seq<string>, outDir: string)
    requires outDir != [] && outDir[|outDir| - 1] != Slash
    requires GetFilenames(names).Ok? && !MoveBlocked(GetFilenames(names).value)
    ensures ExtractFastqFiles(Zip(names), outDir).Ok?
    ensures var staged := ExtractFastqFiles(Zip(names), outDir).value;
            && |staged.placements| == |staged.files|
            && (forall i :: 0 <= i < |staged.placements| ==>
                  Dirname(staged.placements[i].finalAt) == outDir
                  && Basename(staged.placements[i].finalAt) == Basename(staged.files[i]))
  {
    StagingBlockedIff(names, outDir);
    var staged := ExtractFastqFiles(Zip(names), outDir).value;
    var files := staged.files;
    assert files == GetFilenames(names).value;
    assert forall i :: 0 <= i < |files| ==> IsFastqName(files[i]);
    forall i | 0 <= i < |staged.placements|
      ensures Dirname(staged.placements[i].finalAt) == outDir
      ensures Basename(staged.placements[i].finalAt) == Basename(files[i])
    {
      FastqBasenameIsNamePart(files[i]);
      DirnameOfJoin(outDir, Basename(files[i]));
      BasenameOfJoin(outDir, Basename(files[i]));
    }
  }

  /** For an input name without a space and a ZIP archive whose listing is
      accepted and whose moves are not blocked, `main` gets past staging; its command reads from the
      directory the FASTQ files were staged in and works in
      `<cwd>/<project>`. */
  lemma CommandReadsStagedFiles(cwd: string, inputName: string, names: seq<string>, cfg: Config,
                                project: string)
    requires cwd != [] && ' ' !in inputName
    requires GetFilenames(names).Ok? && !MoveBlocked(GetFilenames(names).value)
    ensures PrepareJob(cwd, inputName, Zip(names), cfg, project).Ok?
    ensures var job := PrepareJob(cwd, inputName, Zip(names), cfg, project).value;
            && job.inputDir == Join(cwd, InputDataName)
            && job.workDir == Join(cwd, project)
            && |job.command| >= 35
            && job.command[1] == Edentity.prefixFlags[0] && job.command[2] == job.inputDir
            && job.command[5] == Edentity.prefixFlags[2] && job.command[6] == job.workDir
            && |job.staged.placements| == |job.staged.files|
            && (forall i :: 0 <= i < |job.staged.placements| ==>
                  Dirname(job.staged.placements[i].finalAt) == job.command[2])
  {
    var inputDir := Join(cwd, InputDataName);
    var workDir := Join(cwd, project);
    InputDirShape(cwd);
    StagedInto(names, inputDir);
    var staged := ExtractFastqFiles(Zip(names), inputDir).value;
    var cmd := BuildCommand(cfg, inputDir, workDir);
    PreparedJob(cwd, inputName, Zip(names), cfg, project, staged);
    JobFacts(cfg, inputDir, workDir, staged, cmd);
  }

  /** Once staging succeeds, the job is made of the staging result and
      the command built for the two directories. */
  lemma PreparedJob(cwd: string, inputName: string, archive: Archive, cfg: Config, project: string,
                    staged: Staged)
    requires cwd != [] && ' ' !in inputName
    requires ExtractFastqFiles(archive, Join(cwd, InputDataName)) == Ok(staged)
    ensures PrepareJob(cwd, inputName, archive, cfg, project)
            == Ok(Job(Join(cwd, InputDataName), Join(cwd, project), staged,
                      BuildCommand(cfg, Join(cwd, InputDataName), Join(cwd, project))))
  {
  }

  /** The facts above, for the parts of a job taken apart. */
  lemma JobFacts(cfg: Config, inputDir: string, workDir: string, staged: Staged,
                 cmd: seq<string>)
    requires inputDir != [] && inputDir[|inputDir| - 1] != Slash
    requires |staged.placements| == |staged.files|
    requires forall i :: 0 <= i < |staged.placements| ==> Dirname(staged.placements[i].finalAt) == inputDir
    requires cmd == BuildCommand(cfg, inputDir, workDir)
    ensures |cmd| >= 35
    ensures cmd[1] == Edentity.prefixFlags[0] && cmd[2] == inputDir
    ensures cmd[5] == Edentity.prefixFlags[2] && cmd[6] == workDir
    ensures forall i :: 0 <= i < |staged.placements| ==> Dirname(staged.placements[i].finalAt) == cmd[2]
  {
    CommandDirectories(cfg, inputDir, workDir);
    CommandSuffix(cfg, inputDir, workDir);
  }

  /** For a plain project name the work directory is a non-empty path
      without a trailing '/'. */
  lemma WorkDirShape(cwd: string, project: string)
    requires IsPlainName(project)
    ensures IsWorkDir(Join(cwd, project)) && IsRelativeProject(project)
  {
    JoinAllGrows(cwd, [project]);
    assert JoinAll(cwd, [project]) == Join(JoinAll(cwd, []), project);
    assert project[0] in project;
  }

  /** For an input name without a space, a ZIP archive whose listing is
      accepted and whose moves are not blocked, a plain project name, a pipeline that left the four result
      files in the work directory the command names, and fresh
      destinations, `main` ends with every result file delivered to its
      destination and the JSON archive written at its own. */
  lemma ClientDelivers(cwd: string, inputName: string, names: seq<string>, cfg: Config, project: string,
                       dest: Destinations, produced: FileSystem, listing: seq<string>)
    requires cwd != [] && ' ' !in inputName && IsPlainName(project)
    requires GetFilenames(names).Ok? && !MoveBlocked(GetFilenames(names).value)
    requires forall i :: 0 <= i < 4 ==> Sources(Galaxy, Join(cwd, project), project)[i] in produced
    requires FreshDestinations(Join(cwd, project), project, dest)
    ensures RunClient(cwd, inputName, Zip(names), cfg, project, dest, produced, listing).Finished?
    ensures var r := RunClient(cwd, inputName, Zip(names), cfg, project, dest, produced, listing);
            && r.job.command[6] == Join(cwd, project)
            && r.collected.Delivered?
            && r.collected.jsonArchive == JsonArchive(Galaxy, Join(cwd, project), listing)
            && dest.jsonReports in r.collected.fs
            && r.collected.fs[dest.jsonReports] == ZipOf(r.collected.jsonArchive)
            && (forall i :: 0 <= i < 4 ==>
                  && Targets(dest)[i] in r.collected.fs
                  && r.collected.fs[Targets(dest)[i]] == produced[Sources(Galaxy, Join(cwd, project), project)[i]])
  {
    var work := Join(cwd, project);
    CommandReadsStagedFiles(cwd, inputName, names, cfg, project);
    WorkDirShape(cwd, project);
    CollectDelivers(produced, work, project, dest, listing);
  }
}

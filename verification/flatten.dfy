/** Staging of the read files (`extract_fastq_files` in galaxy_client.py):
    the archive must be a ZIP file, the selected entries are extracted below
    the staging directory, and a walk over that directory moves every file
    that is not directly in it to its top level, under its basename. */
module Flatten {
  import opened Results
  import opened Seqs
  import opened Paths
  import opened FastqSelection

  /** What the walk does with one extracted file: `extractedAt` is where the
      extraction wrote it, `finalAt` where it lies after the walk, and
      `moved` whether the walk moved it. */
  datatype Placement = Placement(extractedAt: string, finalAt: string, moved: bool)

  /** The walk's step for the file extracted at `outDir/parts[0]/.../parts[n-1]`.
      `os.walk` reports it under the root `JoinAll(outDir, parts[..n-1])` with
      file name `parts[n-1]`; when joining root and name differs from joining
      `outDir` and name, `shutil.move` moves it into `outDir`, where it keeps
      its name. */
  function Place(outDir: string, parts: seq<string>): (pl: Placement)
    requires outDir != []
    requires |parts| > 0
    requires forall k :: 0 <= k < |parts| ==> IsPlainName(parts[k])
    ensures pl.extractedAt == JoinAll(outDir, parts)
    ensures pl.finalAt == Join(outDir, parts[|parts| - 1])
    ensures pl.moved <==> |parts| > 1
  {
    var dirs := parts[..|parts| - 1];
    var f := parts[|parts| - 1];
    var root := JoinAll(outDir, dirs);
    var src := Join(root, f);
    NestedPathDiffers(outDir, dirs, f);
    if src != Join(outDir, f) then Placement(src, Join(outDir, f), true)
    else Placement(src, src, false)
  }

  /** A file below a sub-directory never has the path it would have at the
      top of `outDir`; a file at the top has exactly that path. */
  lemma NestedPathDiffers(outDir: string, dirs: seq<string>, f: string)
    requires outDir != []
    requires forall k :: 0 <= k < |dirs| ==> IsPlainName(dirs[k])
    requires IsPlainName(f)
    ensures Join(JoinAll(outDir, dirs), f) != Join(outDir, f) <==> |dirs| > 0
  {
    if |dirs| > 0 {
      JoinAllGrows(outDir, dirs);
      assert f[0] in f;
      assert |Join(JoinAll(outDir, dirs), f)| > |Join(outDir, f)|;
    }
  }

  /** The parts below the staging directory at which the extraction writes
      an entry. */
  function ExtractedParts(name: string): (parts: seq<string>)
    requires IsFastqName(name)
    ensures parts == Components(Dirname(name)) + [Basename(name)]
    ensures forall k :: 0 <= k < |parts| ==> IsPlainName(parts[k])
  {
    FastqBasenameIsNamePart(name);
    ComponentsOfEntry(name);
    ComponentsArePlain(name);
    Components(name)
  }

  /** Extraction followed by the walk, for one selected entry: it ends up
      at the top of `outDir` under its basename, and it was moved exactly
      when its dirname names a sub-directory. */
  function PlaceEntry(outDir: string, name: string): (pl: Placement)
    requires outDir != []
    requires IsFastqName(name)
    ensures pl.finalAt == Join(outDir, Basename(name))
    ensures pl.moved <==> Components(Dirname(name)) != []
  {
    Place(outDir, ExtractedParts(name))
  }

  /** Extraction followed by the walk, for each selected entry in order:
      the i-th entry is written at the join of its kept parts, ends at the
      top of `outDir` under its basename, and was moved exactly when its
      dirname names a sub-directory. */
  function StageFiles(outDir: string, files: seq<string>): (pls: seq<Placement>)
    requires outDir != []
    requires forall i :: 0 <= i < |files| ==> IsFastqName(files[i])
    ensures |pls| == |files|
    ensures forall i :: 0 <= i < |files| ==>
              && pls[i].extractedAt == JoinAll(outDir, Components(Dirname(files[i])) + [Basename(files[i])])
              && pls[i].finalAt == Join(outDir, Basename(files[i]))
              && (pls[i].moved <==> Components(Dirname(files[i])) != [])
  {
    seq(|files|, i requires 0 <= i < |files| => PlaceEntry(outDir, files[i]))
  }

  /** Where a selected entry lies once the walk is over. */
  function FinalPath(outDir: string, name: string): string
    requires outDir != []
    requires IsFastqName(name)
  {
    PlaceEntry(outDir, name).finalAt
  }

  /** Every staged file lies directly in the staging directory. */
  lemma StagedFilesAreTopLevel(outDir: string, name: string)
    requires outDir != [] && outDir[|outDir| - 1] != Slash
    requires IsFastqName(name)
    ensures Dirname(FinalPath(outDir, name)) == outDir
    ensures Basename(FinalPath(outDir, name)) == Basename(name)
  {
    FastqBasenameIsNamePart(name);
    DirnameOfJoin(outDir, Basename(name));
    BasenameOfJoin(outDir, Basename(name));
  }

  /** Why staging fails: the input is no ZIP file, the selection is
      refused, or `shutil.move` finds its destination `path` taken. */
  datatype StageError =
    | InvalidArchive
    | Selection(reason: SelectionError)
    | DestinationExists(path: string)

  /** `shutil.move(src, outDir)` refuses to move onto an existing path, and
      the extraction has created, at the top of `outDir`, the first
      directory of every nested entry. The walk therefore fails when a
      nested file (the i-th) has the name of such a directory (the j-th
      entry's). */
  predicate MoveBlocked(files: seq<string>)
  {
    exists i, j | 0 <= i < |files| && 0 <= j < |files| ::
      && Components(Dirname(files[i])) != []
      && Components(Dirname(files[j])) != []
      && Basename(files[i]) == Components(Dirname(files[j]))[0]
  }

  /** The input archive as the staging step sees it: either not a ZIP file
      at all, or a ZIP file with its entry names in archive order. */
  datatype Archive = NotZip | Zip(names: seq<string>)

  /** The outcome of staging: the selected names as listed in the archive
      (what the function returns) and what happened to each extracted file. */
  datatype Staged = Staged(files: seq<string>, placements: seq<Placement>)

  /** Extraction and walk for the accepted files. They share one dirname,
      so the only directory the extraction creates at the top of `outDir`
      is the first kept part of that dirname; a file with that name cannot
      be moved up. */
  function FlattenFiles(outDir: string, files: seq<string>): (r: Result<Staged, StageError>)
    requires outDir != [] && |files| > 0
    requires forall i :: 0 <= i < |files| ==> IsFastqName(files[i])
    ensures r.Ok? ==> r.value.files == files && |r.value.placements| == |files|
  {
    if TopNameTaken(files) then Err(DestinationExists(Join(outDir, Components(Dirname(files[0]))[0])))
    else Ok(Staged(files, StageFiles(outDir, files)))
  }

  /** Some file has the name of the first kept part of the first file's
      dirname. */
  predicate TopNameTaken(files: seq<string>)
    requires |files| > 0
  {
    var top := Components(Dirname(files[0]));
    top != [] && exists i | 0 <= i < |files| :: Basename(files[i]) == top[0]
  }

  /** `extract_fastq_files(archive, outDir)`. */
  function ExtractFastqFiles(archive: Archive, outDir: string): (r: Result<Staged, StageError>)
    requires outDir != []
    ensures archive.NotZip? ==> r == Err(InvalidArchive)
    ensures archive.Zip? && GetFilenames(archive.names).Err? ==>
              r == Err(Selection(GetFilenames(archive.names).error))
    ensures archive.Zip? && GetFilenames(archive.names).Ok? ==>
              r == FlattenFiles(outDir, GetFilenames(archive.names).value)
    ensures r.Ok? ==> archive.Zip? && r.value.files == GetFilenames(archive.names).value
    ensures r.Ok? ==> |r.value.placements| == |r.value.files|
    ensures r.Ok? ==> forall i :: 0 <= i < |r.value.files| ==>
              r.value.placements[i].finalAt == Join(outDir, Basename(r.value.files[i]))
    ensures r.Ok? ==> forall i :: 0 <= i < |r.value.files| ==>
              (r.value.placements[i].moved <==> Components(Dirname(r.value.files[i])) != [])
  {
    match archive
    case NotZip => Err(InvalidArchive)
    case Zip(names) =>
      match GetFilenames(names)
      case Err(e) => Err(Selection(e))
      case Ok(files) => FlattenFiles(outDir, files)
  }

  /** For files in one location, flattening fails exactly when a move is
      blocked, and the path reported is where a nested file would have
      gone. */
  lemma FlattenBlockedIff(outDir: string, files: seq<string>)
    requires outDir != [] && |files| > 0
    requires forall i :: 0 <= i < |files| ==> IsFastqName(files[i])
    requires OneLocation(files)
    ensures FlattenFiles(outDir, files).Err? <==> MoveBlocked(files)
    ensures var r := FlattenFiles(outDir, files);
            r.Err? ==> r.error.DestinationExists?
                       && exists i :: 0 <= i < |files| && Components(Dirname(files[i])) != []
                                      && r.error.path == Join(outDir, Basename(files[i]))
  {
    var top := Components(Dirname(files[0]));
    TopNameTakenIff(files);
    if TopNameTaken(files) {
      var i :| 0 <= i < |files| && Basename(files[i]) == top[0];
      assert Dirname(files[i]) == Dirname(files[0]);
    }
  }

  /** For files in one location, the test `FlattenFiles` makes is the
      blocked-move condition. */
  lemma TopNameTakenIff(files: seq<string>)
    requires |files| > 0 && OneLocation(files)
    ensures TopNameTaken(files) <==> MoveBlocked(files)
  {
    var top := Components(Dirname(files[0]));
    if MoveBlocked(files) {
      var i, j :| 0 <= i < |files| && 0 <= j < |files|
                  && Components(Dirname(files[i])) != [] && Components(Dirname(files[j])) != []
                  && Basename(files[i]) == Components(Dirname(files[j]))[0];
      assert Dirname(files[j]) == Dirname(files[0]);
    }
    if TopNameTaken(files) {
      var i :| 0 <= i < |files| && Basename(files[i]) == top[0];
      assert Dirname(files[i]) == Dirname(files[0]);
    }
  }

  /** An accepted listing fails to stage exactly when a move is blocked. */
  lemma StagingBlockedIff(names: seq<string>, outDir: string)
    requires outDir != []
    requires GetFilenames(names).Ok?
    ensures ExtractFastqFiles(Zip(names), outDir).Err? <==> MoveBlocked(GetFilenames(names).value)
    ensures var r := ExtractFastqFiles(Zip(names), outDir);
            var files := GetFilenames(names).value;
            r.Err? ==> r.error.DestinationExists?
                       && exists i :: 0 <= i < |files| && Components(Dirname(files[i])) != []
                                      && r.error.path == Join(outDir, Basename(files[i]))
  {
    FlattenBlockedIff(outDir, GetFilenames(names).value);
  }

  /** A file in a directory of its own name, such as "x.fastq/x.fastq",
      is accepted but cannot be staged: the walk would move it onto the
      directory it was extracted into. */
  lemma OwnNameDirectoryBlocks(outDir: string, f: string)
    requires outDir != []
    requires IsFastqName(f) && IsPlainName(f) && IsCleanName(f)
    ensures GetFilenames([f + "/" + f]) == Ok([f + "/" + f])
    ensures ExtractFastqFiles(Zip([f + "/" + f]), outDir) == Err(DestinationExists(Join(outDir, f)))
  {
    var n := f + "/" + f;
    OwnNameDirectoryEntry(f);
    SameDirectoryPairAccepted(n, n);
    FilterKeepsAll(IsFastqName, [n]);
    AcceptanceOnSelection([n]);
    assert GetFilenames([n]) == Ok([n]);
    assert FlattenFiles(outDir, [n]) == Err(DestinationExists(Join(outDir, f)));
  }

  /** "f/f" is a clean FASTQ name in directory "f", whose only kept part
      is "f". */
  lemma OwnNameDirectoryEntry(f: string)
    requires IsFastqName(f) && IsPlainName(f) && IsCleanName(f)
    ensures IsFastqName(f + "/" + f) && IsCleanName(f + "/" + f)
    ensures Dirname(f + "/" + f) == f && Basename(f + "/" + f) == f
    ensures Components(f) == [f]
  {
    var n := f + "/" + f;
    assert f[|f| - 1] in f;
    assert n == Join(f, f);
    DirnameOfJoin(f, f);
    BasenameOfJoin(f, f);
    SuffixKeepsFastqName(f + "/", f);
    SlashKeepsClean(f);
    SingleComponent(f);
  }

  /** Adding '/' characters to a clean name keeps it clean. */
  lemma SlashKeepsClean(f: string)
    requires IsCleanName(f)
    ensures IsCleanName(f + "/" + f)
  {
    var n := f + "/" + f;
    forall k | 0 <= k < |IllegalChars|
      ensures IllegalChars[k] !in n
    {
      assert IllegalChars[k] != Slash;
    }
  }

  /** A selected name without '/' is its own only kept part. */
  lemma SingleComponent(f: string)
    requires IsFastqName(f) && IsPlainName(f)
    ensures Components(f) == [f]
  {
    NoSlashNoHead(f);
    FastqBasenameIsNamePart(f);
    ComponentsOfEntry(f);
    ComponentsOfEmpty();
  }

  // ---------------------------------------------------------------------
  // Collisions when flattening
  // ---------------------------------------------------------------------

  /** For two selected names in the same directory, landing on the same
      final path is the same as having been extracted to the same file. */
  lemma SameFinalPathIffSameFile(outDir: string, n1: string, n2: string)
    requires outDir != []
    requires IsFastqName(n1) && IsFastqName(n2)
    requires Dirname(n1) == Dirname(n2)
    ensures FinalPath(outDir, n1) == FinalPath(outDir, n2) <==>
              ExtractedParts(n1) == ExtractedParts(n2)
  {
    FastqBasenameIsNamePart(n1);
    FastqBasenameIsNamePart(n2);
    JoinCancel(outDir, Basename(n1), Basename(n2));
    ComponentsOfEntry(n1);
    ComponentsOfEntry(n2);
  }

  /** After a successful selection, distinct names without doubled slashes
      land on distinct files: flattening loses nothing. */
  lemma AcceptedNamesLandApart(outDir: string, names: seq<string>, i: nat, j: nat)
    requires outDir != []
    requires GetFilenames(names).Ok?
    requires i < |GetFilenames(names).value| && j < |GetFilenames(names).value|
    requires GetFilenames(names).value[i] != GetFilenames(names).value[j]
    requires NoDoubleSlash(GetFilenames(names).value[i])
    requires NoDoubleSlash(GetFilenames(names).value[j])
    ensures FinalPath(outDir, GetFilenames(names).value[i]) !=
            FinalPath(outDir, GetFilenames(names).value[j])
  {
    var fs := GetFilenames(names).value;
    var n1, n2 := fs[i], fs[j];
    FastqBasenameIsNamePart(n1);
    FastqBasenameIsNamePart(n2);
    JoinCancel(outDir, Basename(n1), Basename(n2));
    DirnameBasenameDetermine(n1);
    DirnameBasenameDetermine(n2);
  }

  /** Without the doubled-slash condition two different names can land on
      the same file: "d/f" and "d//f" share dirname "d" and basename "f",
      are accepted together, and are flattened onto one path. */
  lemma DoubledSlashCollides(outDir: string, d: string, f: string)
    requires outDir != []
    requires IsPlainName(d) && IsPlainName(f) && IsFastqName(f)
    requires IsCleanName(d + "/" + f) && IsCleanName(d + "//" + f)
    ensures d + "/" + f != d + "//" + f
    ensures GetFilenames([d + "/" + f, d + "//" + f]) == Ok([d + "/" + f, d + "//" + f])
    ensures FinalPath(outDir, d + "/" + f) == FinalPath(outDir, d + "//" + f)
  {
    var n1 := d + "/" + f;
    var n2 := d + "//" + f;
    assert |n1| != |n2|;
    SingleAndDoubleSlash(d, f);
    SameDirectoryPairAccepted(n1, n2);
  }

  /** Two clean read files in one directory are accepted as listed. */
  lemma SameDirectoryPairAccepted(n1: string, n2: string)
    requires IsFastqName(n1) && IsFastqName(n2)
    requires IsCleanName(n1) && IsCleanName(n2)
    requires Dirname(n1) == Dirname(n2)
    ensures GetFilenames([n1, n2]) == Ok([n1, n2])
  {
    var names := [n1, n2];
    FilterKeepsAll(IsFastqName, names);
    AcceptanceOnSelection(names);
    assert forall n :: n in names ==> n == n1 || n == n2;
  }

  /** "d/f" and "d//f" are both selected, both have dirname "d" and both
      have basename "f". */
  lemma SingleAndDoubleSlash(d: string, f: string)
    requires IsPlainName(d) && IsPlainName(f) && IsFastqName(f)
    ensures IsFastqName(d + "/" + f) && IsFastqName(d + "//" + f)
    ensures Dirname(d + "/" + f) == d && Basename(d + "/" + f) == f
    ensures Dirname(d + "//" + f) == d && Basename(d + "//" + f) == f
  {
    var n1 := d + "/" + f;
    var n2 := d + "//" + f;
    SuffixKeepsFastqName(d + "/", f);
    SuffixKeepsFastqName(d + "//", f);
    assert d[|d| - 1] in d;
    assert n1 == Join(d, f);
    DirnameOfJoin(d, f);
    BasenameOfJoin(d, f);
    DoubledSlashDirname(d, f);
  }

  /** A name ending in a selected name is selected. */
  lemma SuffixKeepsFastqName(a: string, f: string)
    requires IsFastqName(f)
    ensures IsFastqName(a + f)
  {
    var n := a + f;
    assert n[|a|..] == f;
    forall t: string | EndsWith(f, t)
      ensures EndsWith(n, t)
    {
      assert n[|n| - |t|..] == f[|f| - |t|..];
    }
  }

  /** "d//f" has dirname "d" and basename "f". */
  lemma DoubledSlashDirname(d: string, f: string)
    requires IsPlainName(d) && IsPlainName(f)
    ensures Dirname(d + "//" + f) == d && Basename(d + "//" + f) == f
  {
    var n := d + "//" + f;
    var head := d + "//";
    assert n == Join(head, f);
    BasenameOfJoin(head, f);
    HeadBasenameSplit(n);
    assert Head(n) == head;
    assert d[|d| - 1] in d;
    assert head[|head| - 1] == Slash && head[..|head| - 1] == d + "/";
    assert (d + "/")[..|d|] == d;
    assert StripTrailingSlashes(head) == d;
  }
}

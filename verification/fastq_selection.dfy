/** Selection and validation of the FASTQ entries of the input archive
    (`get_filenames` in galaxy_client.py): keep the entry names the pattern
    `.*[.]fastq([.]gz)?$` finds, reject the job if one of them contains a
    space, `*`, `'` or `"`, if there is none, or if they lie in more than
    one directory of the archive. */
module FastqSelection {
  import opened Results
  import opened Seqs
  import opened Paths

  // ---------------------------------------------------------------------
  // The name pattern
  // ---------------------------------------------------------------------

  /** `$` in a Python pattern (without MULTILINE) matches at the end of the
      text and also just before a newline that ends it. */
  predicate EndAnchorAt(n: string, k: int)
  {
    k == |n| || (0 <= k == |n| - 1 && n[k] == '\n')
  }

  /** One way `re.search(r'.*[.]fastq([.]gz)?$', n)` can succeed: the match
      starts at `s`, `.*` covers `n[s..j]` (which therefore holds no newline),
      `[.]fastq` starts at `j`, the optional group matched `g` ("" or ".gz"),
      and `$` holds right after it. */
  ghost predicate MatchesAt(n: string, s: int, j: int, g: string)
  {
    && 0 <= s <= j <= |n|
    && '\n' !in n[s..j]
    && (g == "" || g == ".gz")
    && j + 6 + |g| <= |n|
    && n[j..j + 6 + |g|] == ".fastq" + g
    && EndAnchorAt(n, j + 6 + |g|)
  }

  /** `re.search` of the selection pattern finds a match in `n`. */
  ghost predicate RegexSearch(n: string)
  {
    exists s, j, g :: MatchesAt(n, s, j, g)
  }

  /** The selection test as a suffix test: the name ends with ".fastq" or
      ".fastq.gz", possibly followed by one final newline. Case matters. */
  predicate IsFastqName(n: string)
  {
    || EndsWith(n, ".fastq") || EndsWith(n, ".fastq.gz")
    || EndsWith(n, ".fastq\n") || EndsWith(n, ".fastq.gz\n")
  }

  /** Every match the search can find ends the name with one of the four
      accepted endings. */
  lemma MatchEndsName(n: string, s: int, j: int, g: string)
    requires MatchesAt(n, s, j, g)
    ensures IsFastqName(n)
  {
    var t := ".fastq" + g;
    var e := j + |t|;
    if e == |n| {
      assert n[|n| - |t|..] == n[j..e] == t;
      if g == "" {
        assert EndsWith(n, ".fastq");
      } else {
        assert EndsWith(n, ".fastq.gz");
      }
    } else {
      assert n[j..|n|] == n[j..e] + [n[e]];
      assert n[|n| - |t + "\n"|..] == t + "\n";
      if g == "" {
        assert EndsWith(n, ".fastq\n");
      } else {
        assert EndsWith(n, ".fastq.gz\n");
      }
    }
  }

  /** A name that ends with ".fastq" followed by the group's text is
      matched from that ".fastq" on. */
  lemma MatchAtEnd(n: string, g: string)
    requires g == "" || g == ".gz"
    requires EndsWith(n, ".fastq" + g)
    ensures RegexSearch(n)
  {
    var j := |n| - (6 + |g|);
    assert n[j..j + 6 + |g|] == n[j..];
    assert MatchesAt(n, j, j, g);
  }

  /** A name that ends with ".fastq", the group's text and a newline is
      matched from that ".fastq" on, `$` holding before the newline. */
  lemma MatchBeforeNewline(n: string, g: string)
    requires g == "" || g == ".gz"
    requires EndsWith(n, ".fastq" + g + "\n")
    ensures RegexSearch(n)
  {
    var j := |n| - (7 + |g|);
    assert n[j..j + 6 + |g|] == n[j..][..6 + |g|];
    assert n[j + 6 + |g|] == n[j..][6 + |g|];
    assert MatchesAt(n, j, j, g);
  }

  /** A name with one of the four accepted endings is found by the search,
      starting the match at the final ".fastq". */
  lemma NameEndingMatches(n: string)
    requires IsFastqName(n)
    ensures RegexSearch(n)
  {
    if EndsWith(n, ".fastq") {
      MatchAtEnd(n, "");
    } else if EndsWith(n, ".fastq.gz") {
      MatchAtEnd(n, ".gz");
    } else if EndsWith(n, ".fastq\n") {
      MatchBeforeNewline(n, "");
    } else {
      MatchBeforeNewline(n, ".gz");
    }
  }

  /** The suffix test accepts exactly the names the regular expression
      search accepts. */
  lemma RegexSearchIsSuffixTest(n: string)
    ensures RegexSearch(n) <==> IsFastqName(n)
  {
    if RegexSearch(n) {
      var s, j, g :| MatchesAt(n, s, j, g);
      MatchEndsName(n, s, j, g);
    }
    if IsFastqName(n) {
      NameEndingMatches(n);
    }
  }

  /** For a name without newlines the test is plainly "ends with .fastq or
      with .fastq.gz". */
  lemma NewlineFreeFastqName(n: string)
    requires '\n' !in n
    ensures IsFastqName(n) <==> EndsWith(n, ".fastq") || EndsWith(n, ".fastq.gz")
  {
    NewlineEndingOccurs(n);
  }

  lemma NewlineEndingOccurs(n: string)
    ensures EndsWith(n, ".fastq\n") || EndsWith(n, ".fastq.gz\n") ==> '\n' in n
  {
    if EndsWith(n, ".fastq\n") || EndsWith(n, ".fastq.gz\n") {
      assert n[|n| - 1] in n;
    }
  }

  /** A '/'-free ending of a path lies inside its basename. */
  lemma SlashFreeEndingInBasename(n: string, t: string)
    requires EndsWith(n, t) && Slash !in t
    ensures |Basename(n)| >= |t|
  {
    var i := LastSlash(n);
    if i >= |n| - |t| {
      assert false;
    }
  }

  /** The basename of a selected name is a regular file name: not empty,
      not "." or "..", and free of '/'. */
  lemma FastqBasenameIsNamePart(n: string)
    requires IsFastqName(n)
    ensures IsNamePart(Basename(n)) && IsPlainName(Basename(n))
  {
    var t := if EndsWith(n, ".fastq") then ".fastq"
             else if EndsWith(n, ".fastq.gz") then ".fastq.gz"
             else if EndsWith(n, ".fastq\n") then ".fastq\n"
             else ".fastq.gz\n";
    assert Slash !in t;
    SlashFreeEndingInBasename(n, t);
  }

  // ---------------------------------------------------------------------
  // Illegal characters
  // ---------------------------------------------------------------------

  /** The characters a selected name must not contain, in the order they
      are tested. */
  const IllegalChars: seq<char> := [' ', '*', '\'', '"']

  /** The name contains none of the illegal characters. */
  predicate IsCleanName(n: string)
  {
    forall k :: 0 <= k < |IllegalChars| ==> IllegalChars[k] !in n
  }

  /** `c` is the illegal character reported for `n`: the first one, in the
      test order, that `n` contains. */
  predicate IsFirstIllegal(n: string, c: char)
  {
    exists k :: (0 <= k < |IllegalChars| && IllegalChars[k] == c && c in n
                 && forall l :: 0 <= l < k ==> IllegalChars[l] !in n)
  }

  /** The first file, in selection order, that contains an illegal
      character, with the first such character; `None` when all are clean. */
  function FindIllegal(files: seq<string>): (r: Option<(string, char)>)
    ensures r.None? <==> forall i :: 0 <= i < |files| ==> IsCleanName(files[i])
    ensures r.Some? ==>
              exists i :: (0 <= i < |files| && files[i] == r.value.0
                           && forall j :: 0 <= j < i ==> IsCleanName(files[j]))
    ensures r.Some? ==> IsFirstIllegal(r.value.0, r.value.1)
  {
    match FirstIndex(f => !IsCleanName(f), files)
    case None => None
    case Some(i) =>
      var f := files[i];
      match FirstIndex(c => c in f, IllegalChars)
      case None => assert false; None
      case Some(k) => Some((f, IllegalChars[k]))
  }

  // ---------------------------------------------------------------------
  // get_filenames
  // ---------------------------------------------------------------------

  datatype SelectionError =
    | IllegalCharacter(name: string, c: char)
    | NoFastqFiles
    | MixedLocations(dirs: set<string>)

  /** The entry names the selection pattern keeps, in archive order. */
  function Selected(names: seq<string>): seq<string>
  {
    Filter(IsFastqName, names)
  }

  /** The set of directories (`os.path.dirname`) the files lie in; the
      archive root is "". */
  function Locations(files: seq<string>): set<string>
  {
    set f | f in files :: Dirname(f)
  }

  /** All files share one directory. */
  predicate OneLocation(files: seq<string>)
  {
    forall i, j :: 0 <= i < |files| && 0 <= j < |files| ==> Dirname(files[i]) == Dirname(files[j])
  }

  /** For a non-empty list, one distinct dirname is the same as all
      dirnames being equal. */
  lemma LocationsSingleton(files: seq<string>)
    requires |files| > 0
    ensures |Locations(files)| == 1 <==> OneLocation(files)
  {
    var d0 := Dirname(files[0]);
    assert files[0] in files;
    if OneLocation(files) {
      assert Locations(files) == {d0};
    }
    if |Locations(files)| == 1 {
      forall i | 0 <= i < |files|
        ensures Dirname(files[i]) == d0
      {
        assert files[i] in files;
        var only := Locations(files) - {d0};
        assert |only| == 0;
        assert Dirname(files[i]) !in only;
      }
    }
  }

  /** `get_filenames(names)`. */
  function GetFilenames(names: seq<string>): (r: Result<seq<string>, SelectionError>)
    ensures r.Ok? ==> r.value == Selected(names)
    ensures r.Ok? ==> |r.value| > 0 && OneLocation(r.value)
    ensures r.Ok? ==> forall i :: 0 <= i < |r.value| ==> IsCleanName(r.value[i])
    ensures r.Ok? ==> forall i :: 0 <= i < |r.value| ==> IsFastqName(r.value[i])
  {
    var files := Selected(names);
    match FindIllegal(files)
    case Some((f, c)) => Err(IllegalCharacter(f, c))
    case None =>
      if |files| == 0 then Err(NoFastqFiles)
      else
        var dirs := Locations(files);
        if |dirs| != 1 then Err(MixedLocations(dirs))
        else
          LocationsSingleton(files);
          FilterMembership(IsFastqName, names);
          assert forall i :: 0 <= i < |files| ==> files[i] in files;
          Ok(files)
  }

  // ---------------------------------------------------------------------
  // What get_filenames promises
  // ---------------------------------------------------------------------

  /** On success the result is exactly the matching names, as a subsequence
      of the archive listing in its order. */
  lemma AcceptedAreOrderedSelection(names: seq<string>)
    requires GetFilenames(names).Ok?
    ensures var fs := GetFilenames(names).value;
            var idx := MatchingIndices(IsFastqName, names);
            && |fs| == |idx|
            && (forall k :: 0 <= k < |fs| ==> fs[k] == names[idx[k]])
            && (forall x :: x in fs <==> x in names && IsFastqName(x))
  {
    FilterIsOrderedSelection(IsFastqName, names);
    FilterMembership(IsFastqName, names);
  }

  /** Every name of the list is clean. */
  predicate AllClean(files: seq<string>)
  {
    forall n :: n in files ==> IsCleanName(n)
  }

  /** All names of the list have the same dirname. */
  predicate SharedDirname(files: seq<string>)
  {
    forall n, m :: n in files && m in files ==> Dirname(n) == Dirname(m)
  }

  /** `get_filenames` accepts a listing exactly when its selection is clean,
      non-empty and in one directory. */
  lemma AcceptanceOnSelection(names: seq<string>)
    ensures GetFilenames(names).Ok? <==>
              AllClean(Selected(names)) && |Selected(names)| > 0 && SharedDirname(Selected(names))
  {
    var files := Selected(names);
    assert forall i :: 0 <= i < |files| ==> files[i] in files;
    if |files| > 0 {
      LocationsSingleton(files);
      assert OneLocation(files) <==> SharedDirname(files);
    }
  }

  /** The job is accepted exactly when every matching name is clean, at
      least one name matches, and all matching names share one dirname. */
  lemma AcceptanceCondition(names: seq<string>)
    ensures GetFilenames(names).Ok? <==>
              && (forall n :: n in names && IsFastqName(n) ==> IsCleanName(n))
              && (exists n :: n in names && IsFastqName(n))
              && (forall n, m :: n in names && IsFastqName(n) && m in names && IsFastqName(m)
                    ==> Dirname(n) == Dirname(m))
  {
    var files := Selected(names);
    AcceptanceOnSelection(names);
    FilterMembership(IsFastqName, names);
    if |files| > 0 {
      assert files[0] in files;
    }
  }

  /** Names the pattern does not select play no part: dropping one changes
      nothing, whatever characters it holds. */
  lemma NonMatchingIgnored(a: seq<string>, x: string, b: seq<string>)
    requires !IsFastqName(x)
    ensures GetFilenames(a + [x] + b) == GetFilenames(a + b)
  {
    FilterAppend(IsFastqName, a + [x], b);
    FilterAppend(IsFastqName, a, [x]);
    FilterAppend(IsFastqName, a, b);
    assert Filter(IsFastqName, [x]) == [];
    assert Selected(a + [x]) == Selected(a);
    assert Selected(a + [x] + b) == Selected(a + b);
  }

  /** A matching name holding an illegal character rejects the job with
      `IllegalCharacter`, even when no other check would have passed. */
  lemma IllegalCharacterComesFirst(names: seq<string>, n: string)
    requires n in names && IsFastqName(n) && !IsCleanName(n)
    ensures GetFilenames(names).Err? && GetFilenames(names).error.IllegalCharacter?
  {
    FilterMembership(IsFastqName, names);
    var files := Selected(names);
    var i :| 0 <= i < |files| && files[i] == n;
  }

  /** `IllegalCharacter` is reported exactly when the selection holds an
      unclean name, and then it reports what `FindIllegal` finds. */
  lemma IllegalCharacterCase(names: seq<string>)
    ensures FindIllegal(Selected(names)).Some? ==>
              GetFilenames(names) == Err(IllegalCharacter(FindIllegal(Selected(names)).value.0,
                                                          FindIllegal(Selected(names)).value.1))
    ensures FindIllegal(Selected(names)).None? ==>
              !(GetFilenames(names).Err? && GetFilenames(names).error.IllegalCharacter?)
  {
  }

  /** The rejected name is a matching name with no unclean matching name
      before it, and the character is the first illegal one it holds. */
  lemma IllegalCharacterReport(names: seq<string>, name: string, c: char)
    requires GetFilenames(names) == Err(IllegalCharacter(name, c))
    ensures IsFastqName(name) && IsFirstIllegal(name, c)
    ensures exists i :: (0 <= i < |names| && names[i] == name
                         && forall j :: 0 <= j < i && IsFastqName(names[j]) ==> IsCleanName(names[j]))
  {
    var files := Selected(names);
    IllegalCharacterCase(names);
    assert FindIllegal(files) == Some((name, c));
    var k :| 0 <= k < |files| && files[k] == name && forall l :: 0 <= l < k ==> IsCleanName(files[l]);
    SelectedPrefixLifts(IsFastqName, IsCleanName, names, k);
    FilterIsOrderedSelection(IsFastqName, names);
    var i := MatchingIndices(IsFastqName, names)[k];
    assert names[i] == name;
  }

  /** No matching name is exactly the `NoFastqFiles` rejection. */
  lemma NoFastqFilesIff(names: seq<string>)
    ensures GetFilenames(names) == Err(NoFastqFiles) <==> forall n :: n in names ==> !IsFastqName(n)
  {
    FilterMembership(IsFastqName, names);
    var files := Selected(names);
    if |files| > 0 {
      assert files[0] in files;
    }
  }

  /** What a `MixedLocations` rejection tells about the selection. */
  lemma MixedLocationsCase(names: seq<string>)
    requires GetFilenames(names).Err? && GetFilenames(names).error.MixedLocations?
    ensures FindIllegal(Selected(names)).None?
    ensures |Selected(names)| > 0
    ensures |Locations(Selected(names))| != 1
    ensures GetFilenames(names).error.dirs == Locations(Selected(names))
  {
  }

  /** A non-empty list of files without a single location has at least two
      locations, and two of its files witness them. */
  lemma TwoLocations(files: seq<string>)
    requires |files| > 0 && |Locations(files)| != 1
    ensures |Locations(files)| >= 2
    ensures exists i, j :: 0 <= i < |files| && 0 <= j < |files| && Dirname(files[i]) != Dirname(files[j])
  {
    assert files[0] in files;
    assert Dirname(files[0]) in Locations(files);
    LocationsSingleton(files);
  }

  /** The locations of the selection are the dirnames of the matching
      names. */
  lemma LocationsOfSelected(names: seq<string>)
    ensures forall d :: d in Locations(Selected(names)) <==>
              exists n :: n in names && IsFastqName(n) && Dirname(n) == d
  {
    FilterMembership(IsFastqName, names);
  }

  /** What the selection looks like when its names are clean but lie in
      more than one location. */
  lemma CleanButMixed(names: seq<string>, dirs: set<string>)
    requires FindIllegal(Selected(names)).None?
    requires |Selected(names)| > 0 && |Locations(Selected(names))| != 1
    requires dirs == Locations(Selected(names))
    ensures |dirs| >= 2
    ensures forall n :: n in names && IsFastqName(n) ==> IsCleanName(n)
    ensures exists n, m :: n in names && IsFastqName(n) && m in names && IsFastqName(m)
                           && Dirname(n) != Dirname(m)
    ensures forall d :: d in dirs <==> exists n :: n in names && IsFastqName(n) && Dirname(n) == d
  {
    var files := Selected(names);
    TwoLocations(files);
    LocationsOfSelected(names);
    FilterMembership(IsFastqName, names);
    var i, j :| 0 <= i < |files| && 0 <= j < |files| && Dirname(files[i]) != Dirname(files[j]);
    assert files[i] in files && files[j] in files;
    forall n | n in names && IsFastqName(n)
      ensures IsCleanName(n)
    {
      var k :| 0 <= k < |files| && files[k] == n;
    }
  }

  /** A `MixedLocations` rejection happens only with all matching names
      clean and at least two different dirnames among them, and reports
      exactly the set of those dirnames. */
  lemma MixedLocationsReport(names: seq<string>, dirs: set<string>)
    requires GetFilenames(names) == Err(MixedLocations(dirs))
    ensures |dirs| >= 2
    ensures forall n :: n in names && IsFastqName(n) ==> IsCleanName(n)
    ensures exists n, m :: n in names && IsFastqName(n) && m in names && IsFastqName(m)
                           && Dirname(n) != Dirname(m)
    ensures forall d :: d in dirs <==> exists n :: n in names && IsFastqName(n) && Dirname(n) == d
  {
    MixedLocationsCase(names);
    CleanButMixed(names, dirs);
  }

  // ---------------------------------------------------------------------
  // Typical listings
  // ---------------------------------------------------------------------

  /** Clean read files all at the archive root (no '/' in their names) are
      accepted exactly as listed, e.g. "sample_R1.fastq.gz" and
      "sample_R2.fastq.gz". */
  lemma RootFilesAccepted(names: seq<string>)
    requires |names| > 0
    requires forall i :: 0 <= i < |names| ==> IsFastqName(names[i]) && Slash !in names[i]
    requires forall i :: 0 <= i < |names| ==> IsCleanName(names[i])
    ensures GetFilenames(names) == Ok(names)
  {
    FilterKeepsAll(IsFastqName, names);
    forall n | n in names
      ensures Dirname(n) == [] && IsCleanName(n)
    {
      var i :| 0 <= i < |names| && names[i] == n;
      NoSlashNoHead(n);
    }
    AcceptanceOnSelection(names);
  }

  /** Two read files in two different directories of the archive, such as
      "a/sample1.fastq" and "b/sample2.fastq", are rejected. */
  lemma TwoDirectoriesRejected(d1: string, f1: string, d2: string, f2: string)
    requires d1 != d2
    requires d1 != [] && d1[|d1| - 1] != Slash && d2 != [] && d2[|d2| - 1] != Slash
    requires IsPlainName(f1) && IsPlainName(f2)
    requires IsFastqName(Join(d1, f1)) && IsFastqName(Join(d2, f2))
    requires IsCleanName(Join(d1, f1)) && IsCleanName(Join(d2, f2))
    ensures GetFilenames([Join(d1, f1), Join(d2, f2)]).Err?
    ensures GetFilenames([Join(d1, f1), Join(d2, f2)]).error.MixedLocations?
  {
    var names := [Join(d1, f1), Join(d2, f2)];
    FilterKeepsAll(IsFastqName, names);
    DirnameOfJoin(d1, f1);
    DirnameOfJoin(d2, f2);
    AcceptanceOnSelection(names);
    assert names[0] in names && names[1] in names;
    assert FindIllegal(names).None?;
  }

  /** A single read file whose name holds a space is rejected, naming the
      file and the space, e.g. "sample 1.fastq". */
  lemma SpaceRejected(n: string)
    requires IsFastqName(n) && ' ' in n
    ensures GetFilenames([n]) == Err(IllegalCharacter(n, ' '))
  {
    FilterKeepsAll(IsFastqName, [n]);
    assert IllegalChars[0] == ' ';
    assert !IsCleanName(n);
  }
}

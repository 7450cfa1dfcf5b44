/** POSIX path handling as the adapter relies on it: `posixpath.basename`,
    `posixpath.dirname` and `posixpath.join`, Python's `str.split('/')`, and
    the way `zipfile` turns an entry name into a location below the
    extraction directory (empty, "." and ".." parts dropped). */
module Paths {
  import opened Seqs

  const Slash: char := '/'

  /** Position of the last '/' in `p`, or -1 when there is none
      (`p.rfind('/')`). */
  function LastSlash(p: string): (i: int)
    ensures -1 <= i < |p|
    ensures 0 <= i ==> p[i] == Slash
    decreases |p|
  {
    if |p| == 0 then -1
    else if p[|p| - 1] == Slash then |p| - 1
    else LastSlash(p[..|p| - 1])
  }

  /** Nothing after the last '/' is a '/'. */
  lemma {:induction false} AfterLastSlash(p: string)
    ensures Slash !in p[LastSlash(p) + 1..]
    decreases |p|
  {
    if |p| > 0 && p[|p| - 1] != Slash {
      var init := p[..|p| - 1];
      AfterLastSlash(init);
      assert p[LastSlash(p) + 1..] == init[LastSlash(init) + 1..] + [p[|p| - 1]];
    }
  }

  /** `posixpath.basename`: everything after the last '/'. */
  function Basename(p: string): (b: string)
    ensures Slash !in b
  {
    AfterLastSlash(p);
    p[LastSlash(p) + 1..]
  }

  /** Everything up to and including the last '/' ("" when there is none). */
  function Head(p: string): (h: string)
  {
    p[..LastSlash(p) + 1]
  }

  /** A path splits into its head and its basename, and the head is empty
      or ends with '/'. */
  lemma HeadBasenameSplit(p: string)
    ensures p == Head(p) + Basename(p)
    ensures Head(p) == [] || Head(p)[|Head(p)| - 1] == Slash
  {
    var i := LastSlash(p);
    var h := Head(p);
    var b := Basename(p);
    assert |h| == i + 1 && |b| == |p| - (i + 1);
    assert forall k :: 0 <= k <= i ==> h[k] == p[k];
    assert forall k :: 0 <= k < |b| ==> b[k] == p[i + 1 + k];
    assert p == h + b;
  }

  predicate AllSlashes(s: string)
  {
    forall k :: 0 <= k < |s| ==> s[k] == Slash
  }

  /** `s.rstrip('/')`. */
  function StripTrailingSlashes(s: string): (r: string)
    ensures |r| <= |s| && r == s[..|r|]
    ensures forall k :: |r| <= k < |s| ==> s[k] == Slash
    ensures r == [] || r[|r| - 1] != Slash
    decreases |s|
  {
    if |s| > 0 && s[|s| - 1] == Slash then StripTrailingSlashes(s[..|s| - 1]) else s
  }

  /** A path without '/' has no head. */
  lemma {:induction false} NoSlashNoHead(p: string)
    requires Slash !in p
    ensures LastSlash(p) == -1
    ensures Head(p) == [] && Basename(p) == p && Dirname(p) == []
    decreases |p|
  {
    if |p| > 0 {
      assert p[|p| - 1] in p;
      var init := p[..|p| - 1];
      assert forall c :: c in init ==> c in p;
      NoSlashNoHead(init);
    }
  }

  /** `posixpath.dirname`: the head with its trailing slashes removed,
      unless the head is empty or made of slashes only. */
  function Dirname(p: string): (d: string)
  {
    var head := Head(p);
    if head != [] && !AllSlashes(head) then StripTrailingSlashes(head) else head
  }

  /** `posixpath.join(a, b)`: an absolute `b` replaces `a`; otherwise a '/'
      is inserted unless `a` is empty or already ends with one. */
  function Join(a: string, b: string): (r: string)
  {
    if |b| > 0 && b[0] == Slash then b
    else if a == [] || a[|a| - 1] == Slash then a + b
    else a + [Slash] + b
  }

  /** `posixpath.join(a, *parts)`. */
  function JoinAll(a: string, parts: seq<string>): (r: string)
    decreases |parts|
  {
    if |parts| == 0 then a else Join(JoinAll(a, parts[..|parts| - 1]), parts[|parts| - 1])
  }

  /** A plain file or directory name: non-empty and free of '/'. */
  predicate IsPlainName(b: string)
  {
    b != [] && Slash !in b
  }

  /** Joining a plain name below a directory and taking the basename gives
      the name back (why `zip_file` stores each report under the name it
      had in the listing). */
  lemma BasenameOfJoin(a: string, b: string)
    requires IsPlainName(b)
    ensures Basename(Join(a, b)) == b
  {
    var r := Join(a, b);
    assert EndsWith(r, b);
    var i := LastSlash(r);
    assert r[|r| - |b|..] == b;
    forall k | |r| - |b| <= k < |r|
      ensures r[k] != Slash
    {
      assert r[k] == b[k - (|r| - |b|)];
    }
    if |r| > |b| {
      assert r[|r| - |b| - 1] == Slash;
    }
  }

  /** Joining a plain name below a directory `a` that is non-empty and has
      no trailing '/' and taking the dirname gives `a` back. */
  lemma DirnameOfJoin(a: string, b: string)
    requires IsPlainName(b)
    requires a != [] && a[|a| - 1] != Slash
    ensures Dirname(Join(a, b)) == a
  {
    var r := Join(a, b);
    assert r == a + [Slash] + b;
    BasenameOfJoin(a, b);
    HeadBasenameSplit(r);
    assert Head(r) == a + [Slash];
    assert Head(r)[|a| - 1] != Slash;
    assert StripTrailingSlashes(Head(r)) == StripTrailingSlashes(a);
  }

  /** Joining `a` with two plain names yields the same path exactly when
      the names are equal. */
  lemma JoinCancel(a: string, b1: string, b2: string)
    requires IsPlainName(b1) && IsPlainName(b2)
    ensures Join(a, b1) == Join(a, b2) <==> b1 == b2
  {
    if Join(a, b1) == Join(a, b2) {
      BasenameOfJoin(a, b1);
      BasenameOfJoin(a, b2);
    }
  }

  /** Joining a non-empty list of plain names below `a` gives a path that
      is strictly longer than `a` and does not end with '/'. */
  lemma {:induction false} JoinAllGrows(a: string, parts: seq<string>)
    requires |parts| > 0
    requires forall k :: 0 <= k < |parts| ==> IsPlainName(parts[k])
    ensures |JoinAll(a, parts)| > |a|
    ensures JoinAll(a, parts)[|JoinAll(a, parts)| - 1] != Slash
    decreases |parts|
  {
    var init := parts[..|parts| - 1];
    var last := parts[|parts| - 1];
    if |init| > 0 {
      JoinAllGrows(a, init);
    }
    assert last[|last| - 1] in last;
  }

  /** A part that `join` appends with exactly one '/' in front: non-empty,
      not absolute and without a trailing '/'. */
  predicate IsRelativePart(b: string)
  {
    b != [] && b[0] != Slash && b[|b| - 1] != Slash
  }

  /** Each part with one '/' in front, concatenated. */
  function Below(parts: seq<string>): (r: string)
    decreases |parts|
  {
    if |parts| == 0 then [] else Below(parts[..|parts| - 1]) + [Slash] + parts[|parts| - 1]
  }

  /** Below a non-empty directory without a trailing '/', `join` of
      relative parts puts exactly one '/' before each part. */
  lemma {:induction false} JoinAllRelative(a: string, parts: seq<string>)
    requires a != [] && a[|a| - 1] != Slash
    requires forall k :: 0 <= k < |parts| ==> IsRelativePart(parts[k])
    ensures JoinAll(a, parts) == a + Below(parts)
    ensures JoinAll(a, parts)[|JoinAll(a, parts)| - 1] != Slash
    decreases |parts|
  {
    if |parts| > 0 {
      var init := parts[..|parts| - 1];
      var last := parts[|parts| - 1];
      JoinAllRelative(a, init);
      var j := JoinAll(a, init);
      assert j[|j| - 1] != Slash;
      assert Join(j, last) == j + [Slash] + last;
      assert (a + Below(init)) + [Slash] + last == a + (Below(init) + [Slash] + last);
      assert last[|last| - 1] != Slash;
    }
  }

  /** Python's `s.split('/')`: the maximal '/'-free pieces, always at least
      one ("" splits into [""]). */
  function Split(s: string): (parts: seq<string>)
    ensures |parts| >= 1
    decreases |s|
  {
    var i := LastSlash(s);
    if i < 0 then [s] else Split(s[..i]) + [s[i + 1..]]
  }

  /** No piece of a split contains '/'. */
  lemma {:induction false} SplitPiecesHaveNoSlash(s: string)
    ensures forall k :: 0 <= k < |Split(s)| ==> Slash !in Split(s)[k]
    decreases |s|
  {
    var i := LastSlash(s);
    AfterLastSlash(s);
    if i < 0 {
      assert s[i + 1..] == s;
    } else {
      SplitPiecesHaveNoSlash(s[..i]);
      assert Split(s) == Split(s[..i]) + [s[i + 1..]];
    }
  }

  /** `'/'.join(parts)`. */
  function Unsplit(parts: seq<string>): (s: string)
    requires |parts| >= 1
    decreases |parts|
  {
    if |parts| == 1 then parts[0]
    else Unsplit(parts[..|parts| - 1]) + [Slash] + parts[|parts| - 1]
  }

  /** Splitting at '/' and joining the pieces with '/' restores the path. */
  lemma {:induction false} SplitRoundTrip(s: string)
    ensures Unsplit(Split(s)) == s
    decreases |s|
  {
    var i := LastSlash(s);
    if i >= 0 {
      SplitRoundTrip(s[..i]);
      var parts := Split(s);
      assert parts[..|parts| - 1] == Split(s[..i]);
      assert s == s[..i] + [Slash] + s[i + 1..];
    }
  }

  /** A part that `zipfile` keeps when it builds the extraction path. */
  predicate IsNamePart(x: string)
  {
    x != "" && x != "." && x != ".."
  }

  /** The parts of an entry name that name a location below the extraction
      directory: the '/'-separated pieces without "", "." and "..". */
  function Components(name: string): (cs: seq<string>)
  {
    Filter(IsNamePart, Split(name))
  }

  /** Every component is a plain name other than "." and "..". */
  lemma ComponentsArePlain(name: string)
    ensures forall k :: 0 <= k < |Components(name)| ==>
              IsNamePart(Components(name)[k]) && IsPlainName(Components(name)[k])
  {
    var cs := Components(name);
    SplitPiecesHaveNoSlash(name);
    FilterMembership(IsNamePart, Split(name));
    forall k | 0 <= k < |cs|
      ensures IsNamePart(cs[k]) && IsPlainName(cs[k])
    {
      assert cs[k] in cs;
      var j :| 0 <= j < |Split(name)| && Split(name)[j] == cs[k];
    }
  }

  /** Splitting a path that has a '/' splits off its basename as the last
      piece. */
  lemma SplitAtLastSlash(p: string)
    requires LastSlash(p) >= 0
    ensures Split(p) == Split(p[..LastSlash(p)]) + [Basename(p)]
  {
  }

  /** The components of a path that has a '/' are those before its last
      '/' followed by the basename when it is a name part. */
  lemma ComponentsAtLastSlash(p: string)
    requires LastSlash(p) >= 0
    ensures Components(p) ==
              Components(p[..LastSlash(p)]) + Filter(IsNamePart, [Basename(p)])
  {
    SplitAtLastSlash(p);
    FilterAppend(IsNamePart, Split(p[..LastSlash(p)]), [Basename(p)]);
  }

  /** A trailing '/' adds no component. */
  lemma ComponentsTrailingSlash(x: string)
    ensures Components(x + [Slash]) == Components(x)
  {
    var s := x + [Slash];
    assert LastSlash(s) == |x|;
    assert s[..|x|] == x;
    assert Basename(s) == [];
    ComponentsAtLastSlash(s);
    assert Filter(IsNamePart, [[]]) == [];
  }

  /** Removing trailing slashes changes no component. */
  lemma {:induction false} ComponentsStrip(s: string)
    ensures Components(StripTrailingSlashes(s)) == Components(s)
    decreases |s|
  {
    if |s| > 0 && s[|s| - 1] == Slash {
      var init := s[..|s| - 1];
      ComponentsStrip(init);
      assert s == init + [Slash];
      ComponentsTrailingSlash(init);
    }
  }

  /** The components of a path's head are those of its dirname. */
  lemma ComponentsOfDirname(p: string)
    ensures Components(Dirname(p)) == Components(Head(p))
  {
    var head := Head(p);
    if head != [] && !AllSlashes(head) {
      ComponentsStrip(head);
    }
  }

  /** The path "" has no component. */
  lemma ComponentsOfEmpty()
    ensures Components([]) == []
  {
    assert Split([]) == [[]];
  }

  /** When the basename is a name part, an entry's components are those of
      its dirname followed by its basename. */
  lemma ComponentsOfEntry(name: string)
    requires IsNamePart(Basename(name))
    ensures Components(name) == Components(Dirname(name)) + [Basename(name)]
  {
    var base := Basename(name);
    assert Filter(IsNamePart, [base]) == [base];
    ComponentsOfDirname(name);
    if LastSlash(name) < 0 {
      ComponentsOfEmpty();
      assert Head(name) == [];
      assert Components(name) == [base];
    } else {
      ComponentsOfSlashedEntry(name);
    }
  }

  lemma ComponentsOfSlashedEntry(name: string)
    requires LastSlash(name) >= 0
    requires IsNamePart(Basename(name))
    ensures Components(name) == Components(Head(name)) + [Basename(name)]
  {
    var before := name[..LastSlash(name)];
    ComponentsAtLastSlash(name);
    FilterSingleton(IsNamePart, Basename(name));
    HeadAtLastSlash(name);
    ComponentsTrailingSlash(before);
  }

  /** The head of a path with a '/' is what precedes its last '/', with
      that '/' added back. */
  lemma HeadAtLastSlash(p: string)
    requires LastSlash(p) >= 0
    ensures Head(p) == p[..LastSlash(p)] + [Slash]
  {
    var i := LastSlash(p);
    assert p[..i + 1] == p[..i] + [p[i]];
  }

  /** No two consecutive slashes. */
  predicate NoDoubleSlash(p: string)
  {
    forall k :: 0 <= k < |p| - 1 ==> !(p[k] == Slash && p[k + 1] == Slash)
  }

  /** The head that `Dirname` came from, when no slashes were doubled. */
  function HeadOfDirname(d: string): string
  {
    if d == [] || AllSlashes(d) then d else d + [Slash]
  }

  /** A path without doubled slashes is its dirname, a separating '/' where
      needed, and its basename: dirname and basename determine it. */
  lemma DirnameBasenameDetermine(p: string)
    requires NoDoubleSlash(p)
    ensures p == HeadOfDirname(Dirname(p)) + Basename(p)
  {
    HeadBasenameSplit(p);
    var h := Head(p);
    if h != [] && !AllSlashes(h) {
      assert |h| >= 2;
      assert h[|h| - 2] == p[|h| - 2] && h[|h| - 1] == p[|h| - 1];
      var h' := h[..|h| - 1];
      assert StripTrailingSlashes(h) == StripTrailingSlashes(h') == h';
      assert h'[|h'| - 1] in h' && h'[|h'| - 1] != Slash;
      assert h' + [Slash] == h;
    }
  }
}

/**
 * The byte-compare variant of the finder (BONUS/find_duplicate_files.py):
 * files are bucketed by size as in the digest variant, and each size bucket
 * is split by comparing file contents directly. Every file of a bucket gets
 * the sorted list of itself and the other files whose content equals its
 * own; repeated lists are dropped. A file that cannot be read matches
 * nothing, so it forms a group of its own.
 */
module DiffFinder {
  import opened Grouping
  import opened Files
  import opened Sorting

  datatype Option<T> = None | Some(value: T)

  // ---------------------------------------------------------------------
  // The specification
  // ---------------------------------------------------------------------

  /**
   * file_comparison: whether two files hold the same bytes, or `None`
   * when either of them fails the read-permission check.
   */
  function FileComparison(fs: FileSystem, file1: Path, file2: Path): (r: Option<bool>)
    ensures r == None <==> !Readable(fs, file1) || !Readable(fs, file2)
    ensures r.Some? ==> (r.value <==> fs[file1].content == fs[file2].content)
  {
    if Readable(fs, file1) && Readable(fs, file2) then
      Some(fs[file1].content == fs[file2].content)
    else
      None
  }

  /**
   * The relation the comparison pass groups by: the same path, or two
   * readable files with equal content.
   */
  ghost predicate SameFile(fs: FileSystem, p: Path, q: Path) {
    p == q || FileComparison(fs, p, q) == Some(true)
  }

  /** The files of `files`, in order, that create_diff_group appends to `file1`'s group. */
  function Matches(fs: FileSystem, file1: Path, files: seq<Path>): seq<Path> {
    if files == [] then []
    else
      var rest := Matches(fs, file1, files[..|files| - 1]);
      var file2 := files[|files| - 1];
      if file2 != file1 && FileComparison(fs, file1, file2) == Some(true) then rest + [file2] else rest
  }

  /** The group create_diff_group returns for `file1`. */
  function DiffGroup(fs: FileSystem, file1: Path, files: seq<Path>): seq<Path> {
    Sort([file1] + Matches(fs, file1, files))
  }

  /** create_diff_group against a fixed list, as a function of the first file. */
  function GroupOf(fs: FileSystem, files: seq<Path>): Path -> seq<Path> {
    f => DiffGroup(fs, f, files)
  }

  /** The groups group_files_by_diff returns for one list: each file's group, repeats dropped. */
  function GroupsByDiff(fs: FileSystem, files: seq<Path>): seq<seq<Path>> {
    Dedup(MapSeq(GroupOf(fs, files), files))
  }

  /** The comparison pass, as a function applied to each size group. */
  function DiffPass(fs: FileSystem): seq<Path> -> seq<seq<Path>> {
    g => GroupsByDiff(fs, g)
  }

  /** The report of find_duplicate_files: the comparison groups of every size group, in order. */
  function DiffReport(fs: FileSystem, files: seq<Path>): seq<seq<Path>> {
    ConcatMap(DiffPass(fs), SizeGroups(fs, files))
  }

  /**
   * `g` is one class of `files` under SameFile, in sorted order: its members
   * are pairwise the same file, and an input file that is the same file as a
   * member is a member.
   */
  ghost predicate IsDiffGroup(fs: FileSystem, files: seq<Path>, g: seq<Path>) {
    && |g| >= 1
    && IsSorted(g)
    && (forall p :: p in g ==> p in files)
    && (forall p, q :: p in g && q in g ==> SameFile(fs, p, q))
    && (forall p, q :: p in g && q in files && SameFile(fs, p, q) ==> q in g)
  }

  /**
   * `g` is a reported group: a class of `files` under SameFile whose members
   * all have one non-zero size.
   */
  ghost predicate IsReportGroup(fs: FileSystem, files: seq<Path>, g: seq<Path>) {
    && IsDiffGroup(fs, files, g)
    && (forall p :: p in g ==> p in fs)
    && g[0] in fs
    && Size(fs, g[0]) > 0
    && (forall p :: p in g ==> Size(fs, p) == Size(fs, g[0]))
  }

  // ---------------------------------------------------------------------
  // The operations
  // ---------------------------------------------------------------------

  /** create_size_dict: non-empty files keyed by size, each size's files in input order. */
  method CreateSizeDict(fs: FileSystem, filePathNames: seq<Path>) returns (sizeDict: Dict<nat, seq<Path>>)
    requires AllExist(fs, filePathNames)
    ensures Models(sizeDict, filePathNames, SizeKey(fs), EmptySize())
    ensures 0 !in sizeDict.entries
    ensures forall k, p :: k in sizeDict.entries && p in sizeDict.entries[k] ==> p in filePathNames && Size(fs, p) == k
    ensures forall p :: p in filePathNames && Size(fs, p) > 0 ==>
      Size(fs, p) in sizeDict.entries && p in sizeDict.entries[Size(fs, p)]
  {
    sizeDict := BucketBy(filePathNames, SizeKey(fs), EmptySize());
    KeysSpec(filePathNames, SizeKey(fs), EmptySize());
    forall k | k in sizeDict.entries
      ensures forall p :: p in sizeDict.entries[k] ==> p in filePathNames && Size(fs, p) == k
    {
      BucketSpec(filePathNames, SizeKey(fs), k);
    }
    forall p | p in filePathNames && Size(fs, p) > 0
      ensures Size(fs, p) in sizeDict.entries && p in sizeDict.entries[Size(fs, p)]
    {
      assert SizeKey(fs)(p) == Size(fs, p);
      BucketSpec(filePathNames, SizeKey(fs), Size(fs, p));
    }
  }

  /** group_files_by_size: the lists of the size dict with more than one member. */
  method GroupFilesBySize(fs: FileSystem, filePathNames: seq<Path>) returns (sizeList: seq<seq<Path>>)
    requires AllExist(fs, filePathNames)
    ensures sizeList == SizeGroups(fs, filePathNames)
  {
    var sizeDict := CreateSizeDict(fs, filePathNames);
    sizeList := MultiMemberLists(sizeDict, filePathNames, SizeKey(fs), EmptySize());
  }

  /**
   * create_diff_group: `file1` and every other file of the list with the
   * same content, sorted.
   */
  method CreateDiffGroup(fs: FileSystem, file1: Path, filePathNames: seq<Path>) returns (group: seq<Path>)
    ensures group == DiffGroup(fs, file1, filePathNames)
  {
    var unsorted := [file1];
    for i := 0 to |filePathNames|
      invariant unsorted == [file1] + Matches(fs, file1, filePathNames[..i])
    {
      var file2 := filePathNames[i];
      assert filePathNames[..i + 1][..i] == filePathNames[..i];
      if file2 != file1 && FileComparison(fs, file1, file2) == Some(true) {
        unsorted := unsorted + [file2];
      }
    }
    assert filePathNames[..|filePathNames|] == filePathNames;
    group := Sort(unsorted);
  }

  /** group_files_by_diff: the group of each file of the list, first occurrences only. */
  method GroupFilesByDiff(fs: FileSystem, filePathNames: seq<Path>) returns (diffGroups: seq<seq<Path>>)
    ensures diffGroups == GroupsByDiff(fs, filePathNames)
  {
    diffGroups := [];
    for i := 0 to |filePathNames|
      invariant diffGroups == Dedup(MapSeq(GroupOf(fs, filePathNames), filePathNames[..i]))
    {
      var file1 := filePathNames[i];
      var group := CreateDiffGroup(fs, file1, filePathNames);
      DedupMapStep(GroupOf(fs, filePathNames), filePathNames, i, diffGroups, group);
      if group !in diffGroups {
        diffGroups := diffGroups + [group];
      }
    }
    assert filePathNames[..|filePathNames|] == filePathNames;
  }

  /** find_duplicate_files: the comparison groups of every size group, concatenated. */
  method FindDuplicateFiles(fs: FileSystem, filePathNames: seq<Path>) returns (groups: seq<seq<Path>>)
    requires AllExist(fs, filePathNames)
    ensures groups == DiffReport(fs, filePathNames)
  {
    groups := [];
    var sizeList := GroupFilesBySize(fs, filePathNames);
    for i := 0 to |sizeList|
      invariant groups == ConcatMap(DiffPass(fs), sizeList[..i])
    {
      var group := sizeList[i];
      var diffGroups := GroupFilesByDiff(fs, group);
      ConcatMapStep(DiffPass(fs), sizeList, i, groups, diffGroups);
      groups := groups + diffGroups;
    }
    assert sizeList[..|sizeList|] == sizeList;
  }


  // ---------------------------------------------------------------------
  // Properties
  // ---------------------------------------------------------------------

  /** The comparison is symmetric, and a match is always between two readable files. */
  lemma FileComparisonSymmetric(fs: FileSystem, p: Path, q: Path)
    ensures FileComparison(fs, p, q) == FileComparison(fs, q, p)
    ensures FileComparison(fs, p, q) == Some(true) ==> Readable(fs, p) && Readable(fs, q)
  {
  }

  /** SameFile is an equivalence: reflexive, symmetric and transitive. */
  lemma SameFileEquivalence(fs: FileSystem, p: Path, q: Path, r: Path)
    ensures SameFile(fs, p, p)
    ensures SameFile(fs, p, q) ==> SameFile(fs, q, p)
    ensures SameFile(fs, p, q) && SameFile(fs, q, r) ==> SameFile(fs, p, r)
  {
  }

  /** Two distinct paths that are the same file are readable, of one content and so of one size. */
  lemma SameFileContent(fs: FileSystem, p: Path, q: Path)
    requires SameFile(fs, p, q) && p != q
    ensures Readable(fs, p) && Readable(fs, q)
    ensures fs[p].content == fs[q].content && Size(fs, p) == Size(fs, q)
  {
  }

  /** The matches of `file1` are exactly the other files of the list that are the same file. */
  lemma {:induction false} MatchesSpec(fs: FileSystem, file1: Path, files: seq<Path>)
    ensures forall q :: q in Matches(fs, file1, files) ==> q in files && q != file1 && SameFile(fs, file1, q)
    ensures forall q :: q in files && q != file1 && SameFile(fs, file1, q) ==> q in Matches(fs, file1, files)
    ensures NoDup(files) ==> NoDup(Matches(fs, file1, files))
  {
    if files != [] {
      var n := |files| - 1;
      assert files == files[..n] + [files[n]];
      MatchesSpec(fs, file1, files[..n]);
      if NoDup(files) {
        assert NoDup(files[..n]);
        assert files[n] !in files[..n];
      }
    }
  }

  /** An unreadable file matches nothing. */
  lemma {:induction false} MatchesUnreadable(fs: FileSystem, file1: Path, files: seq<Path>)
    requires !Readable(fs, file1)
    ensures Matches(fs, file1, files) == []
  {
    if files != [] {
      MatchesUnreadable(fs, file1, files[..|files| - 1]);
    }
  }

  /**
   * The group of `file1`: sorted, holding `file1` and exactly the other files
   * of the list that are the same file; just `[file1]` when it is unreadable.
   */
  lemma DiffGroupSpec(fs: FileSystem, file1: Path, files: seq<Path>)
    ensures IsSorted(DiffGroup(fs, file1, files)) && file1 in DiffGroup(fs, file1, files)
    ensures forall q :: q in DiffGroup(fs, file1, files) && q != file1 ==> q in files && SameFile(fs, file1, q)
    ensures forall q :: q in files && SameFile(fs, file1, q) ==> q in DiffGroup(fs, file1, files)
    ensures !Readable(fs, file1) ==> DiffGroup(fs, file1, files) == [file1]
  {
    var s := [file1] + Matches(fs, file1, files);
    var g := DiffGroup(fs, file1, files);
    MatchesSpec(fs, file1, files);
    assert forall q :: q in g <==> q in multiset(s);
    if !Readable(fs, file1) {
      MatchesUnreadable(fs, file1, files);
      assert s == [file1];
      assert Sort([file1]) == [file1] by {
        assert Sort([file1]) == Insert(file1, Sort([]));
      }
    }
  }

  /** For a list without repeats, the group of a listed file has no repeats either. */
  lemma UnsortedNoDup(fs: FileSystem, file1: Path, files: seq<Path>)
    requires NoDup(files)
    ensures NoDup([file1] + Matches(fs, file1, files))
  {
    MatchesSpec(fs, file1, files);
    var s := [file1] + Matches(fs, file1, files);
    forall i, j | 0 <= i < j < |s| ensures s[i] != s[j] {
      assert s[j] in Matches(fs, file1, files);
      if i > 0 {
        assert s[i] == Matches(fs, file1, files)[i - 1];
        assert s[j] == Matches(fs, file1, files)[j - 1];
      }
    }
  }

  /**
   * For a list without repeats, two listed files that share a member have
   * one and the same group.
   */
  lemma DiffGroupsMeet(fs: FileSystem, f1: Path, f2: Path, p: Path, files: seq<Path>)
    requires NoDup(files) && f1 in files && f2 in files
    requires p in DiffGroup(fs, f1, files) && p in DiffGroup(fs, f2, files)
    ensures DiffGroup(fs, f1, files) == DiffGroup(fs, f2, files)
  {
    var s1 := [f1] + Matches(fs, f1, files);
    var s2 := [f2] + Matches(fs, f2, files);
    DiffGroupSpec(fs, f1, files);
    DiffGroupSpec(fs, f2, files);
    MatchesSpec(fs, f1, files);
    MatchesSpec(fs, f2, files);
    UnsortedNoDup(fs, f1, files);
    UnsortedNoDup(fs, f2, files);
    SameFileEquivalence(fs, f1, p, f2);
    SameFileEquivalence(fs, f2, p, f1);
    SameFileEquivalence(fs, p, f1, f2);
    SameFileEquivalence(fs, f2, f1, f1);
    assert SameFile(fs, f1, f2);
    forall q | q in s1 ensures q in s2 {
      SameFileEquivalence(fs, f2, f1, q);
    }
    forall q | q in s2 ensures q in s1 {
      SameFileEquivalence(fs, f1, f2, q);
    }
    SameMembersMultiset(s1, s2);
    SortedUnique(DiffGroup(fs, f1, files), DiffGroup(fs, f2, files));
  }

  /**
   * For a list without repeats, the group of a listed file is the only
   * sorted list without repeats whose members are exactly the listed files
   * that are the same file as it.
   */
  lemma DiffGroupUnique(fs: FileSystem, f: Path, files: seq<Path>, r: seq<Path>)
    requires NoDup(files) && f in files
    requires IsSorted(r) && NoDup(r)
    requires forall q :: q in r ==> q in files && SameFile(fs, f, q)
    requires forall q :: q in files && SameFile(fs, f, q) ==> q in r
    ensures DiffGroup(fs, f, files) == r
  {
    var s := [f] + Matches(fs, f, files);
    MatchesSpec(fs, f, files);
    UnsortedNoDup(fs, f, files);
    assert f in r;
    SameMembersMultiset(s, r);
    SortedUnique(DiffGroup(fs, f, files), r);
  }

  /**
   * When every listed file is readable, the group of a listed file is the
   * sorted list, without repeats, of the listed files with the same content.
   */
  lemma DiffGroupOfReadable(fs: FileSystem, f: Path, files: seq<Path>, r: seq<Path>)
    requires NoDup(files) && f in files && f in fs
    requires forall q :: q in files ==> Readable(fs, q)
    requires IsSorted(r) && NoDup(r)
    requires forall q :: q in r ==> q in files && q in fs && fs[q].content == fs[f].content
    requires forall q :: q in files && q in fs && fs[q].content == fs[f].content ==> q in r
    ensures DiffGroup(fs, f, files) == r
  {
    DiffGroupUnique(fs, f, files, r);
  }

  /** The group of a listed file is one class of the list under SameFile. */
  lemma DiffGroupIsClass(fs: FileSystem, f: Path, files: seq<Path>)
    requires f in files
    ensures IsDiffGroup(fs, files, DiffGroup(fs, f, files))
  {
    var g := DiffGroup(fs, f, files);
    DiffGroupSpec(fs, f, files);
    forall p, q | p in g && q in g ensures SameFile(fs, p, q) {
      SameFileEquivalence(fs, f, p, q);
      SameFileEquivalence(fs, p, f, q);
      SameFileEquivalence(fs, f, f, q);
    }
    forall p, q | p in g && q in files && SameFile(fs, p, q) ensures q in g {
      SameFileEquivalence(fs, f, p, q);
      SameFileEquivalence(fs, f, f, p);
    }
  }

  /** The groups of `firsts` are the groups of its files. */
  lemma EachGroupSpec(fs: FileSystem, firsts: seq<Path>, files: seq<Path>)
    ensures forall g :: g in MapSeq(GroupOf(fs, files), firsts) ==> exists f :: f in firsts && g == DiffGroup(fs, f, files)
    ensures forall f :: f in firsts ==> DiffGroup(fs, f, files) in MapSeq(GroupOf(fs, files), firsts)
  {
    var gs := MapSeq(GroupOf(fs, files), firsts);
    MapSeqSpec(GroupOf(fs, files), firsts);
    forall g | g in gs ensures exists f :: f in firsts && g == DiffGroup(fs, f, files) {
      var i :| 0 <= i < |gs| && gs[i] == g;
      assert firsts[i] in firsts;
    }
    forall f | f in firsts ensures DiffGroup(fs, f, files) in gs {
      var i :| 0 <= i < |firsts| && firsts[i] == f;
      assert gs[i] == DiffGroup(fs, f, files);
    }
  }

  /** For a list without repeats, no file lies in two of its groups. */
  lemma GroupsByDiffDisjoint(fs: FileSystem, files: seq<Path>)
    requires NoDup(files)
    ensures Disjoint(GroupsByDiff(fs, files))
  {
    var gs := GroupsByDiff(fs, files);
    EachGroupSpec(fs, files, files);
    DedupSpec(MapSeq(GroupOf(fs, files), files));
    forall i, j, x | 0 <= i < j < |gs| && x in gs[i] ensures x !in gs[j] {
      assert gs[i] in gs && gs[j] in gs;
      var f1 :| f1 in files && gs[i] == DiffGroup(fs, f1, files);
      var f2 :| f2 in files && gs[j] == DiffGroup(fs, f2, files);
      if x in gs[j] {
        DiffGroupsMeet(fs, f1, f2, x, files);
        assert false;
      }
    }
  }

  /**
   * group_files_by_diff: no group twice, every group a class of the list
   * under SameFile, every file in a group, and, for a list without repeats,
   * no file in two groups.
   */
  lemma GroupsByDiffSpec(fs: FileSystem, files: seq<Path>)
    ensures NoDup(GroupsByDiff(fs, files))
    ensures forall g :: g in GroupsByDiff(fs, files) ==> IsDiffGroup(fs, files, g)
    ensures forall p :: p in files ==> exists g :: g in GroupsByDiff(fs, files) && p in g
    ensures NoDup(files) ==> Disjoint(GroupsByDiff(fs, files))
  {
    var gs := GroupsByDiff(fs, files);
    EachGroupSpec(fs, files, files);
    DedupSpec(MapSeq(GroupOf(fs, files), files));
    forall g | g in gs ensures IsDiffGroup(fs, files, g) {
      var f :| f in files && g == DiffGroup(fs, f, files);
      DiffGroupIsClass(fs, f, files);
    }
    forall p | p in files ensures exists g :: g in gs && p in g {
      DiffGroupSpec(fs, p, files);
      assert DiffGroup(fs, p, files) in gs;
    }
    if NoDup(files) {
      GroupsByDiffDisjoint(fs, files);
    }
  }

  /** A comparison group of a size group is a reported group of the whole input. */
  lemma DiffOfSizeGroup(fs: FileSystem, files: seq<Path>, sg: seq<Path>, h: seq<Path>)
    requires AllExist(fs, files)
    requires IsSizeGroup(fs, files, sg) && IsDiffGroup(fs, sg, h)
    ensures IsReportGroup(fs, files, h)
  {
    assert h[0] in sg;
    BucketSpec(files, SizeKey(fs), Size(fs, sg[0]));
    forall p, q | p in h && q in files && SameFile(fs, p, q) ensures q in h {
      if p != q {
        SameFileContent(fs, p, q);
        assert SizeKey(fs)(q) == Size(fs, sg[0]);
      }
      assert q in sg;
    }
  }

  /**
   * Every reported group is a class of the input under SameFile, of one
   * non-zero size, and, for an input without repeats, no file lies in two
   * reported groups.
   */
  lemma DiffReportSpec(fs: FileSystem, files: seq<Path>)
    requires AllExist(fs, files)
    ensures forall g :: g in DiffReport(fs, files) ==> IsReportGroup(fs, files, g)
    ensures NoDup(files) ==> Disjoint(DiffReport(fs, files))
  {
    var sgs := SizeGroups(fs, files);
    var pass := DiffPass(fs);
    SizeGroupsSpec(fs, files);
    ConcatMapMembers(pass, sgs);
    forall h | h in DiffReport(fs, files) ensures IsReportGroup(fs, files, h) {
      var sg :| sg in sgs && h in pass(sg);
      GroupsByDiffSpec(fs, sg);
      DiffOfSizeGroup(fs, files, sg, h);
    }
    if NoDup(files) {
      forall sg | sg in sgs ensures Splits(pass, sg) {
        GroupsByDiffSpec(fs, sg);
      }
      ConcatMapDisjoint(pass, sgs);
    }
  }

  /**
   * For an input without repeats, a file is reported iff it is non-empty and
   * another input file has the same size, whatever its content and even if
   * it cannot be read: such a file ends up in a group of its own.
   */
  lemma DiffReportCover(fs: FileSystem, files: seq<Path>)
    requires AllExist(fs, files) && NoDup(files)
    ensures forall p :: p in files ==>
      ((exists g :: g in DiffReport(fs, files) && p in g)
       <==> Size(fs, p) > 0 && exists q :: q in files && q != p && Size(fs, q) == Size(fs, p))
  {
    var sgs := SizeGroups(fs, files);
    var pass := DiffPass(fs);
    SizeGroupsCover(fs, files);
    ConcatMapMembers(pass, sgs);
    forall p | p in files
      ensures (exists g :: g in DiffReport(fs, files) && p in g) <==> (exists sg :: sg in sgs && p in sg)
    {
      if exists g :: g in DiffReport(fs, files) && p in g {
        var g :| g in DiffReport(fs, files) && p in g;
        var sg :| sg in sgs && g in pass(sg);
        GroupsByDiffSpec(fs, sg);
      }
      if exists sg :: sg in sgs && p in sg {
        var sg :| sg in sgs && p in sg;
        GroupsByDiffSpec(fs, sg);
        var g :| g in pass(sg) && p in g;
      }
    }
  }

  // ---------------------------------------------------------------------
  // The report without singleton groups
  // ---------------------------------------------------------------------

  /**
   * The report the byte-compare variant is meant to give: its groups with
   * the single-member ones dropped, so that only actual duplicates remain.
   */
  function DuplicateReport(fs: FileSystem, files: seq<Path>): seq<seq<Path>> {
    MultiOnly(DiffReport(fs, files))
  }

  /** Another input file that is the same file as `p`: readable, with the same bytes. */
  ghost predicate HasCopy(fs: FileSystem, files: seq<Path>, p: Path) {
    exists q :: q in files && q != p && SameFile(fs, p, q)
  }

  /**
   * Every group of the corrected report is a reported class with two or
   * more members; for an input without repeats no file lies in two groups
   * and a file is reported iff it is non-empty and has a copy in the input.
   */
  lemma DuplicateReportSpec(fs: FileSystem, files: seq<Path>)
    requires AllExist(fs, files)
    ensures forall g :: g in DuplicateReport(fs, files) ==> IsReportGroup(fs, files, g) && |g| >= 2
    ensures NoDup(files) ==> Disjoint(DuplicateReport(fs, files))
    ensures NoDup(files) ==> forall p :: p in files ==>
      ((exists g :: g in DuplicateReport(fs, files) && p in g) ==> Size(fs, p) > 0 && HasCopy(fs, files, p))
    ensures NoDup(files) ==> forall p :: p in files ==>
      (Size(fs, p) > 0 && HasCopy(fs, files, p) ==> exists g :: g in DuplicateReport(fs, files) && p in g)
  {
    DiffReportSpec(fs, files);
    MultiOnlySpec(DiffReport(fs, files));
    if NoDup(files) {
      ReportGroupsNoDup(fs, files);
      forall p | p in files && exists g :: g in DuplicateReport(fs, files) && p in g
        ensures Size(fs, p) > 0 && HasCopy(fs, files, p)
      {
        var g :| g in DuplicateReport(fs, files) && p in g;
        CopyInGroup(fs, files, g, p);
      }
      forall p | p in files && Size(fs, p) > 0 && HasCopy(fs, files, p)
        ensures exists g :: g in DuplicateReport(fs, files) && p in g
      {
        CopyIsReported(fs, files, p);
      }
    }
  }

  /** A file of a reported group of two distinct members or more has a copy among the others. */
  lemma CopyInGroup(fs: FileSystem, files: seq<Path>, g: seq<Path>, p: Path)
    requires IsReportGroup(fs, files, g) && NoDup(g) && |g| >= 2 && p in g
    ensures Size(fs, p) > 0 && HasCopy(fs, files, p)
  {
    var q := if g[0] != p then g[0] else g[1];
    assert q in g && q != p;
  }

  /** For a list without repeats, the group of a file has no repeats. */
  lemma DiffGroupNoDup(fs: FileSystem, f: Path, files: seq<Path>)
    requires NoDup(files)
    ensures NoDup(DiffGroup(fs, f, files))
  {
    UnsortedNoDup(fs, f, files);
    PermutationNoDup([f] + Matches(fs, f, files), DiffGroup(fs, f, files));
  }

  /** For an input without repeats, no reported group has a repeat. */
  lemma ReportGroupsNoDup(fs: FileSystem, files: seq<Path>)
    requires AllExist(fs, files) && NoDup(files)
    ensures forall g :: g in DiffReport(fs, files) ==> NoDup(g)
  {
    var sgs := SizeGroups(fs, files);
    SizeGroupsSpec(fs, files);
    ConcatMapMembers(DiffPass(fs), sgs);
    forall g | g in DiffReport(fs, files) ensures NoDup(g) {
      var sg :| sg in sgs && g in DiffPass(fs)(sg);
      EachGroupSpec(fs, sg, sg);
      DedupSpec(MapSeq(GroupOf(fs, sg), sg));
      var f :| f in sg && g == DiffGroup(fs, f, sg);
      DiffGroupNoDup(fs, f, sg);
    }
  }

  /** For an input without repeats, a non-empty file with a copy lands in a group of two or more. */
  lemma CopyIsReported(fs: FileSystem, files: seq<Path>, p: Path)
    requires AllExist(fs, files) && NoDup(files) && p in files
    requires Size(fs, p) > 0 && HasCopy(fs, files, p)
    ensures exists g :: g in DuplicateReport(fs, files) && p in g
  {
    var q :| q in files && q != p && SameFile(fs, p, q);
    SameFileContent(fs, p, q);
    var sg := SizeGroupOfPair(fs, files, p, q);
    var g := DiffGroup(fs, p, sg);
    DiffGroupSpec(fs, p, sg);
    TwoDistinct(g, p, q);
    GroupReported(fs, files, sg, p);
    MultiOnlySpec(DiffReport(fs, files));
    assert g in DuplicateReport(fs, files);
  }

  /** The group of a file of a size group is a group of the report. */
  lemma GroupReported(fs: FileSystem, files: seq<Path>, sg: seq<Path>, f: Path)
    requires sg in SizeGroups(fs, files) && f in sg
    ensures DiffGroup(fs, f, sg) in DiffReport(fs, files)
  {
    EachGroupSpec(fs, sg, sg);
    DedupSpec(MapSeq(GroupOf(fs, sg), sg));
    assert DiffGroup(fs, f, sg) in DiffPass(fs)(sg);
    ConcatMapMembers(DiffPass(fs), SizeGroups(fs, files));
  }

}

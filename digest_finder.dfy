/**
 * The digest variant of the finder (find_duplicate_files.py): files are
 * bucketed by size, each size bucket is re-bucketed by the MD5 hex digest of
 * the file's content, and the per-bucket results are concatenated. The digest
 * is a parameter `md5`; nothing is assumed about it, so every property below
 * speaks of equal digests, not of equal contents.
 */
module DigestFinder {
  import opened Grouping
  import opened Files

  /** What get_file_checksum computes: the digest of the file's whole content. */
  function Checksum<D>(fs: FileSystem, md5: seq<byte> -> D, p: Path): D
    requires p in fs
  {
    md5(fs[p].content)
  }

  /** The checksum as a bucketing key; only ever applied to paths of the snapshot. */
  function ChecksumKey<D>(fs: FileSystem, md5: seq<byte> -> D): Path -> D {
    p => if p in fs then Checksum(fs, md5, p) else md5([])
  }

  /** The groups group_files_by_checksum reports for one list. */
  function ChecksumGroups<D(==)>(fs: FileSystem, md5: seq<byte> -> D, files: seq<Path>): seq<seq<Path>> {
    Groups(files, ChecksumKey(fs, md5), {})
  }

  /** The checksum pass, as a function applied to each size group. */
  function ChecksumPass<D(==)>(fs: FileSystem, md5: seq<byte> -> D): seq<Path> -> seq<seq<Path>> {
    g => ChecksumGroups(fs, md5, g)
  }

  /** The report of find_duplicate_files: the checksum groups of every size group, in order. */
  function DigestReport<D(==)>(fs: FileSystem, md5: seq<byte> -> D, files: seq<Path>): seq<seq<Path>> {
    ConcatMap(ChecksumPass(fs, md5), SizeGroups(fs, files))
  }

  /** Every file of the list can be opened for reading. */
  predicate AllReadable(fs: FileSystem, files: seq<Path>) {
    forall p :: p in files ==> Readable(fs, p)
  }

  /** `g` is a checksum group of `files`: two or more input files with one checksum. */
  ghost predicate IsChecksumGroup<D>(fs: FileSystem, md5: seq<byte> -> D, files: seq<Path>, g: seq<Path>) {
    && |g| >= 2
    && (forall p :: p in g ==> p in files && p in fs)
    && g[0] in fs
    && (forall p :: p in g ==> Checksum(fs, md5, p) == Checksum(fs, md5, g[0]))
  }

  /**
   * `g` is a reported duplicate group: two or more input files, all of the
   * same non-zero size and the same checksum.
   */
  ghost predicate IsDigestGroup<D>(fs: FileSystem, md5: seq<byte> -> D, files: seq<Path>, g: seq<Path>) {
    && |g| >= 2
    && (forall p :: p in g ==> p in files && p in fs)
    && g[0] in fs
    && Size(fs, g[0]) > 0
    && (forall p :: p in g ==> Size(fs, p) == Size(fs, g[0]) && Checksum(fs, md5, p) == Checksum(fs, md5, g[0]))
  }

  // ---------------------------------------------------------------------
  // The operations
  // ---------------------------------------------------------------------

  /** group_files_by_size: the size dict, then its lists with more than one member. */
  method GroupFilesBySize(fs: FileSystem, filePathNames: seq<Path>) returns (groupList: seq<seq<Path>>)
    requires AllExist(fs, filePathNames)
    ensures groupList == SizeGroups(fs, filePathNames)
  {
    var groupDict := BucketBy(filePathNames, SizeKey(fs), EmptySize());
    groupList := MultiMemberLists(groupDict, filePathNames, SizeKey(fs), EmptySize());
  }

  /** group_files_by_checksum: the checksum dict, then its lists with more than one member. */
  method GroupFilesByChecksum<D(==)>(fs: FileSystem, md5: seq<byte> -> D, filePathNames: seq<Path>)
    returns (groupList: seq<seq<Path>>)
    requires AllReadable(fs, filePathNames)
    ensures groupList == ChecksumGroups(fs, md5, filePathNames)
  {
    var groupDict := BucketBy(filePathNames, ChecksumKey(fs, md5), {});
    groupList := MultiMemberLists(groupDict, filePathNames, ChecksumKey(fs, md5), {});
  }

  /**
   * find_duplicate_files: the checksum groups of every size group,
   * concatenated. Every file of a size group is opened, so those must be readable.
   */
  method FindDuplicateFiles<D(==)>(fs: FileSystem, md5: seq<byte> -> D, filePathNames: seq<Path>)
    returns (groups: seq<seq<Path>>)
    requires AllExist(fs, filePathNames)
    requires forall g :: g in SizeGroups(fs, filePathNames) ==> AllReadable(fs, g)
    ensures groups == DigestReport(fs, md5, filePathNames)
  {
    groups := [];
    var sizeGroups := GroupFilesBySize(fs, filePathNames);
    for i := 0 to |sizeGroups|
      invariant groups == ConcatMap(ChecksumPass(fs, md5), sizeGroups[..i])
    {
      var group := sizeGroups[i];
      assert group in SizeGroups(fs, filePathNames);
      var checksumGroups := GroupFilesByChecksum(fs, md5, group);
      ConcatMapStep(ChecksumPass(fs, md5), sizeGroups, i, groups, checksumGroups);
      groups := groups + checksumGroups;
    }
    assert sizeGroups[..|sizeGroups|] == sizeGroups;
  }

  // ---------------------------------------------------------------------
  // Properties
  // ---------------------------------------------------------------------

  /**
   * Checksum groups: two or more input files each, all with one checksum,
   * and no file lies in two groups.
   */
  lemma ChecksumGroupsSpec<D>(fs: FileSystem, md5: seq<byte> -> D, files: seq<Path>)
    requires AllExist(fs, files)
    ensures forall g :: g in ChecksumGroups(fs, md5, files) ==> IsChecksumGroup(fs, md5, files, g)
    ensures Disjoint(ChecksumGroups(fs, md5, files))
  {
    var key := ChecksumKey(fs, md5);
    GroupsSpec(files, key, {});
    GroupsMembers(files, key, {});
    forall g | g in ChecksumGroups(fs, md5, files) ensures IsChecksumGroup(fs, md5, files, g) {
      assert g[0] in g;
    }
  }

  /**
   * For a list without repeats, a file lands in a checksum group iff another
   * file of the list has the same checksum.
   */
  lemma ChecksumGroupsCover<D>(fs: FileSystem, md5: seq<byte> -> D, files: seq<Path>)
    requires AllExist(fs, files)
    ensures NoDup(files) ==> forall p :: p in files ==>
      ((exists g :: g in ChecksumGroups(fs, md5, files) && p in g)
       <==> exists q :: q in files && q != p && Checksum(fs, md5, q) == Checksum(fs, md5, p))
  {
    var key := ChecksumKey(fs, md5);
    if NoDup(files) {
      GroupsCover(files, key, {});
      forall p | p in files
        ensures (exists q :: q in files && q != p && key(q) == key(p))
            <==> (exists q :: q in files && q != p && Checksum(fs, md5, q) == Checksum(fs, md5, p))
      {
        if exists q :: q in files && q != p && Checksum(fs, md5, q) == Checksum(fs, md5, p) {
          var q :| q in files && q != p && Checksum(fs, md5, q) == Checksum(fs, md5, p);
          assert key(q) == key(p);
        }
      }
    }
  }

  /** A checksum group of a size group is a reported duplicate group. */
  lemma ChecksumOfSizeGroup<D>(fs: FileSystem, md5: seq<byte> -> D, files: seq<Path>, sg: seq<Path>, h: seq<Path>)
    requires IsSizeGroup(fs, files, sg) && IsChecksumGroup(fs, md5, sg, h)
    ensures IsDigestGroup(fs, md5, files, h)
  {
    assert h[0] in sg;
  }

  /**
   * Every reported group has two or more input files of equal non-zero size
   * and equal checksum, and no file lies in two reported groups.
   */
  lemma DigestReportSpec<D>(fs: FileSystem, md5: seq<byte> -> D, files: seq<Path>)
    requires AllExist(fs, files)
    ensures forall g :: g in DigestReport(fs, md5, files) ==> IsDigestGroup(fs, md5, files, g)
    ensures Disjoint(DigestReport(fs, md5, files))
  {
    var sgs := SizeGroups(fs, files);
    var pass := ChecksumPass(fs, md5);
    SizeGroupsSpec(fs, files);
    ConcatMapMembers(pass, sgs);
    forall sg | sg in sgs ensures Splits(pass, sg) {
      ChecksumGroupsSpec(fs, md5, sg);
    }
    ConcatMapDisjoint(pass, sgs);
    forall h | h in DigestReport(fs, md5, files) ensures IsDigestGroup(fs, md5, files, h) {
      var sg :| sg in sgs && h in pass(sg);
      ChecksumGroupsSpec(fs, md5, sg);
      ChecksumOfSizeGroup(fs, md5, files, sg, h);
    }
  }

  /** Another input file of the same size and checksum as `p`. */
  ghost predicate HasTwin<D>(fs: FileSystem, md5: seq<byte> -> D, files: seq<Path>, p: Path)
    requires AllExist(fs, files) && p in fs
  {
    exists q :: q in files && q != p && Size(fs, q) == Size(fs, p) && Checksum(fs, md5, q) == Checksum(fs, md5, p)
  }

  /** For distinct paths, a reported file is non-empty and has a twin. */
  lemma ReportedHasTwin<D>(fs: FileSystem, md5: seq<byte> -> D, files: seq<Path>, p: Path, h: seq<Path>)
    requires AllExist(fs, files) && NoDup(files)
    requires h in DigestReport(fs, md5, files) && p in h
    ensures p in fs && Size(fs, p) > 0 && HasTwin(fs, md5, files, p)
  {
    var sgs := SizeGroups(fs, files);
    var pass := ChecksumPass(fs, md5);
    SizeGroupsSpec(fs, files);
    ConcatMapMembers(pass, sgs);
    var sg :| sg in sgs && h in pass(sg);
    assert IsSizeGroup(fs, files, sg) && NoDup(sg);
    ChecksumGroupsSpec(fs, md5, sg);
    GroupsMembers(sg, ChecksumKey(fs, md5), {});
    assert NoDup(h) && |h| >= 2;
    assert h[0] != h[1];
    var q := if h[0] != p then h[0] else h[1];
    assert q in h && q != p;
    assert q in sg && p in sg;
  }

  /** For distinct paths, a non-empty file with a twin is reported. */
  lemma TwinIsReported<D>(fs: FileSystem, md5: seq<byte> -> D, files: seq<Path>, p: Path)
    requires AllExist(fs, files) && NoDup(files) && p in files
    requires Size(fs, p) > 0 && HasTwin(fs, md5, files, p)
    ensures exists h :: h in DigestReport(fs, md5, files) && p in h
  {
    var sgs := SizeGroups(fs, files);
    var pass := ChecksumPass(fs, md5);
    var q :| q in files && q != p && Size(fs, q) == Size(fs, p) && Checksum(fs, md5, q) == Checksum(fs, md5, p);
    var sg := SizeGroupOfPair(fs, files, p, q);
    ChecksumGroupsCover(fs, md5, sg);
    var h :| h in ChecksumGroups(fs, md5, sg) && p in h;
    assert h in pass(sg);
    ConcatMapMembers(pass, sgs);
  }

  /**
   * For distinct paths, a file is reported iff it is non-empty and another
   * input file has the same size and the same checksum.
   */
  lemma DigestReportCover<D>(fs: FileSystem, md5: seq<byte> -> D, files: seq<Path>)
    requires AllExist(fs, files) && NoDup(files)
    ensures forall p :: p in files ==>
      ((exists g :: g in DigestReport(fs, md5, files) && p in g)
       <==> Size(fs, p) > 0 && HasTwin(fs, md5, files, p))
  {
    forall p | p in files
      ensures (exists g :: g in DigestReport(fs, md5, files) && p in g)
          <==> Size(fs, p) > 0 && HasTwin(fs, md5, files, p)
    {
      if exists g :: g in DigestReport(fs, md5, files) && p in g {
        var h :| h in DigestReport(fs, md5, files) && p in h;
        ReportedHasTwin(fs, md5, files, p, h);
      }
      if Size(fs, p) > 0 && HasTwin(fs, md5, files, p) {
        TwinIsReported(fs, md5, files, p);
      }
    }
  }
}

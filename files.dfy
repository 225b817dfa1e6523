/**
 * The file system snapshot the finder reads, and the size pass that both
 * variants share: files are bucketed by byte length, zero-length files are
 * passed over and buckets with a single member are dropped.
 */
module Files {
  import opened Grouping

  newtype byte = x: int | 0 <= x < 256

  /** An absolute path, as handed over by the directory scan. */
  type Path = string

  /**
   * One regular file: its bytes and whether the process may read it.
   * The size is known even without read permission (it comes from stat).
   */
  datatype FileEntry = FileEntry(content: seq<byte>, readable: bool)

  /** The files present when the finder runs. */
  type FileSystem = map<Path, FileEntry>

  /** Every path of the list names a file of the snapshot (getsize raises otherwise). */
  predicate AllExist(fs: FileSystem, files: seq<Path>) {
    forall p :: p in files ==> p in fs
  }

  /** The byte length a size query returns. */
  function Size(fs: FileSystem, p: Path): nat
    requires p in fs
  {
    |fs[p].content|
  }

  /** Whether a read-permission check succeeds: the file exists and may be read. */
  predicate Readable(fs: FileSystem, p: Path) {
    p in fs && fs[p].readable
  }

  /** Size as a bucketing key; only ever applied to paths of the snapshot. */
  function SizeKey(fs: FileSystem): Path -> nat {
    p => if p in fs then Size(fs, p) else 0
  }

  /** The sizes that are never bucketed: empty files are not duplicates. */
  function EmptySize(): set<nat> {
    {0}
  }

  /** The size groups both variants compute, in first-seen size order. */
  function SizeGroups(fs: FileSystem, files: seq<Path>): seq<seq<Path>> {
    Groups(files, SizeKey(fs), EmptySize())
  }

  /**
   * `g` is a size group of `files`: two or more input files, all of one
   * non-zero size, forming the input's list of files of that size in input order.
   */
  ghost predicate IsSizeGroup(fs: FileSystem, files: seq<Path>, g: seq<Path>) {
    && |g| >= 2
    && (forall p :: p in g ==> p in files && p in fs)
    && g[0] in fs
    && Size(fs, g[0]) > 0
    && (forall p :: p in g ==> Size(fs, p) == Size(fs, g[0]))
    && g == Bucket(files, SizeKey(fs), Size(fs, g[0]))
  }

  /**
   * Every size group is one, no two groups have the same size (so files of
   * different sizes never share a group), and groups are disjoint.
   */
  lemma SizeGroupsSpec(fs: FileSystem, files: seq<Path>)
    requires AllExist(fs, files)
    ensures forall g :: g in SizeGroups(fs, files) ==> IsSizeGroup(fs, files, g)
    ensures KeyedApart(SizeGroups(fs, files), SizeKey(fs))
    ensures Disjoint(SizeGroups(fs, files))
    ensures NoDup(files) ==> forall g :: g in SizeGroups(fs, files) ==> NoDup(g)
  {
    var gs := SizeGroups(fs, files);
    GroupsSpec(files, SizeKey(fs), EmptySize());
    GroupsMembers(files, SizeKey(fs), EmptySize());
    forall g | g in gs ensures IsSizeGroup(fs, files, g) {
      assert g[0] in g;
      assert forall p :: p in g ==> SizeKey(fs)(p) == SizeKey(fs)(g[0]);
    }
  }

  /**
   * For distinct paths: a file lands in a size group iff it is non-empty and
   * another input file has the same size.
   */
  lemma SizeGroupsCover(fs: FileSystem, files: seq<Path>)
    requires AllExist(fs, files) && NoDup(files)
    ensures forall p :: p in files ==>
      ((exists g :: g in SizeGroups(fs, files) && p in g)
       <==> Size(fs, p) > 0 && exists q :: q in files && q != p && Size(fs, q) == Size(fs, p))
  {
    GroupsCover(files, SizeKey(fs), EmptySize());
    forall p | p in files
      ensures (exists q :: q in files && q != p && SizeKey(fs)(q) == SizeKey(fs)(p))
          <==> (exists q :: q in files && q != p && Size(fs, q) == Size(fs, p))
    {
      if exists q :: q in files && q != p && Size(fs, q) == Size(fs, p) {
        var q :| q in files && q != p && Size(fs, q) == Size(fs, p);
        assert SizeKey(fs)(q) == SizeKey(fs)(p);
      }
    }
  }

  /** Two distinct non-empty input files of one size share a size group. */
  lemma SizeGroupOfPair(fs: FileSystem, files: seq<Path>, p: Path, q: Path) returns (g: seq<Path>)
    requires AllExist(fs, files) && NoDup(files)
    requires p in files && q in files && p != q && Size(fs, p) == Size(fs, q) > 0
    ensures g in SizeGroups(fs, files) && p in g && q in g && NoDup(g)
    ensures IsSizeGroup(fs, files, g)
  {
    SizeGroupsSpec(fs, files);
    SizeGroupsCover(fs, files);
    g :| g in SizeGroups(fs, files) && p in g;
    assert IsSizeGroup(fs, files, g);
    BucketSpec(files, SizeKey(fs), Size(fs, g[0]));
  }
}

/**
 * The tree generate_duplicate_files2.py writes, and what both variants
 * report for the file list of the unit tests together with the empty file.
 * Paths are written relative to the directory the tree is generated in.
 */
module Scenario {
  import opened Grouping
  import opened Files
  import opened Sorting
  import DigestFinder
  import DiffFinder

  /** The seven files the generator writes. */
  datatype Layout = Layout(
    test1: Path, test1x: Path, test2: Path, test2x: Path, test2xx: Path, test3: Path, emptyFile: Path)

  /** The paths of the generated tree, relative to where it is generated. */
  function Generated(): Layout {
    Layout(
      "duplicates/dir1/test1",
      "duplicates/dir1/dir2/test1x",
      "duplicates/dir1/dir2/dir3/test2",
      "duplicates/dir4/test2x",
      "duplicates/dir5/test2xx",
      "duplicates/dir5/dir6/test3",
      "duplicates/dir5/dir6/emptyfile.txt")
  }

  /** No two of the seven paths coincide. */
  predicate Distinct(n: Layout) {
    && n.test1 != n.test1x && n.test1 != n.test2 && n.test1 != n.test2x && n.test1 != n.test2xx
    && n.test1 != n.test3 && n.test1 != n.emptyFile
    && n.test1x != n.test2 && n.test1x != n.test2x && n.test1x != n.test2xx && n.test1x != n.test3
    && n.test1x != n.emptyFile
    && n.test2 != n.test2x && n.test2 != n.test2xx && n.test2 != n.test3 && n.test2 != n.emptyFile
    && n.test2x != n.test2xx && n.test2x != n.test3 && n.test2x != n.emptyFile
    && n.test2xx != n.test3 && n.test2xx != n.emptyFile
    && n.test3 != n.emptyFile
  }

  /** The order `sorted` puts the copies in, for the generated paths. */
  predicate Ordered(n: Layout) {
    PathLe(n.test2, n.test2x) && PathLe(n.test2x, n.test2xx) && PathLe(n.test1x, n.test1)
  }

  /** The ASCII bytes of "This is test1", "This is test2" and "This is test3". */
  const Text1: seq<byte> := [84, 104, 105, 115, 32, 105, 115, 32, 116, 101, 115, 116, 49]
  const Text2: seq<byte> := [84, 104, 105, 115, 32, 105, 115, 32, 116, 101, 115, 116, 50]
  const Text3: seq<byte> := [84, 104, 105, 115, 32, 105, 115, 32, 116, 101, 115, 116, 51]

  /** The generated tree: every file readable, the empty file without content. */
  function Tree(n: Layout): FileSystem {
    map[
      n.test1 := FileEntry(Text1, true),
      n.test1x := FileEntry(Text1, true),
      n.test2 := FileEntry(Text2, true),
      n.test2x := FileEntry(Text2, true),
      n.test2xx := FileEntry(Text2, true),
      n.test3 := FileEntry(Text3, true),
      n.emptyFile := FileEntry([], true)]
  }

  /** The unit tests' file list, then the empty file. */
  function Listed(n: Layout): seq<Path> {
    [n.test2x, n.test2xx, n.test3, n.test1, n.test1x, n.test2, n.emptyFile]
  }

  /** The six non-empty files, in list order. */
  function NonEmpty(n: Layout): seq<Path> {
    [n.test2x, n.test2xx, n.test3, n.test1, n.test1x, n.test2]
  }

  /** The groups the byte-compare variant reports: each class of the tree, sorted. */
  function Copies2(n: Layout): seq<Path> { [n.test2, n.test2x, n.test2xx] }
  function Copies3(n: Layout): seq<Path> { [n.test3] }
  function Copies1(n: Layout): seq<Path> { [n.test1x, n.test1] }

  // ---------------------------------------------------------------------
  // Facts about the tree
  // ---------------------------------------------------------------------

  lemma TextsDiffer()
    ensures Text1 != Text2 && Text1 != Text3 && Text2 != Text3
  {
    assert Text1[12] != Text2[12] && Text1[12] != Text3[12] && Text2[12] != Text3[12];
  }

  lemma TreeSizes(n: Layout)
    requires Distinct(n)
    ensures AllExist(Tree(n), Listed(n))
    ensures forall p :: p in NonEmpty(n) ==> SizeKey(Tree(n))(p) == 13
    ensures SizeKey(Tree(n))(n.emptyFile) == 0
  {
  }

  /** Strings with a common prefix compare as what follows it. */
  lemma {:induction false} PathLePrefix(c: string, a: string, b: string)
    requires PathLe(a, b)
    ensures PathLe(c + a, c + b)
    decreases |c|
  {
    if c == [] {
      assert c + a == a && c + b == b;
    } else {
      PathLePrefix(c[1..], a, b);
      assert (c + a)[1..] == c[1..] + a;
      assert (c + b)[1..] == c[1..] + b;
    }
  }

  lemma GeneratedDistinct()
    ensures Distinct(Generated())
  {
    var n := Generated();
    assert |n.test1| == 21 && |n.test1x| == 27 && |n.test2| == 31 && |n.test2x| == 22;
    assert |n.test2xx| == 23 && |n.test3| == 26 && |n.emptyFile| == 34;
  }

  lemma Test2Path()
    ensures Generated().test2 == "duplicates/dir" + "1/dir2/dir3/test2"
  {
  }

  lemma Test2BeforeTest2x()
    ensures PathLe(Generated().test2, Generated().test2x)
  {
    Test2Path();
    assert Generated().test2x == "duplicates/dir" + "4/test2x";
    PathLePrefix("duplicates/dir", "1/dir2/dir3/test2", "4/test2x");
  }

  lemma Test2xBeforeTest2xx()
    ensures PathLe(Generated().test2x, Generated().test2xx)
  {
    assert Generated().test2x == "duplicates/dir" + "4/test2x";
    assert Generated().test2xx == "duplicates/dir" + "5/test2xx";
    PathLePrefix("duplicates/dir", "4/test2x", "5/test2xx");
  }

  lemma Test1xBeforeTest1()
    ensures PathLe(Generated().test1x, Generated().test1)
  {
    assert Generated().test1x == "duplicates/dir1/" + "dir2/test1x";
    assert Generated().test1 == "duplicates/dir1/" + "test1";
    PathLePrefix("duplicates/dir1/", "dir2/test1x", "test1");
  }

  lemma GeneratedOrdered()
    ensures Ordered(Generated())
  {
    Test2BeforeTest2x();
    Test2xBeforeTest2xx();
    Test1xBeforeTest1();
  }

  lemma CopiesSorted(n: Layout)
    requires Ordered(n)
    ensures IsSorted(Copies2(n)) && IsSorted(Copies3(n)) && IsSorted(Copies1(n))
  {
    PathLeTransitive(n.test2, n.test2x, n.test2xx);
  }

  // ---------------------------------------------------------------------
  // The size pass
  // ---------------------------------------------------------------------

  /** A list whose keys are all `k` or skipped, the first being `k`, has the one key `k`. */
  lemma {:induction false} UniformKeys<T, K>(xs: seq<T>, key: T -> K, skip: set<K>, k: K)
    requires k !in skip && |xs| > 0 && key(xs[0]) == k
    requires forall x :: x in xs ==> key(x) == k || key(x) in skip
    ensures Keys(xs, key, skip) == [k]
  {
    var m := |xs| - 1;
    if m > 0 {
      assert forall x :: x in xs[..m] ==> x in xs;
      UniformKeys(xs[..m], key, skip, k);
    } else {
      assert xs[..m] == [];
    }
    assert xs[m] in xs;
  }

  lemma ScenarioSizeKeys(n: Layout)
    requires Distinct(n)
    ensures Keys(Listed(n), SizeKey(Tree(n)), EmptySize()) == [13]
  {
    TreeSizes(n);
    UniformKeys(Listed(n), SizeKey(Tree(n)), EmptySize(), 13);
  }

  /** A list whose every item has key `k` is its own bucket of `k`. */
  lemma {:induction false} AllOneKey<T, K>(xs: seq<T>, key: T -> K, k: K)
    requires forall x :: x in xs ==> key(x) == k
    ensures Bucket(xs, key, k) == xs
  {
    if xs != [] {
      var n := |xs| - 1;
      assert xs == xs[..n] + [xs[n]];
      AllOneKey(xs[..n], key, k);
    }
  }

  /** Both variants see a single size group: the six files of 13 bytes; the empty file is passed over. */
  lemma ScenarioSizeGroups(n: Layout)
    requires Distinct(n)
    ensures AllExist(Tree(n), Listed(n))
    ensures SizeGroups(Tree(n), Listed(n)) == [NonEmpty(n)]
  {
    var key := SizeKey(Tree(n));
    TreeSizes(n);
    ScenarioSizeKeys(n);
    assert Listed(n) == NonEmpty(n) + [n.emptyFile];
    BucketSnoc(NonEmpty(n), n.emptyFile, key, 13);
    AllOneKey(NonEmpty(n), key, 13);
    var ks: seq<nat> := [13];
    assert ks[..0] == [];
    assert Bucket(Listed(n), key, 13) == NonEmpty(n);
    assert Select(Listed(n), key, ks) == Select(Listed(n), key, []) + [NonEmpty(n)];
  }

  // ---------------------------------------------------------------------
  // The digest variant
  // ---------------------------------------------------------------------

  lemma TreeChecksums<D>(n: Layout, md5: seq<byte> -> D)
    requires Distinct(n)
    ensures DigestFinder.ChecksumKey(Tree(n), md5)(n.test1) == md5(Text1)
    ensures DigestFinder.ChecksumKey(Tree(n), md5)(n.test1x) == md5(Text1)
    ensures DigestFinder.ChecksumKey(Tree(n), md5)(n.test2) == md5(Text2)
    ensures DigestFinder.ChecksumKey(Tree(n), md5)(n.test2x) == md5(Text2)
    ensures DigestFinder.ChecksumKey(Tree(n), md5)(n.test2xx) == md5(Text2)
    ensures DigestFinder.ChecksumKey(Tree(n), md5)(n.test3) == md5(Text3)
  {
  }

  /** The digest tells the three texts apart. */
  predicate Separates<D(==)>(md5: seq<byte> -> D) {
    md5(Text1) != md5(Text2) && md5(Text1) != md5(Text3) && md5(Text2) != md5(Text3)
  }

  /** The keys of six items whose keys follow the pattern of the tree's texts: 2, 2, 3, 1, 1, 2. */
  lemma KeysOfThree<T, K>(a: T, b: T, c: T, key: T -> K)
    requires key(b) == key(a) && key(c) != key(a)
    ensures Keys([a, b, c], key, {}) == [key(a), key(c)]
  {
    var none: set<K> := {};
    var a0: seq<T> := [];
    KeysSnoc(a0, a, key, none);
    assert Keys([a], key, none) == [key(a)] by { assert [a] == a0 + [a]; }
    KeysSnoc([a], b, key, none);
    assert [a] + [b] == [a, b];
    KeysSnoc([a, b], c, key, none);
    assert [a, b] + [c] == [a, b, c];
  }

  lemma KeysOfSix<T, K>(a: T, b: T, c: T, d: T, e: T, f: T, key: T -> K)
    requires key(b) == key(a) && key(f) == key(a) && key(e) == key(d)
    requires key(c) != key(a) && key(d) != key(a) && key(d) != key(c)
    ensures Keys([a, b, c, d, e, f], key, {}) == [key(a), key(c), key(d)]
  {
    var none: set<K> := {};
    KeysOfThree(a, b, c, key);
    KeysSnoc([a, b, c], d, key, none);
    assert [a, b, c] + [d] == [a, b, c, d];
    KeysSnoc([a, b, c, d], e, key, none);
    assert [a, b, c, d] + [e] == [a, b, c, d, e];
    KeysSnoc([a, b, c, d, e], f, key, none);
    assert [a, b, c, d, e] + [f] == [a, b, c, d, e, f];
  }

  /** The bucket of `k` in six items: those of them whose key is `k`, in order. */
  lemma BucketOfThree<T, K>(a: T, b: T, c: T, key: T -> K, k: K)
    ensures Bucket([a, b, c], key, k) ==
      (if key(a) == k then [a] else []) + (if key(b) == k then [b] else []) + (if key(c) == k then [c] else [])
  {
    var a0: seq<T> := [];
    BucketSnoc(a0, a, key, k);
    assert [a] == a0 + [a];
    BucketSnoc([a], b, key, k);
    assert [a] + [b] == [a, b];
    BucketSnoc([a, b], c, key, k);
    assert [a, b] + [c] == [a, b, c];
  }

  lemma BucketOfSix<T, K>(a: T, b: T, c: T, d: T, e: T, f: T, key: T -> K, k: K)
    ensures Bucket([a, b, c, d, e, f], key, k) ==
      (if key(a) == k then [a] else []) + (if key(b) == k then [b] else []) +
      (if key(c) == k then [c] else []) + (if key(d) == k then [d] else []) +
      (if key(e) == k then [e] else []) + (if key(f) == k then [f] else [])
  {
    BucketOfThree(a, b, c, key, k);
    BucketSnoc([a, b, c], d, key, k);
    assert [a, b, c] + [d] == [a, b, c, d];
    BucketSnoc([a, b, c, d], e, key, k);
    assert [a, b, c, d] + [e] == [a, b, c, d, e];
    BucketSnoc([a, b, c, d, e], f, key, k);
    assert [a, b, c, d, e] + [f] == [a, b, c, d, e, f];
  }

  lemma DigestKeys<D>(n: Layout, md5: seq<byte> -> D)
    requires Distinct(n) && Separates(md5)
    ensures Keys(NonEmpty(n), DigestFinder.ChecksumKey(Tree(n), md5), {}) == [md5(Text2), md5(Text3), md5(Text1)]
  {
    TreeChecksums(n, md5);
    KeysOfSix(n.test2x, n.test2xx, n.test3, n.test1, n.test1x, n.test2, DigestFinder.ChecksumKey(Tree(n), md5));
  }

  /** The bucket of each digest. */
  lemma DigestBucket<D>(n: Layout, md5: seq<byte> -> D, t: seq<byte>)
    requires Distinct(n) && Separates(md5)
    requires t == Text1 || t == Text2 || t == Text3
    ensures Bucket(NonEmpty(n), DigestFinder.ChecksumKey(Tree(n), md5), md5(t)) ==
      if t == Text1 then [n.test1, n.test1x] else if t == Text2 then [n.test2x, n.test2xx, n.test2] else [n.test3]
  {
    TreeChecksums(n, md5);
    BucketOfSix(n.test2x, n.test2xx, n.test3, n.test1, n.test1x, n.test2, DigestFinder.ChecksumKey(Tree(n), md5), md5(t));
  }

  /** The step of the bucket selection for one more key. */
  lemma SelectSnoc<T, K>(xs: seq<T>, key: T -> K, ks: seq<K>, k: K)
    ensures Select(xs, key, ks + [k]) ==
      Select(xs, key, ks) + (if |Bucket(xs, key, k)| > 1 then [Bucket(xs, key, k)] else [])
  {
    assert (ks + [k])[..|ks|] == ks;
  }

  /** The selection for three keys whose buckets have 3, 1 and 2 members. */
  lemma SelectOfThree<T, K>(xs: seq<T>, key: T -> K, k1: K, k2: K, k3: K)
    requires |Bucket(xs, key, k1)| == 3 && |Bucket(xs, key, k2)| == 1 && |Bucket(xs, key, k3)| == 2
    ensures Select(xs, key, [k1, k2, k3]) == [Bucket(xs, key, k1), Bucket(xs, key, k3)]
  {
    var k0: seq<K> := [];
    SelectSnoc(xs, key, k0, k1);
    assert [k1] == k0 + [k1];
    SelectSnoc(xs, key, [k1], k2);
    assert [k1] + [k2] == [k1, k2];
    SelectSnoc(xs, key, [k1, k2], k3);
    assert [k1, k2] + [k3] == [k1, k2, k3];
  }

  lemma DigestChecksumGroups<D>(n: Layout, md5: seq<byte> -> D)
    requires Distinct(n) && Separates(md5)
    ensures DigestFinder.ChecksumGroups(Tree(n), md5, NonEmpty(n)) ==
      [[n.test2x, n.test2xx, n.test2], [n.test1, n.test1x]]
  {
    var key := DigestFinder.ChecksumKey(Tree(n), md5);
    DigestKeys(n, md5);
    DigestBucket(n, md5, Text1);
    DigestBucket(n, md5, Text2);
    DigestBucket(n, md5, Text3);
    SelectOfThree(NonEmpty(n), key, md5(Text2), md5(Text3), md5(Text1));
  }

  /** The digest variant on a tree of seven distinct paths laid out as generated. */
  lemma DigestOnLayout<D>(n: Layout, md5: seq<byte> -> D)
    requires Distinct(n) && Separates(md5)
    ensures DigestFinder.DigestReport(Tree(n), md5, Listed(n)) ==
      [[n.test2x, n.test2xx, n.test2], [n.test1, n.test1x]]
  {
    ScenarioSizeGroups(n);
    DigestChecksumGroups(n, md5);
    var pass := DigestFinder.ChecksumPass(Tree(n), md5);
    var sizeGroups := [NonEmpty(n)];
    assert sizeGroups[..0] == [];
    assert ConcatMap(pass, sizeGroups) == ConcatMap(pass, []) + pass(NonEmpty(n));
  }

  /**
   * The digest variant on the generated tree, for any digest that tells the
   * three texts apart: the three copies of test2 and the two copies of test1,
   * in list order; test3 has no copy and the empty file is skipped.
   */
  lemma DigestScenario<D>(md5: seq<byte> -> D)
    requires Separates(md5)
    ensures DigestFinder.DigestReport(Tree(Generated()), md5, Listed(Generated())) ==
      [["duplicates/dir4/test2x", "duplicates/dir5/test2xx", "duplicates/dir1/dir2/dir3/test2"],
       ["duplicates/dir1/test1", "duplicates/dir1/dir2/test1x"]]
  {
    GeneratedDistinct();
    DigestOnLayout(Generated(), md5);
  }

  // ---------------------------------------------------------------------
  // The byte-compare variant
  // ---------------------------------------------------------------------

  lemma TreeContents(n: Layout)
    requires Distinct(n)
    ensures forall q :: q in NonEmpty(n) ==> Readable(Tree(n), q)
    ensures Tree(n)[n.test1].content == Text1 && Tree(n)[n.test1x].content == Text1
    ensures Tree(n)[n.test2].content == Text2 && Tree(n)[n.test2x].content == Text2
    ensures Tree(n)[n.test2xx].content == Text2 && Tree(n)[n.test3].content == Text3
  {
  }

  /** Every file of a class of the tree has that class, sorted, as its group. */
  lemma ClassGroup(n: Layout, f: Path, r: seq<Path>)
    requires Distinct(n) && Ordered(n)
    requires r == Copies1(n) || r == Copies2(n) || r == Copies3(n)
    requires f in r
    ensures DiffFinder.DiffGroup(Tree(n), f, NonEmpty(n)) == r
  {
    var fs := Tree(n);
    ClassMembers(n, f, r);
    ClassComplete(n, f, r);
    CopiesSorted(n);
    TreeContents(n);
    DiffFinder.DiffGroupOfReadable(fs, f, NonEmpty(n), r);
  }

  /** The members of a class of the tree are non-empty files with the content of any one of them. */
  lemma ClassMembers(n: Layout, f: Path, r: seq<Path>)
    requires Distinct(n)
    requires r == Copies1(n) || r == Copies2(n) || r == Copies3(n)
    requires f in r
    ensures NoDup(NonEmpty(n)) && NoDup(r) && f in NonEmpty(n) && f in Tree(n)
    ensures forall q :: q in r ==> q in NonEmpty(n) && q in Tree(n) && Tree(n)[q].content == Tree(n)[f].content
  {
    TreeContents(n);
  }

  /** A non-empty file with the content of a member of a class of the tree is in that class. */
  lemma ClassComplete(n: Layout, f: Path, r: seq<Path>)
    requires Distinct(n)
    requires r == Copies1(n) || r == Copies2(n) || r == Copies3(n)
    requires f in r
    ensures forall q :: q in NonEmpty(n) && q in Tree(n) && Tree(n)[q].content == Tree(n)[f].content ==> q in r
  {
    TextsDiffer();
    TreeContents(n);
  }

  /** `g` applied to six items. */
  lemma MapOfThree<T, U>(g: T -> U, a: T, b: T, c: T)
    ensures MapSeq(g, [a, b, c]) == [g(a), g(b), g(c)]
  {
    var a0: seq<T> := [];
    MapSeqSnoc(g, a0, a);
    assert [a] == a0 + [a];
    MapSeqSnoc(g, [a], b);
    assert [a] + [b] == [a, b];
    MapSeqSnoc(g, [a, b], c);
    assert [a, b] + [c] == [a, b, c];
  }

  lemma MapOfSix<T, U>(g: T -> U, a: T, b: T, c: T, d: T, e: T, f: T)
    ensures MapSeq(g, [a, b, c, d, e, f]) == [g(a), g(b), g(c), g(d), g(e), g(f)]
  {
    MapOfThree(g, a, b, c);
    MapSeqSnoc(g, [a, b, c], d);
    assert [a, b, c] + [d] == [a, b, c, d];
    MapSeqSnoc(g, [a, b, c, d], e);
    assert [a, b, c, d] + [e] == [a, b, c, d, e];
    MapSeqSnoc(g, [a, b, c, d, e], f);
    assert [a, b, c, d, e] + [f] == [a, b, c, d, e, f];
  }

  lemma DedupOfThree<X>(a: X, c: X)
    requires c != a
    ensures Dedup([a, a, c]) == [a, c]
  {
    var a0: seq<X> := [];
    DedupSnoc(a0, a);
    assert [a] == a0 + [a];
    DedupSnoc([a], a);
    assert [a] + [a] == [a, a];
    DedupSnoc([a, a], c);
    assert [a, a] + [c] == [a, a, c];
  }

  /** Dropping the repeats of six items that follow the pattern of the tree's texts: 2, 2, 3, 1, 1, 2. */
  lemma DedupOfSix<X>(a: X, c: X, d: X)
    requires c != a && d != a && d != c
    ensures Dedup([a, a, c, d, d, a]) == [a, c, d]
  {
    DedupOfThree(a, c);
    DedupSnoc([a, a, c], d);
    assert [a, a, c] + [d] == [a, a, c, d];
    DedupSnoc([a, a, c, d], d);
    assert [a, a, c, d] + [d] == [a, a, c, d, d];
    DedupSnoc([a, a, c, d, d], a);
    assert [a, a, c, d, d] + [a] == [a, a, c, d, d, a];
  }

  lemma ScenarioGroupsByDiff(n: Layout)
    requires Distinct(n) && Ordered(n)
    ensures DiffFinder.GroupsByDiff(Tree(n), NonEmpty(n)) == [Copies2(n), Copies3(n), Copies1(n)]
  {
    ClassGroup(n, n.test2x, Copies2(n));
    ClassGroup(n, n.test2xx, Copies2(n));
    ClassGroup(n, n.test3, Copies3(n));
    ClassGroup(n, n.test1, Copies1(n));
    ClassGroup(n, n.test1x, Copies1(n));
    ClassGroup(n, n.test2, Copies2(n));
    MapOfSix(DiffFinder.GroupOf(Tree(n), NonEmpty(n)), n.test2x, n.test2xx, n.test3, n.test1, n.test1x, n.test2);
    assert |Copies1(n)| == 2 && |Copies2(n)| == 3 && |Copies3(n)| == 1;
    DedupOfSix(Copies2(n), Copies3(n), Copies1(n));
  }

  /** The byte-compare variant on a tree of seven distinct paths laid out as generated. */
  lemma DiffOnLayout(n: Layout)
    requires Distinct(n) && Ordered(n)
    ensures DiffFinder.DiffReport(Tree(n), Listed(n)) == [Copies2(n), Copies3(n), Copies1(n)]
  {
    ScenarioSizeGroups(n);
    ScenarioGroupsByDiff(n);
    var pass := DiffFinder.DiffPass(Tree(n));
    var sizeGroups := [NonEmpty(n)];
    assert sizeGroups[..0] == [];
    assert ConcatMap(pass, sizeGroups) == ConcatMap(pass, []) + pass(NonEmpty(n));
  }

  /**
   * The byte-compare variant on the generated tree reports every class of
   * the size group, sorted, test3 on its own included; the empty file is skipped.
   */
  lemma DiffScenario()
    ensures DiffFinder.DiffReport(Tree(Generated()), Listed(Generated())) ==
      [["duplicates/dir1/dir2/dir3/test2", "duplicates/dir4/test2x", "duplicates/dir5/test2xx"],
       ["duplicates/dir5/dir6/test3"],
       ["duplicates/dir1/dir2/test1x", "duplicates/dir1/test1"]]
  {
    GeneratedDistinct();
    GeneratedOrdered();
    DiffOnLayout(Generated());
  }

  /**
   * The byte-compare variant reports test3, which has no copy, as a group
   * of its own: it shares its size with the other files but not its content.
   */
  lemma SingletonReported()
    ensures ["duplicates/dir5/dir6/test3"] in DiffFinder.DiffReport(Tree(Generated()), Listed(Generated()))
  {
    DiffScenario();
  }

  /** Dropping single-member groups from three groups whose middle one is the only singleton. */
  lemma MultiOnlyOfThree<X>(a: seq<X>, b: seq<X>, c: seq<X>)
    requires |a| > 1 && |b| == 1 && |c| > 1
    ensures MultiOnly([a, b, c]) == [a, c]
  {
    var e: seq<seq<X>> := [];
    assert [a, b, c][..2] == [a, b] && [a, b][..1] == [a] && [a][..0] == e;
    assert MultiOnly([a]) == [a];
    assert MultiOnly([a, b]) == [a];
  }

  /** Without singleton groups, the generated tree yields just its two sets of copies, sorted. */
  lemma DuplicateScenario()
    ensures DiffFinder.DuplicateReport(Tree(Generated()), Listed(Generated())) ==
      [["duplicates/dir1/dir2/dir3/test2", "duplicates/dir4/test2x", "duplicates/dir5/test2xx"],
       ["duplicates/dir1/dir2/test1x", "duplicates/dir1/test1"]]
  {
    var n := Generated();
    GeneratedDistinct();
    GeneratedOrdered();
    DiffOnLayout(n);
    MultiOnlyOfThree(Copies2(n), Copies3(n), Copies1(n));
  }
}

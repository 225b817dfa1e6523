# Duplicate-Files-Finder, modelled in Dafny

Duplicate-Files-Finder finds files with the same content under a directory
tree and reports them as groups of paths. It comes in two variants:

- the digest variant (`find_duplicate_files.py`):
  1. It buckets the files by size. Empty files are skipped and buckets
     with a single member are dropped.
  2. It re-buckets each size bucket by the MD5 digest of the content,
     again dropping single-member buckets.
  3. It concatenates the groups of every size bucket.
- the byte-compare variant (`BONUS/find_duplicate_files.py`):
  1. It builds the same size buckets.
  2. For each file of a bucket, it builds the sorted list of that file and
     every other file of the bucket whose bytes are equal. A file that fails
     the read-permission check matches nothing.
  3. It keeps each distinct list once and concatenates the lists of every
     bucket.

The model works on a snapshot of the file system. This is a map from path
to an entry holding the file's bytes and whether it may be read. A file's
size is its byte length. The MD5 function is a parameter `md5`, and the
digest lemmas assume nothing about it: they speak of equal digests.

Modules:

- `Grouping` holds the Python dict the loops fill (`Dict`: keys in
  insertion order, plus entries) and the specification of a bucketing
  pass:
  - `Keys`: first-seen key order, with a set of skipped keys.
  - `Bucket`: the items of one key, in input order.
  - `Select`/`Groups`: the buckets with more than one member.
  - `ConcatMap`: the per-bucket results, concatenated.
  - `Dedup`: first occurrences only, as `if group not in diff_groups`
    does.
  - `MapSeq`: one result per item.

  The dict-filling loop `BucketBy` and the filtering loop
  `MultiMemberLists` are proved against these functions.
- `Files`: the snapshot, sizes, and the size pass both variants share.
- `Sorting`: Python's `sorted` on strings, which orders code points
  lexicographically with a proper prefix first. It is modelled as an
  insertion sort, proved sorted and a permutation. A sorted permutation
  is also proved unique.
- `DigestFinder`: the three operations of the digest variant, as methods
  with loops, proved equal to the specification functions. Lemmas give
  the meaning of each specification function.
- `DiffFinder`: the six operations of the byte-compare variant, treated
  the same way.
  - `SameFile` (same path, or both readable with equal bytes) is proved
    to be an equivalence.
  - The groups of a bucket are proved to be exactly its `SameFile`
    classes, sorted.
- `Scenario`: the tree `generate_duplicate_files2.py` writes, with both
  variants' reports on the files the unit tests list plus the empty file.
  The digest result holds for every digest that tells the three texts
  apart.

## Model

| member | source | states |
|---|---|---|
| Grouping.BucketBy | find_duplicate_files.py:44-51 | the dict after the loop has each non-skipped key once, in first-seen order, mapped to exactly its items in input order (`Models`) |
| Grouping.MultiMemberLists | find_duplicate_files.py:53-55 | the loop over the dict's values returns, in key order, exactly the buckets with more than one member (`Groups`) |
| Grouping.KeysSpec | BONUS/find_duplicate_files.py:78-88 | the dict's keys are distinct, are never a skipped key, and include the key of every non-skipped item |
| Grouping.BucketSpec | BONUS/find_duplicate_files.py:84-88 | a key's list holds an item iff the item is in the input with that key |
| Grouping.BucketNoDup | BONUS/find_duplicate_files.py:84-88 | for distinct inputs a key's list has no repeats |
| Grouping.BucketShared | find_duplicate_files.py:53-55 | for distinct inputs an item's list has two members or more iff another item shares its key |
| Grouping.SelectSpec | find_duplicate_files.py:79-81 | for distinct keys, each selected list is the whole list of one key, with two or more members, no key yields two lists, and every key with two or more items yields one |
| Grouping.GroupsSpec | find_duplicate_files.py:53-55 | every kept group has two or more members, a non-skipped key, and is that key's list in input order; groups have different keys; every key with two or more items yields a group |
| Grouping.GroupsMembers | find_duplicate_files.py:79-81 | every member of a group is an input item with the group's key; no item is in two groups; for distinct inputs groups have no repeats |
| Grouping.GroupsCover | find_duplicate_files.py:79-81 | for distinct inputs an item is grouped iff its key is not skipped and another item shares its key |
| Grouping.ConcatMapMembers | find_duplicate_files.py:91-93 | a group of the concatenation comes from some input bucket, and every group of every bucket is in it |
| Grouping.ConcatMapDisjoint | BONUS/find_duplicate_files.py:180-182 | if the buckets are disjoint and each is split into disjoint groups of its own members, the concatenation is disjoint |
| Grouping.ConcatMapStep | BONUS/find_duplicate_files.py:180-182 | one pass of the `groups += ...` loop appends the next bucket's groups to the concatenation so far |
| Grouping.DedupSpec | BONUS/find_duplicate_files.py:161-162 | the list kept by the `not in` check has no repeats and the same members as the list of candidates |
| Grouping.DedupMapStep | BONUS/find_duplicate_files.py:159-162 | one pass of the loop keeps the groups seen so far and appends the new group only when it is not already there |
| Grouping.MapSeqSpec | BONUS/find_duplicate_files.py:159-160 | one group per file, the i-th being the i-th file's group |
| Grouping.PermutationNoDup | BONUS/find_duplicate_files.py:146 | a permutation of a list without repeats (such as its sorted copy) has no repeats |
| Grouping.SameMembersMultiset | BONUS/find_duplicate_files.py:146 | two lists without repeats and with the same members are permutations of each other |
| Grouping.MultiOnlySpec | BONUS/find_duplicate_files.py:176-184 | dropping the single-member groups keeps exactly the groups of two or more and keeps them disjoint |
| Sorting.PathLeTotal | BONUS/find_duplicate_files.py:146 | any two strings are ordered one way or the other |
| Sorting.PathLeAntisymmetric | BONUS/find_duplicate_files.py:146 | strings ordered both ways are equal |
| Sorting.PathLeTransitive | BONUS/find_duplicate_files.py:146 | the string order is transitive |
| Sorting.InsertMultiset | BONUS/find_duplicate_files.py:146 | an insertion adds exactly one copy of the inserted string |
| Sorting.InsertSorted | BONUS/find_duplicate_files.py:146 | inserting into a sorted list keeps it sorted |
| Sorting.Sort | BONUS/find_duplicate_files.py:146 | `sorted(group)` is sorted and a permutation of `group` |
| Sorting.SortedUnique | BONUS/find_duplicate_files.py:146 | sorted lists with the same multiset of members are equal, so the sort result depends only on the members |
| Files.SizeGroupsSpec | find_duplicate_files.py:40-57 | every size group has two or more existing input files of one non-zero size and is that size's files in input order; no two groups share a size; no file is in two groups |
| Files.SizeGroupsCover | BONUS/find_duplicate_files.py:93-109 | for distinct paths a file lands in a size group iff it is non-empty and another input file has its size |
| Files.SizeGroupOfPair | BONUS/find_duplicate_files.py:93-109 | two distinct non-empty input files of one size are in the same size group |
| DigestFinder.GroupFilesBySize | find_duplicate_files.py:40-57 | the loops return the size groups (`SizeGroups`) |
| DigestFinder.GroupFilesByChecksum | find_duplicate_files.py:68-83 | for readable files, the loops return the checksum groups (`ChecksumGroups`) |
| DigestFinder.FindDuplicateFiles | find_duplicate_files.py:87-95 | when every file of a size group is readable, the result is the checksum groups of every size group, concatenated (`DigestReport`) |
| DigestFinder.ChecksumGroupsSpec | find_duplicate_files.py:68-83 | every checksum group has two or more input files with one checksum; no file is in two groups |
| DigestFinder.ChecksumGroupsCover | find_duplicate_files.py:72-81 | for distinct paths a file is grouped iff another input file has the same checksum |
| DigestFinder.ChecksumOfSizeGroup | find_duplicate_files.py:90-93 | a checksum group of a size group has two or more input files of one non-zero size and one checksum |
| DigestFinder.DigestReportSpec | find_duplicate_files.py:87-95 | every reported group has two or more input files of one non-zero size and one checksum; no file is in two groups |
| DigestFinder.ReportedHasTwin | find_duplicate_files.py:87-95 | for distinct paths a reported file is non-empty, and another input file has its size and checksum |
| DigestFinder.TwinIsReported | find_duplicate_files.py:87-95 | for distinct paths a non-empty file with a same-size, same-checksum twin is reported |
| DigestFinder.DigestReportCover | find_duplicate_files.py:87-95 | for distinct paths a file is reported iff it is non-empty and another input file has the same size and checksum |
| DiffFinder.FileComparison | BONUS/find_duplicate_files.py:113-127 | `None` iff either file fails the read check; otherwise whether the two files hold the same bytes |
| DiffFinder.FileComparisonSymmetric | BONUS/find_duplicate_files.py:122-127 | the comparison is symmetric, and a match is always between two readable files |
| DiffFinder.SameFileEquivalence | BONUS/find_duplicate_files.py:143 | “the same path, or a successful comparison” is reflexive, symmetric and transitive |
| DiffFinder.SameFileContent | BONUS/find_duplicate_files.py:122-125 | two distinct matching paths are readable files with equal bytes and therefore equal sizes |
| DiffFinder.CreateSizeDict | BONUS/find_duplicate_files.py:66-90 | the dict has no key 0; each non-empty file is in its size's list; each list holds only input files of that size, in input order (`Models`) |
| DiffFinder.GroupFilesBySize | BONUS/find_duplicate_files.py:93-109 | the loop returns the size groups (`SizeGroups`) |
| DiffFinder.CreateDiffGroup | BONUS/find_duplicate_files.py:130-146 | the loop and sort return `file1`'s group (`DiffGroup`) |
| DiffFinder.GroupFilesByDiff | BONUS/find_duplicate_files.py:149-164 | the loop returns each file's group, first occurrences only (`GroupsByDiff`) |
| DiffFinder.FindDuplicateFiles | BONUS/find_duplicate_files.py:168-184 | the result is the comparison groups of every size group, concatenated (`DiffReport`) |
| DiffFinder.MatchesSpec | BONUS/find_duplicate_files.py:142-144 | the appended files are exactly the other listed files that match `file1`; for distinct paths they have no repeats |
| DiffFinder.MatchesUnreadable | BONUS/find_duplicate_files.py:122-127 | an unreadable `file1` matches nothing |
| DiffFinder.DiffGroupSpec | BONUS/find_duplicate_files.py:141-146 | the group is sorted and holds `file1`, and its other members are exactly the listed files that match `file1`; it is `[file1]` when `file1` is unreadable |
| DiffFinder.UnsortedNoDup | BONUS/find_duplicate_files.py:141-144 | for distinct paths the group before sorting has no repeats |
| DiffFinder.DiffGroupNoDup | BONUS/find_duplicate_files.py:141-146 | for distinct paths the sorted group has no repeats |
| DiffFinder.DiffGroupsMeet | BONUS/find_duplicate_files.py:159-162 | for distinct paths, two files whose groups share a member have the same group, so `not in` drops the second |
| DiffFinder.DiffGroupUnique | BONUS/find_duplicate_files.py:141-146 | for distinct paths a file's group is the one sorted list without repeats whose members are the files that match it |
| DiffFinder.DiffGroupOfReadable | BONUS/find_duplicate_files.py:141-146 | when all files are readable, a file's group is the sorted list of the files with its bytes |
| DiffFinder.DiffGroupIsClass | BONUS/find_duplicate_files.py:141-146 | a file's group is one class of the list: sorted, pairwise matching, and holding every listed file that matches one of its members |
| DiffFinder.EachGroupSpec | BONUS/find_duplicate_files.py:159-160 | the candidates are exactly the groups of the listed files |
| DiffFinder.GroupsByDiffDisjoint | BONUS/find_duplicate_files.py:157-164 | for distinct paths no file is in two groups |
| DiffFinder.GroupsByDiffSpec | BONUS/find_duplicate_files.py:157-164 | no group appears twice, every group is a class of the list, every file is in a group, and for distinct paths no file is in two groups |
| DiffFinder.DiffOfSizeGroup | BONUS/find_duplicate_files.py:180-182 | a comparison group of a size group is a class of the whole input whose members have one non-zero size |
| DiffFinder.DiffReportSpec | BONUS/find_duplicate_files.py:176-184 | every reported group is a sorted class of the input, with members of one non-zero size; for distinct paths no file is in two groups. Single-member groups occur |
| DiffFinder.DiffReportCover | BONUS/find_duplicate_files.py:176-184 | for distinct paths a file is reported iff it is non-empty and another input file has its size, whatever its content and even when unreadable |
| DiffFinder.ReportGroupsNoDup | BONUS/find_duplicate_files.py:176-184 | for distinct paths no reported group has a repeated path |
| DiffFinder.GroupReported | BONUS/find_duplicate_files.py:180-182 | the group of a file of a size group is in the report |
| DiffFinder.DuplicateReportSpec | BONUS/find_duplicate_files.py:176-184 | with single-member groups dropped, every group is a class of two or more same-size files; for distinct paths groups are disjoint, and a file is reported iff it is non-empty and has a copy in the input |
| DiffFinder.CopyInGroup | BONUS/find_duplicate_files.py:176-184 | a file of a group of two distinct members or more has a copy among the others |
| DiffFinder.CopyIsReported | BONUS/find_duplicate_files.py:176-184 | for distinct paths a non-empty file with a copy is in a group of two or more |
| Scenario.GeneratedDistinct | generate_duplicate_files2.py:24-44 | the seven generated paths are pairwise different |
| Scenario.GeneratedOrdered | generate_duplicate_files2.py:24-44 | `sorted` orders the copies test2 < test2x < test2xx and test1x < test1 |
| Scenario.ScenarioSizeGroups | test_find_duplicate_files.py:67-83 | on the test list plus the empty file there is one size group: the six 13-byte files in list order; the empty file is skipped |
| Scenario.DigestChecksumGroups | test_find_duplicate_files.py:111-119 | the checksum groups of that size group are the test2 copies and then the test1 copies, in list order |
| Scenario.DigestScenario | test_find_duplicate_files.py:20-32 | for every digest that tells the three texts apart, the digest variant reports exactly the test2 copies and then the test1 copies, each in list order: the test's expected groups, with the two groups in the other order |
| Scenario.ScenarioGroupsByDiff | BONUS/find_duplicate_files.py:157-164 | on the size group the comparison groups are test2's copies, test3 alone and test1's copies, each sorted |
| Scenario.DiffScenario | BONUS/find_duplicate_files.py:176-184 | the byte-compare variant reports the sorted copies of test2, `[test3]` on its own and the sorted copies of test1 |
| Scenario.SingletonReported | BONUS/find_duplicate_files.py:176-184 | the byte-compare report holds the single-member group `[test3]` |
| Scenario.DuplicateScenario | BONUS/find_duplicate_files.py:176-184 | with single-member groups dropped, the generated tree yields just the sorted copies of test2 and of test1 |

## Left out

- Reading the disk: `getsize`, `access`, `open` and `read` become
  lookups in the snapshot. Real I/O, races between the size check and
  the read, and directory permissions are not modelled.
- Exceptions: a missing path makes `getsize` raise. The model rules
  this out with `requires AllExist`. Opening an unreadable file raises
  in the digest variant, which the model rules out with the readability
  requirements of `DigestFinder.GroupFilesByChecksum` and
  `DigestFinder.FindDuplicateFiles`. The byte-compare `main` catching
  every exception is not modelled.
- `get_argument`, `scan_files`, `get_file_paths` and `main` (argument
  parsing, the directory walk, JSON output) are not modelled. The
  finder functions start from the list of paths.
- MD5 itself: `get_file_checksum` is the parameter `md5` applied to the
  file's bytes. No property of MD5 (such as collision freedom) is
  assumed. The lemmas therefore relate equal digests, not equal
  contents.
- The scenario leaves out the absolute prefix `/home/mbach/mbach/` of
  the test's paths. Paths are taken relative to the directory the tree
  is generated in, which changes no comparison between them.
- The scenario's texts are 13 bytes long ("This is test1"), as the
  generator writes them, not 14.
- The test of `group_files_by_size` expects every group to have more
  than two members. The code keeps groups of more than one
  (`len(group) > 1`), and the model follows the code.
- The checksum test expects `get_file_checksum` to return `None` for an
  unreadable file. The code has no such path: `open` raises. The test
  also calls `create_hash_dict`, which neither variant defines. Neither
  expectation is modelled.
- The docstring of `file_comparison` says `None` is returned when both
  files lack read permission. The code returns `None` when either
  does, and the model follows the code.
- The test's expected groups list the test1 copies before the test2
  copies. The code reports them in first-seen digest order, that is
  test2 first. The test compares only the flattened, sorted paths, and
  `Scenario.DigestScenario` states the code's order.

## Findings

| source | as written | input that shows it | evidently intended | confidence | as-written member | corrected member |
|---|---|---|---|---|---|---|
| BONUS/find_duplicate_files.py:176-184 | every comparison group is reported, including single-member groups of a file whose size is shared but whose bytes are not (and of any unreadable file in a size group) | the generated tree with the test's file list: test3 has the size of the other five files but its own content, and is reported as `[test3]` | report only groups of two or more, as the size and digest passes do | medium, not executed | Scenario.SingletonReported | DiffFinder.DuplicateReportSpec |

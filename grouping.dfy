/**
 * Bucketing a list by a key, the way the finder does it with a Python dict:
 * every item is appended to the list stored under its key, keys are kept in
 * the order they were first seen, and items whose key is in `skip` are passed
 * over. Afterwards the lists with more than one member are collected in key
 * order. The functions here are the specification the imperative loops of
 * both finder variants are proved against.
 */
module Grouping {

  /** A Python dict: its keys in insertion order and its entries. */
  datatype Dict<K, V> = Dict(keys: seq<K>, entries: map<K, V>)

  predicate NoDup<X(==)>(s: seq<X>) {
    forall i, j :: 0 <= i < j < |s| ==> s[i] != s[j]
  }

  /** No item lies in two groups. */
  predicate Disjoint<X(==)>(gs: seq<seq<X>>) {
    forall i, j, x :: 0 <= i < j < |gs| && x in gs[i] ==> x !in gs[j]
  }

  /** The keys of `xs` that are not skipped, each once, in first-seen order. */
  function Keys<T, K(==)>(xs: seq<T>, key: T -> K, skip: set<K>): seq<K>
  {
    if xs == [] then []
    else
      var ks := Keys(xs[..|xs| - 1], key, skip);
      var k := key(xs[|xs| - 1]);
      if k in skip || k in ks then ks else ks + [k]
  }

  /** The items of `xs` whose key is `k`, in input order. */
  function Bucket<T, K(==)>(xs: seq<T>, key: T -> K, k: K): seq<T>
  {
    if xs == [] then []
    else
      Bucket(xs[..|xs| - 1], key, k)
      + (if key(xs[|xs| - 1]) == k then [xs[|xs| - 1]] else [])
  }

  /** The buckets of the keys `ks`, in that order, keeping those with more than one member. */
  function Select<T, K(==)>(xs: seq<T>, key: T -> K, ks: seq<K>): seq<seq<T>>
  {
    if ks == [] then []
    else
      var b := Bucket(xs, key, ks[|ks| - 1]);
      Select(xs, key, ks[..|ks| - 1]) + (if |b| > 1 then [b] else [])
  }

  /** The groups the finder reports for one bucketing pass. */
  function Groups<T, K(==)>(xs: seq<T>, key: T -> K, skip: set<K>): seq<seq<T>>
  {
    Select(xs, key, Keys(xs, key, skip))
  }

  /** `d` is the dict that the bucketing loop has built after reading `xs`. */
  ghost predicate Models<T, K>(d: Dict<K, seq<T>>, xs: seq<T>, key: T -> K, skip: set<K>)
  {
    && d.keys == Keys(xs, key, skip)
    && (forall k :: k in d.keys ==> k in d.entries)
    && (forall k :: k in d.entries ==> k in d.keys && d.entries[k] == Bucket(xs, key, k))
  }

  /** Concatenation of `f` applied to every group of `gs`, in order. */
  function ConcatMap<T>(f: seq<T> -> seq<seq<T>>, gs: seq<seq<T>>): seq<seq<T>>
  {
    if gs == [] then [] else ConcatMap(f, gs[..|gs| - 1]) + f(gs[|gs| - 1])
  }

  // ---------------------------------------------------------------------
  // The dict the loop maintains
  // ---------------------------------------------------------------------

  /** Appending an item grows only its own key's bucket. */
  lemma BucketSnoc<T, K>(xs: seq<T>, x: T, key: T -> K, k: K)
    ensures Bucket(xs + [x], key, k) == Bucket(xs, key, k) + (if key(x) == k then [x] else [])
  {
    assert (xs + [x])[..|xs|] == xs;
  }

  /** Appending an item adds its key at the end unless the key is skipped or already seen. */
  lemma KeysSnoc<T, K>(xs: seq<T>, x: T, key: T -> K, skip: set<K>)
    ensures Keys(xs + [x], key, skip) ==
      if key(x) in skip || key(x) in Keys(xs, key, skip) then Keys(xs, key, skip)
      else Keys(xs, key, skip) + [key(x)]
  {
    assert (xs + [x])[..|xs|] == xs;
  }

  /** The loop step for an item whose key is skipped (a zero size): the dict is unchanged. */
  lemma ModelsSkip<T, K>(d: Dict<K, seq<T>>, xs: seq<T>, x: T, key: T -> K, skip: set<K>)
    requires Models(d, xs, key, skip) && key(x) in skip
    ensures Models(d, xs + [x], key, skip)
  {
    KeysSnoc(xs, x, key, skip);
    KeysSpec(xs, key, skip);
    forall k | k in d.entries ensures d.entries[k] == Bucket(xs + [x], key, k) {
      BucketSnoc(xs, x, key, k);
    }
  }

  /** The loop step for an item whose key is already in the dict: append to its list. */
  lemma ModelsExtend<T, K>(d: Dict<K, seq<T>>, xs: seq<T>, x: T, key: T -> K, skip: set<K>)
    requires Models(d, xs, key, skip) && key(x) !in skip && key(x) in d.entries
    ensures Models(d.(entries := d.entries[key(x) := d.entries[key(x)] + [x]]), xs + [x], key, skip)
  {
    var d' := d.(entries := d.entries[key(x) := d.entries[key(x)] + [x]]);
    KeysSnoc(xs, x, key, skip);
    forall k | k in d'.entries ensures k in d'.keys && d'.entries[k] == Bucket(xs + [x], key, k) {
      BucketSnoc(xs, x, key, k);
      if k != key(x) {
        assert d'.entries[k] == d.entries[k];
      }
    }
  }

  /** The loop step for an item with a new key: insert the key with a one-item list. */
  lemma ModelsInsert<T, K>(d: Dict<K, seq<T>>, xs: seq<T>, x: T, key: T -> K, skip: set<K>)
    requires Models(d, xs, key, skip) && key(x) !in skip && key(x) !in d.entries
    ensures Models(Dict(d.keys + [key(x)], d.entries[key(x) := [x]]), xs + [x], key, skip)
  {
    var k := key(x);
    var d' := Dict(d.keys + [k], d.entries[k := [x]]);
    KeysSnoc(xs, x, key, skip);
    assert k !in d.keys;
    KeysSpec(xs, key, skip);
    BucketEmpty(xs, key, k);
    forall k' | k' in d'.entries ensures k' in d'.keys && d'.entries[k'] == Bucket(xs + [x], key, k') {
      BucketSnoc(xs, x, key, k');
      if k' != k {
        assert d'.entries[k'] == d.entries[k'];
      }
    }
  }

  /**
   * The dict-filling loop: each item is appended to the list under its key,
   * a new key gets a one-item list, and items whose key is skipped are passed over.
   */
  method BucketBy<T, K>(xs: seq<T>, key: T -> K, skip: set<K>) returns (d: Dict<K, seq<T>>)
    ensures Models(d, xs, key, skip)
  {
    d := Dict([], map[]);
    for i := 0 to |xs|
      invariant Models(d, xs[..i], key, skip)
    {
      var x := xs[i];
      var k := key(x);
      assert xs[..i + 1] == xs[..i] + [x];
      if k in skip {
        ModelsSkip(d, xs[..i], x, key, skip);
      } else if k in d.entries {
        ModelsExtend(d, xs[..i], x, key, skip);
        d := d.(entries := d.entries[k := d.entries[k] + [x]]);
      } else {
        ModelsInsert(d, xs[..i], x, key, skip);
        d := Dict(d.keys + [k], d.entries[k := [x]]);
      }
    }
    assert xs[..|xs|] == xs;
  }

  /** The loop over the dict's values that keeps, in key order, the lists with more than one member. */
  method MultiMemberLists<T, K>(d: Dict<K, seq<T>>, ghost xs: seq<T>, ghost key: T -> K, ghost skip: set<K>)
    returns (lists: seq<seq<T>>)
    requires Models(d, xs, key, skip)
    ensures lists == Groups(xs, key, skip)
  {
    lists := [];
    for j := 0 to |d.keys|
      invariant lists == Select(xs, key, d.keys[..j])
    {
      var list := d.entries[d.keys[j]];
      assert d.keys[..j + 1][..j] == d.keys[..j];
      if |list| > 1 {
        lists := lists + [list];
      }
    }
    assert d.keys[..|d.keys|] == d.keys;
  }

  // ---------------------------------------------------------------------
  // Keys
  // ---------------------------------------------------------------------

  /** The keys are distinct, and are exactly the non-skipped keys that occur. */
  lemma {:induction false} KeysSpec<T, K>(xs: seq<T>, key: T -> K, skip: set<K>)
    ensures NoDup(Keys(xs, key, skip))
    ensures forall k :: k in Keys(xs, key, skip) ==> k !in skip && exists x :: x in xs && key(x) == k
    ensures forall x :: x in xs && key(x) !in skip ==> key(x) in Keys(xs, key, skip)
  {
    if xs != [] {
      var xs' := xs[..|xs| - 1];
      KeysSpec(xs', key, skip);
      assert xs == xs' + [xs[|xs| - 1]];
      forall k ensures k in Keys(xs, key, skip) <==> k !in skip && exists x :: x in xs && key(x) == k {
        if k !in skip && exists x :: x in xs && key(x) == k {
          var x :| x in xs && key(x) == k;
          if x != xs[|xs| - 1] {
            assert x in xs';
          }
        }
      }
    }
  }

  // ---------------------------------------------------------------------
  // Buckets
  // ---------------------------------------------------------------------

  /** A bucket holds exactly the items of that key. */
  lemma {:induction false} BucketSpec<T, K>(xs: seq<T>, key: T -> K, k: K)
    ensures forall x :: x in Bucket(xs, key, k) ==> x in xs && key(x) == k
    ensures forall x :: x in xs && key(x) == k ==> x in Bucket(xs, key, k)
  {
    if xs != [] {
      var xs' := xs[..|xs| - 1];
      BucketSpec(xs', key, k);
      assert xs == xs' + [xs[|xs| - 1]];
    }
  }

  /** A bucket of distinct items has distinct members. */
  lemma {:induction false} BucketNoDup<T, K>(xs: seq<T>, key: T -> K, k: K)
    requires NoDup(xs)
    ensures NoDup(Bucket(xs, key, k))
  {
    if xs != [] {
      var xs' := xs[..|xs| - 1];
      var last := xs[|xs| - 1];
      assert xs == xs' + [last];
      assert NoDup(xs');
      BucketNoDup(xs', key, k);
      BucketSpec(xs', key, k);
      var b := Bucket(xs, key, k);
      var b' := Bucket(xs', key, k);
      if key(last) == k {
        assert last !in xs';
        assert last !in b';
        assert b == b' + [last];
        forall i, j | 0 <= i < j < |b| ensures b[i] != b[j] {
          if j == |b| - 1 {
            assert b[i] == b'[i];
            assert b[i] in b';
          } else {
            assert b[i] == b'[i] && b[j] == b'[j];
          }
        }
      }
    }
  }

  /** A key no item carries has an empty bucket. */
  lemma {:induction false} BucketEmpty<T, K>(xs: seq<T>, key: T -> K, k: K)
    requires forall x :: x in xs ==> key(x) != k
    ensures Bucket(xs, key, k) == []
  {
    if xs != [] {
      var xs' := xs[..|xs| - 1];
      assert forall x :: x in xs' ==> x in xs;
      BucketEmpty(xs', key, k);
    }
  }

  /** A sequence holding two different values has at least two elements. */
  lemma TwoDistinct<X>(s: seq<X>, x: X, y: X)
    requires x in s && y in s && x != y
    ensures |s| >= 2
  {
    var i :| 0 <= i < |s| && s[i] == x;
    var j :| 0 <= j < |s| && s[j] == y;
    assert i != j;
  }

  /** For distinct items, an item's bucket has two members iff another item shares its key. */
  lemma BucketShared<T, K>(xs: seq<T>, key: T -> K, x: T)
    requires NoDup(xs) && x in xs
    ensures |Bucket(xs, key, key(x))| >= 2 <==> exists y :: y in xs && y != x && key(y) == key(x)
  {
    var b := Bucket(xs, key, key(x));
    BucketSpec(xs, key, key(x));
    BucketNoDup(xs, key, key(x));
    if |b| >= 2 {
      assert b[0] != b[1];
      var y := if b[0] != x then b[0] else b[1];
      assert y in b;
    }
    if exists y :: y in xs && y != x && key(y) == key(x) {
      var y :| y in xs && y != x && key(y) == key(x);
      assert x in b && y in b;
      TwoDistinct(b, x, y);
    }
  }

  // ---------------------------------------------------------------------
  // Groups
  // ---------------------------------------------------------------------

  /** Every group has two or more members and is the whole bucket of its key, a key of `ks`. */
  ghost predicate BucketGroups<T, K>(gs: seq<seq<T>>, xs: seq<T>, key: T -> K, ks: seq<K>) {
    forall g :: g in gs ==> |g| >= 2 && key(g[0]) in ks && g == Bucket(xs, key, key(g[0]))
  }

  /** No two groups share a key. */
  ghost predicate KeyedApart<T, K>(gs: seq<seq<T>>, key: T -> K) {
    forall i, j :: 0 <= i < j < |gs| ==> gs[i] != [] && gs[j] != [] && key(gs[i][0]) != key(gs[j][0])
  }

  /**
   * The groups selected for distinct keys `ks`: each is the bucket of one of
   * the keys and has at least two members, no key yields two groups, and
   * every key whose bucket has two members yields one.
   */
  lemma {:induction false} SelectSpec<T, K>(xs: seq<T>, key: T -> K, ks: seq<K>)
    requires NoDup(ks)
    ensures BucketGroups(Select(xs, key, ks), xs, key, ks)
    ensures KeyedApart(Select(xs, key, ks), key)
    ensures forall k :: k in ks && |Bucket(xs, key, k)| >= 2 ==> Bucket(xs, key, k) in Select(xs, key, ks)
  {
    if ks != [] {
      var ks' := ks[..|ks| - 1];
      var k := ks[|ks| - 1];
      assert ks == ks' + [k];
      assert NoDup(ks');
      assert k !in ks';
      SelectSpec(xs, key, ks');
      var s' := Select(xs, key, ks');
      var b := Bucket(xs, key, k);
      var s := Select(xs, key, ks);
      assert s == s' + (if |b| > 1 then [b] else []);
      BucketSpec(xs, key, k);
      if |b| > 1 {
        assert b[0] in b;
        assert key(b[0]) == k;
      }
      forall g | g in s ensures |g| >= 2 && key(g[0]) in ks && g == Bucket(xs, key, key(g[0])) {
        if g in s' {
          assert key(g[0]) in ks';
        }
      }
      forall i, j | 0 <= i < j < |s| ensures s[i] != [] && s[j] != [] && key(s[i][0]) != key(s[j][0]) {
        assert s[i] == s'[i];
        assert s[i] in s';
        if j < |s'| {
          assert s[j] == s'[j];
        } else {
          assert s[j] == b;
          assert key(s[i][0]) in ks';
        }
      }
    }
  }

  /**
   * Every group has at least two members, all of one non-skipped key, and is
   * the bucket of that key (so it keeps input order); distinct groups have
   * distinct keys; and every non-skipped key with two or more items yields a group.
   */
  lemma GroupsSpec<T, K>(xs: seq<T>, key: T -> K, skip: set<K>)
    ensures forall g :: g in Groups(xs, key, skip) ==>
      |g| >= 2 && key(g[0]) !in skip && g == Bucket(xs, key, key(g[0]))
    ensures KeyedApart(Groups(xs, key, skip), key)
    ensures forall x :: x in xs && key(x) !in skip && |Bucket(xs, key, key(x))| >= 2 ==>
      Bucket(xs, key, key(x)) in Groups(xs, key, skip)
  {
    var ks := Keys(xs, key, skip);
    KeysSpec(xs, key, skip);
    SelectSpec(xs, key, ks);
    forall x | x in xs && key(x) !in skip && |Bucket(xs, key, key(x))| >= 2
      ensures Bucket(xs, key, key(x)) in Groups(xs, key, skip)
    {
      assert key(x) in ks;
    }
  }

  /** Every member of a group is an input item carrying the group's key; groups are disjoint. */
  lemma GroupsMembers<T, K>(xs: seq<T>, key: T -> K, skip: set<K>)
    ensures forall g, x :: g in Groups(xs, key, skip) && x in g ==> x in xs && key(x) == key(g[0])
    ensures Disjoint(Groups(xs, key, skip))
    ensures NoDup(xs) ==> forall g :: g in Groups(xs, key, skip) ==> NoDup(g)
  {
    var gs := Groups(xs, key, skip);
    GroupsSpec(xs, key, skip);
    forall g | g in gs ensures forall x :: x in g ==> x in xs && key(x) == key(g[0]) {
      BucketSpec(xs, key, key(g[0]));
    }
    forall g | g in gs && NoDup(xs) ensures NoDup(g) {
      BucketNoDup(xs, key, key(g[0]));
    }
    forall i, j, x | 0 <= i < j < |gs| && x in gs[i] ensures x !in gs[j] {
      assert gs[i] in gs && gs[j] in gs;
    }
  }

  /** For distinct items: an item is grouped iff its key is not skipped and another item shares it. */
  lemma GroupsCover<T, K>(xs: seq<T>, key: T -> K, skip: set<K>)
    requires NoDup(xs)
    ensures forall x :: x in xs ==>
      ((exists g :: g in Groups(xs, key, skip) && x in g)
       <==> key(x) !in skip && exists y :: y in xs && y != x && key(y) == key(x))
  {
    var gs := Groups(xs, key, skip);
    GroupsSpec(xs, key, skip);
    GroupsMembers(xs, key, skip);
    forall x | x in xs
      ensures (exists g :: g in gs && x in g) <==> key(x) !in skip && exists y :: y in xs && y != x && key(y) == key(x)
    {
      BucketShared(xs, key, x);
      BucketSpec(xs, key, key(x));
      if exists g :: g in gs && x in g {
        var g :| g in gs && x in g;
        assert g == Bucket(xs, key, key(x));
      }
      if key(x) !in skip && exists y :: y in xs && y != x && key(y) == key(x) {
        var b := Bucket(xs, key, key(x));
        assert b in gs && x in b;
      }
    }
  }

  // ---------------------------------------------------------------------
  // Concatenation of per-bucket results
  // ---------------------------------------------------------------------

  /** One step of a loop that appends `f` of each group in turn. */
  lemma ConcatMapStep<T>(f: seq<T> -> seq<seq<T>>, gs: seq<seq<T>>, i: nat, acc: seq<seq<T>>, r: seq<seq<T>>)
    requires i < |gs| && acc == ConcatMap(f, gs[..i]) && r == f(gs[i])
    ensures acc + r == ConcatMap(f, gs[..i + 1])
  {
    assert gs[..i + 1][..i] == gs[..i];
  }

  /** A group of a concatenation comes from one input group, and every such group is kept. */
  lemma {:induction false} ConcatMapMembers<T>(f: seq<T> -> seq<seq<T>>, gs: seq<seq<T>>)
    ensures forall h :: h in ConcatMap(f, gs) ==> exists g :: g in gs && h in f(g)
    ensures forall g, h :: g in gs && h in f(g) ==> h in ConcatMap(f, gs)
  {
    if gs != [] {
      var gs' := gs[..|gs| - 1];
      var last := gs[|gs| - 1];
      assert gs == gs' + [last];
      ConcatMapMembers(f, gs');
      assert ConcatMap(f, gs) == ConcatMap(f, gs') + f(last);
      forall h | h in ConcatMap(f, gs) ensures exists g :: g in gs && h in f(g) {
        if h in ConcatMap(f, gs') {
          var g :| g in gs' && h in f(g);
          assert g in gs;
        } else {
          assert last in gs;
        }
      }
    }
  }

  /** `f` splits `g` into disjoint groups made of members of `g`. */
  ghost predicate Splits<T>(f: seq<T> -> seq<seq<T>>, g: seq<T>) {
    Disjoint(f(g)) && forall h, x :: h in f(g) && x in h ==> x in g
  }

  /**
   * If the input groups are disjoint and `f` splits each one into disjoint
   * groups of its own members, the concatenation is disjoint.
   */
  lemma {:induction false} ConcatMapDisjoint<T>(f: seq<T> -> seq<seq<T>>, gs: seq<seq<T>>)
    requires Disjoint(gs)
    requires forall g :: g in gs ==> Splits(f, g)
    ensures Disjoint(ConcatMap(f, gs))
  {
    if gs != [] {
      var n := |gs| - 1;
      var gs' := gs[..n];
      assert gs == gs' + [gs[n]];
      assert Disjoint(gs') by {
        forall i, j, x | 0 <= i < j < |gs'| && x in gs'[i] ensures x !in gs'[j] {
          assert gs'[i] == gs[i] && gs'[j] == gs[j];
        }
      }
      ConcatMapDisjoint(f, gs');
      ConcatMapMembers(f, gs');
      var r' := ConcatMap(f, gs');
      var last := f(gs[n]);
      var r := ConcatMap(f, gs);
      assert r == r' + last;
      assert Splits(f, gs[n]);
      forall i, j, x | 0 <= i < j < |r| && x in r[i] ensures x !in r[j] {
        if j < |r'| {
          assert r[i] == r'[i] && r[j] == r'[j];
        } else if i < |r'| {
          assert r[i] == r'[i] && r'[i] in r';
          var g0 :| g0 in gs' && r'[i] in f(g0);
          var j0 :| 0 <= j0 < |gs'| && gs'[j0] == g0;
          assert gs[j0] == g0 && g0 in gs;
          assert x in gs[j0];
          assert x !in gs[n];
          assert r[j] == last[j - |r'|];
          assert r[j] in last;
        } else {
          assert r[i] == last[i - |r'|] && r[j] == last[j - |r'|];
        }
      }
    }
  }

  /** In a list without repeats every member occurs exactly once. */
  lemma {:induction false} NoDupCount<X>(a: seq<X>, x: X)
    requires NoDup(a)
    ensures multiset(a)[x] == if x in a then 1 else 0
  {
    if a != [] {
      var n := |a| - 1;
      assert a == a[..n] + [a[n]];
      assert a[n] !in a[..n];
      NoDupCount(a[..n], x);
    }
  }

  /** A permutation of a list without repeats has no repeats. */
  lemma PermutationNoDup<X>(a: seq<X>, b: seq<X>)
    requires NoDup(a) && multiset(a) == multiset(b)
    ensures NoDup(b)
  {
    forall i, j | 0 <= i < j < |b| ensures b[i] != b[j] {
      if b[i] == b[j] {
        var x := b[i];
        assert b == b[..j] + b[j..];
        assert x in b[..j] && x in b[j..];
        assert multiset(b)[x] == multiset(b[..j])[x] + multiset(b[j..])[x];
        NoDupCount(a, x);
        assert false;
      }
    }
  }

  /** Two lists without repeats and with the same members are permutations of each other. */
  lemma SameMembersMultiset<X>(a: seq<X>, b: seq<X>)
    requires NoDup(a) && NoDup(b)
    requires forall x :: x in a ==> x in b
    requires forall x :: x in b ==> x in a
    ensures multiset(a) == multiset(b)
  {
    forall x ensures multiset(a)[x] == multiset(b)[x] {
      NoDupCount(a, x);
      NoDupCount(b, x);
    }
  }

  /** The items of `xs`, each kept at its first occurrence only. */
  function Dedup<X(==)>(xs: seq<X>): seq<X>
  {
    if xs == [] then []
    else
      var prev := Dedup(xs[..|xs| - 1]);
      var x := xs[|xs| - 1];
      if x in prev then prev else prev + [x]
  }

  /** Appending an item keeps the deduplicated list, or adds the item if it is new. */
  lemma DedupSnoc<X>(xs: seq<X>, x: X)
    ensures Dedup(xs + [x]) == if x in Dedup(xs) then Dedup(xs) else Dedup(xs) + [x]
  {
    assert (xs + [x])[..|xs|] == xs;
  }

  /** The deduplicated list has no repeats and the same members as the list. */
  lemma {:induction false} DedupSpec<X>(xs: seq<X>)
    ensures NoDup(Dedup(xs))
    ensures forall x :: x in Dedup(xs) ==> x in xs
    ensures forall x :: x in xs ==> x in Dedup(xs)
  {
    if xs != [] {
      var n := |xs| - 1;
      assert xs == xs[..n] + [xs[n]];
      DedupSpec(xs[..n]);
    }
  }

  /** `f` applied to every item of `xs`, in order. */
  function MapSeq<T, U>(f: T -> U, xs: seq<T>): seq<U>
  {
    if xs == [] then [] else MapSeq(f, xs[..|xs| - 1]) + [f(xs[|xs| - 1])]
  }

  /** Mapping over one more item appends its image. */
  lemma MapSeqSnoc<T, U>(f: T -> U, xs: seq<T>, x: T)
    ensures MapSeq(f, xs + [x]) == MapSeq(f, xs) + [f(x)]
  {
    assert (xs + [x])[..|xs|] == xs;
  }

  /** One step of a loop that keeps the first occurrence of `f` of each item in turn. */
  lemma DedupMapStep<T, U>(f: T -> U, xs: seq<T>, i: nat, acc: seq<U>, y: U)
    requires i < |xs| && acc == Dedup(MapSeq(f, xs[..i])) && y == f(xs[i])
    ensures Dedup(MapSeq(f, xs[..i + 1])) == if y in acc then acc else acc + [y]
  {
    assert xs[..i + 1] == xs[..i] + [xs[i]];
    MapSeqSnoc(f, xs[..i], xs[i]);
    DedupSnoc(MapSeq(f, xs[..i]), y);
  }

  /** The mapped list holds the image of every item and nothing else. */
  lemma {:induction false} MapSeqSpec<T, U>(f: T -> U, xs: seq<T>)
    ensures |MapSeq(f, xs)| == |xs|
    ensures forall i :: 0 <= i < |xs| ==> MapSeq(f, xs)[i] == f(xs[i])
  {
    if xs != [] {
      MapSeqSpec(f, xs[..|xs| - 1]);
    }
  }

  /** The groups of `gs` with more than one member, in order. */
  function MultiOnly<X>(gs: seq<seq<X>>): seq<seq<X>>
  {
    if gs == [] then []
    else
      var g := gs[|gs| - 1];
      MultiOnly(gs[..|gs| - 1]) + (if |g| > 1 then [g] else [])
  }

  /** Filtering keeps exactly the groups with more than one member and keeps them disjoint. */
  lemma {:induction false} MultiOnlySpec<X>(gs: seq<seq<X>>)
    ensures forall g :: g in MultiOnly(gs) ==> g in gs && |g| > 1
    ensures forall g :: g in gs && |g| > 1 ==> g in MultiOnly(gs)
    ensures Disjoint(gs) ==> Disjoint(MultiOnly(gs))
  {
    if gs != [] {
      var n := |gs| - 1;
      var gs' := gs[..n];
      assert gs == gs' + [gs[n]];
      MultiOnlySpec(gs');
      if Disjoint(gs) {
        assert Disjoint(gs') by {
          forall i, j, x | 0 <= i < j < |gs'| && x in gs'[i] ensures x !in gs'[j] {
            assert gs'[i] == gs[i] && gs'[j] == gs[j];
          }
        }
        var r' := MultiOnly(gs');
        var r := MultiOnly(gs);
        forall i, j, x | 0 <= i < j < |r| && x in r[i] ensures x !in r[j] {
          if j < |r'| {
            assert r[i] == r'[i] && r[j] == r'[j];
          } else {
            assert r[j] == gs[n];
            assert r[i] == r'[i] && r'[i] in r';
            var k :| 0 <= k < |gs'| && gs'[k] == r[i];
            assert gs[k] == r[i];
          }
        }
      }
    }
  }
}

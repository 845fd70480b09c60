/** What one run decides, as a function of the directory listing: which entries are
    deleted (Plan) and which hashed entries survive (Survivors), with the properties the
    retention policy promises. */
module Retention {
  import opened Entries
  import opened MtimeSort

  /** The entries each digest group loses, group after group in the order of ds. */
  function DeletionsOf(ds: seq<Digest>, h: seq<FileEntry>): (r: seq<FileEntry>)
    requires forall d | d in ds :: Bucket(h, d) != []
    ensures forall x | x in r :: x.digest in ds
  {
    if ds == [] then []
    else
      var d := ds[|ds| - 1];
      var rest := ds[..|ds| - 1];
      assert ds == rest + [d];
      DeletionsOf(rest, h) + ToDelete(Bucket(h, d))
  }

  /** The entry each digest group keeps, one per digest, in the order of ds. */
  function KeptOf(ds: seq<Digest>, h: seq<FileEntry>): (r: seq<FileEntry>)
    requires forall d | d in ds :: Bucket(h, d) != []
    ensures |r| == |ds|
  {
    if ds == [] then []
    else
      var d := ds[|ds| - 1];
      KeptOf(ds[..|ds| - 1], h) + [Newest(Bucket(h, d))]
  }

  /** The entry kept for the i-th digest is the newest entry of that digest's list. */
  lemma {:induction false} KeptOfAt(ds: seq<Digest>, h: seq<FileEntry>, i: nat)
    requires forall d | d in ds :: Bucket(h, d) != []
    requires i < |ds|
    ensures KeptOf(ds, h)[i] == Newest(Bucket(h, ds[i]))
  {
    var rest := ds[..|ds| - 1];
    if i < |rest| {
      assert ds[i] == rest[i];
      KeptOfAt(rest, h, i);
    }
  }

  /** The entries one run deletes, in the order it deletes them. */
  function Plan(listing: seq<FileEntry>, skipEmptyDigest: bool): (r: seq<FileEntry>)
    ensures forall x | x in r :: x.digest in Digests(Hashed(listing, skipEmptyDigest))
  {
    var h := Hashed(listing, skipEmptyDigest);
    DeletionsOf(Digests(h), h)
  }

  /** The hashed entries one run keeps: the newest entry of every digest group. */
  function Survivors(listing: seq<FileEntry>, skipEmptyDigest: bool): (r: seq<FileEntry>)
    ensures |r| == |Digests(Hashed(listing, skipEmptyDigest))|
  {
    var h := Hashed(listing, skipEmptyDigest);
    KeptOf(Digests(h), h)
  }

  lemma {:induction false} SplitGroups(ds: seq<Digest>, h: seq<FileEntry>)
    requires forall d | d in ds :: Bucket(h, d) != []
    ensures multiset(DeletionsOf(ds, h)) + multiset(KeptOf(ds, h)) == multiset(Regroup(ds, h))
  {
    if ds != [] {
      var d := ds[|ds| - 1];
      var rest := ds[..|ds| - 1];
      assert ds == rest + [d];
      SplitGroups(rest, h);
      var g := Bucket(h, d);
      assert DeletionsOf(ds, h) == DeletionsOf(rest, h) + ToDelete(g);
      assert KeptOf(ds, h) == KeptOf(rest, h) + [Newest(g)];
      assert Regroup(ds, h) == Regroup(rest, h) + g;
      assert multiset(ToDelete(g)) + multiset{Newest(g)} == multiset(g);
    }
  }

  /** Every hashed entry is either deleted or kept, and exactly once; nothing else is
      deleted. */
  lemma PlanPartitionsHashed(listing: seq<FileEntry>, skipEmptyDigest: bool)
    ensures multiset(Plan(listing, skipEmptyDigest)) + multiset(Survivors(listing, skipEmptyDigest))
         == multiset(Hashed(listing, skipEmptyDigest))
  {
    var h := Hashed(listing, skipEmptyDigest);
    SplitGroups(Digests(h), h);
    BucketsPartition(h);
  }

  /** Only regular files that passed the digest guard are ever deleted. */
  lemma OnlyAdmittedDeleted(listing: seq<FileEntry>, skipEmptyDigest: bool, x: FileEntry)
    requires x in Plan(listing, skipEmptyDigest)
    ensures x in listing && Admitted(x, skipEmptyDigest)
  {
    var h := Hashed(listing, skipEmptyDigest);
    PlanPartitionsHashed(listing, skipEmptyDigest);
    assert x in multiset(Plan(listing, skipEmptyDigest));
    assert x in multiset(h);
    assert x in h;
  }

  /** The number of deletions is the number of hashed entries less the number of distinct
      digests; in particular an empty listing deletes nothing. */
  lemma PlanCount(listing: seq<FileEntry>, skipEmptyDigest: bool)
    ensures |Plan(listing, skipEmptyDigest)|
         == |Hashed(listing, skipEmptyDigest)| - |Digests(Hashed(listing, skipEmptyDigest))|
  {
    PlanPartitionsHashed(listing, skipEmptyDigest);
    var p, s := Plan(listing, skipEmptyDigest), Survivors(listing, skipEmptyDigest);
    assert |multiset(p) + multiset(s)| == |p| + |s|;
  }

  /** The survivors carry pairwise different digests, one per digest of the hashed entries,
      and each is the newest of its group: no entry of the group is later, and none
      scanned after it is as late. */
  lemma SurvivorsAreNewestAndUnique(listing: seq<FileEntry>, skipEmptyDigest: bool)
    ensures var h := Hashed(listing, skipEmptyDigest);
            var s := Survivors(listing, skipEmptyDigest);
            && |s| == |Digests(h)|
            && (forall i | 0 <= i < |s| :: s[i].digest == Digests(h)[i] && s[i] in h)
            && (forall i, j | 0 <= i < j < |s| :: s[i].digest != s[j].digest)
            && (forall i, x | 0 <= i < |s| && x in Bucket(h, s[i].digest) :: x.mtime <= s[i].mtime)
  {
    var h := Hashed(listing, skipEmptyDigest);
    var ds := Digests(h);
    var s := Survivors(listing, skipEmptyDigest);
    forall i | 0 <= i < |s| ensures s[i] == Newest(Bucket(h, ds[i])) && s[i].digest == ds[i] && s[i] in h {
      KeptOfAt(ds, h, i);
      var g := Bucket(h, ds[i]);
      assert s[i] == g[NewestIndex(g)];
    }
  }

  /** Every deleted entry shares its digest with exactly one survivor, and is no newer than
      it. */
  lemma DeletedHasOneSurvivor(listing: seq<FileEntry>, skipEmptyDigest: bool, x: FileEntry)
    requires x in Plan(listing, skipEmptyDigest)
    ensures var s := Survivors(listing, skipEmptyDigest);
            exists i :: 0 <= i < |s| && s[i].digest == x.digest && x.mtime <= s[i].mtime
  {
    var h := Hashed(listing, skipEmptyDigest);
    OnlyAdmittedDeleted(listing, skipEmptyDigest, x);
    AdmittedIsHashed(listing, skipEmptyDigest, x);
    KeptNoOlder(h, x);
    var s := KeptOf(Digests(h), h);
    var i :| 0 <= i < |s| && s[i].digest == x.digest && x.mtime <= s[i].mtime;
    assert Survivors(listing, skipEmptyDigest)[i] == s[i];
  }

  /** Every filed entry has a kept entry of its digest that is no older than it. */
  lemma KeptNoOlder(h: seq<FileEntry>, x: FileEntry)
    requires x in h
    ensures var s := KeptOf(Digests(h), h);
            exists i :: 0 <= i < |s| && s[i].digest == x.digest && x.mtime <= s[i].mtime
  {
    var ds := Digests(h);
    var s := KeptOf(ds, h);
    InOwnBucket(h, x);
    DigestsMembers(h, x.digest);
    var i :| 0 <= i < |ds| && ds[i] == x.digest;
    var g := Bucket(h, x.digest);
    KeptOfAt(ds, h, i);
    assert s[i] == Newest(g) && s[i] in g;
  }

  lemma {:induction false} NoDeletionsFromSmallGroups(ds: seq<Digest>, h: seq<FileEntry>)
    requires forall d | d in ds :: Bucket(h, d) != []
    requires forall d | d in ds :: |Bucket(h, d)| <= 1
    ensures DeletionsOf(ds, h) == []
  {
    if ds != [] {
      NoDeletionsFromSmallGroups(ds[..|ds| - 1], h);
    }
  }

  /** A digest that occurs once among the hashed entries loses nothing: its entry is never
      deleted. */
  lemma {:induction false} SingletonNeverDeleted(ds: seq<Digest>, h: seq<FileEntry>, e: FileEntry)
    requires forall d | d in ds :: Bucket(h, d) != []
    requires Bucket(h, e.digest) == [e]
    ensures e !in DeletionsOf(ds, h)
  {
    if ds != [] {
      var d := ds[|ds| - 1];
      SingletonNeverDeleted(ds[..|ds| - 1], h, e);
      if d == e.digest {
        assert ToDelete(Bucket(h, d)) == [];
      } else {
        assert e !in ToDelete(Bucket(h, d));
      }
    }
  }

  /** A file whose content no other hashed file shares survives the run. */
  lemma UniqueFileSurvives(listing: seq<FileEntry>, skipEmptyDigest: bool, e: FileEntry)
    requires Bucket(Hashed(listing, skipEmptyDigest), e.digest) == [e]
    ensures e !in Plan(listing, skipEmptyDigest)
    ensures e in Survivors(listing, skipEmptyDigest)
  {
    var h := Hashed(listing, skipEmptyDigest);
    var ds := Digests(h);
    DigestsMembers(h, e.digest);
    SingletonNeverDeleted(ds, h, e);
    var i :| 0 <= i < |ds| && ds[i] == e.digest;
    KeptOfAt(ds, h, i);
    assert Survivors(listing, skipEmptyDigest)[i] == Newest([e]);
  }

  /** x occurs in g and is followed there only by strictly older entries. */
  predicate LastOfLatest(g: seq<FileEntry>, x: FileEntry) {
    exists k :: 0 <= k < |g| && g[k] == x && forall j | k < j < |g| :: g[j].mtime < x.mtime
  }

  lemma NewestIsLastOfLatest(g: seq<FileEntry>)
    requires g != []
    ensures LastOfLatest(g, Newest(g))
  {
    var k := NewestIndex(g);
    assert g[k] == Newest(g);
  }

  /** Among entries with the latest time, the one scanned last is kept: it is followed in
      its group only by strictly older entries. */
  lemma TiesGoToLastScanned(listing: seq<FileEntry>, skipEmptyDigest: bool, i: nat)
    requires i < |Survivors(listing, skipEmptyDigest)|
    ensures var s := Survivors(listing, skipEmptyDigest);
            LastOfLatest(Bucket(Hashed(listing, skipEmptyDigest), s[i].digest), s[i])
  {
    var h := Hashed(listing, skipEmptyDigest);
    var s := Survivors(listing, skipEmptyDigest);
    var g := Bucket(h, Digests(h)[i]);
    KeptOfAt(Digests(h), h, i);
    assert s[i] == Newest(g) && Newest(g) in g;
    NewestIsLastOfLatest(g);
  }

  /** Each survivor is alone in its bucket among the survivors. */
  lemma {:induction false} KeptBucketSizes(ds: seq<Digest>, h: seq<FileEntry>, d: Digest)
    requires forall k | k in ds :: Bucket(h, k) != []
    requires Distinct(ds)
    ensures |Bucket(KeptOf(ds, h), d)| == if d in ds then 1 else 0
  {
    if ds != [] {
      var last := ds[|ds| - 1];
      var rest := ds[..|ds| - 1];
      assert ds == rest + [last];
      KeptBucketSizes(rest, h, d);
      var k := KeptOf(ds, h);
      assert k == KeptOf(rest, h) + [Newest(Bucket(h, last))];
      assert k[..|k| - 1] == KeptOf(rest, h);
      assert k[|k| - 1].digest == last;
    }
  }

  /** Idempotence: a second run over a directory whose hashed entries are among the
      survivors of a first run (each at most once, in any order, beside any number of
      entries that are not hashed) deletes nothing. */
  lemma SecondRunDeletesNothing(listing: seq<FileEntry>, next: seq<FileEntry>, skipEmptyDigest: bool)
    requires multiset(Hashed(next, skipEmptyDigest)) <= multiset(Survivors(listing, skipEmptyDigest))
    ensures Plan(next, skipEmptyDigest) == []
  {
    var h := Hashed(listing, skipEmptyDigest);
    var s := Survivors(listing, skipEmptyDigest);
    var h2 := Hashed(next, skipEmptyDigest);
    forall d | d in Digests(h2) ensures |Bucket(h2, d)| <= 1 {
      BucketSizeMonotone(h2, s, d);
      KeptBucketSizes(Digests(h), h, d);
    }
    NoDeletionsFromSmallGroups(Digests(h2), h2);
  }

  /** Running again over the survivors alone deletes nothing. */
  lemma SurvivorsRerun(listing: seq<FileEntry>, skipEmptyDigest: bool)
    ensures Plan(Survivors(listing, skipEmptyDigest), skipEmptyDigest) == []
  {
    var s := Survivors(listing, skipEmptyDigest);
    forall x ensures multiset(Hashed(s, skipEmptyDigest))[x] <= multiset(s)[x] {
      HashedCounts(s, skipEmptyDigest, x);
    }
    SecondRunDeletesNothing(listing, s, skipEmptyDigest);
  }

  /** Running again over what the first run leaves of the listing deletes nothing. */
  lemma RerunAfterDeletion(listing: seq<FileEntry>, next: seq<FileEntry>, skipEmptyDigest: bool)
    requires multiset(next) == multiset(listing) - multiset(Plan(listing, skipEmptyDigest))
    ensures Plan(next, skipEmptyDigest) == []
  {
    var p := Plan(listing, skipEmptyDigest);
    var s := Survivors(listing, skipEmptyDigest);
    var h := Hashed(listing, skipEmptyDigest);
    PlanPartitionsHashed(listing, skipEmptyDigest);
    forall x ensures multiset(Hashed(next, skipEmptyDigest))[x] <= multiset(s)[x] {
      HashedCounts(next, skipEmptyDigest, x);
      HashedCounts(listing, skipEmptyDigest, x);
      assert (multiset(p) + multiset(s))[x] == multiset(h)[x];
    }
    SecondRunDeletesNothing(listing, next, skipEmptyDigest);
  }

  /** Deletions come digest group by digest group, the groups in the order in which their
      first entry was scanned, and oldest first within a group. */
  predicate InDeletionOrder(p: seq<FileEntry>, h: seq<FileEntry>) {
    forall i, j | 0 <= i < j < |p| ::
      if p[i].digest == p[j].digest then p[i].mtime <= p[j].mtime
      else FirstIndex(h, p[i].digest) < FirstIndex(h, p[j].digest)
  }

  lemma OrderedConcat(front: seq<FileEntry>, back: seq<FileEntry>, h: seq<FileEntry>)
    requires InDeletionOrder(front, h) && InDeletionOrder(back, h)
    requires forall x, y | x in front && y in back ::
      x.digest != y.digest && FirstIndex(h, x.digest) < FirstIndex(h, y.digest)
    ensures InDeletionOrder(front + back, h)
  {
    var p := front + back;
    forall i, j | 0 <= i < j < |p|
      ensures if p[i].digest == p[j].digest then p[i].mtime <= p[j].mtime
              else FirstIndex(h, p[i].digest) < FirstIndex(h, p[j].digest)
    {
      if j < |front| {
        assert p[i] == front[i] && p[j] == front[j];
      } else if i >= |front| {
        assert p[i] == back[i - |front|] && p[j] == back[j - |front|];
      } else {
        assert p[i] in front && p[j] in back;
      }
    }
  }

  lemma GroupInDeletionOrder(h: seq<FileEntry>, d: Digest)
    requires Bucket(h, d) != []
    ensures InDeletionOrder(ToDelete(Bucket(h, d)), h)
    ensures forall x | x in ToDelete(Bucket(h, d)) :: x.digest == d
  {
  }

  lemma EarlierGroupsFirst(rest: seq<Digest>, d: Digest, h: seq<FileEntry>)
    requires forall k | k in rest :: Bucket(h, k) != [] && k != d && FirstIndex(h, k) < FirstIndex(h, d)
    requires Bucket(h, d) != []
    ensures forall x, y | x in DeletionsOf(rest, h) && y in ToDelete(Bucket(h, d)) ::
      x.digest != y.digest && FirstIndex(h, x.digest) < FirstIndex(h, y.digest)
  {
    GroupInDeletionOrder(h, d);
  }

  lemma LastGroupIsLatest(ds: seq<Digest>, h: seq<FileEntry>)
    requires ds != [] && Distinct(ds)
    requires forall a, b | 0 <= a < b < |ds| :: FirstIndex(h, ds[a]) < FirstIndex(h, ds[b])
    ensures forall k | k in ds[..|ds| - 1] ::
      k != ds[|ds| - 1] && FirstIndex(h, k) < FirstIndex(h, ds[|ds| - 1])
  {
    forall k | k in ds[..|ds| - 1] ensures k != ds[|ds| - 1] && FirstIndex(h, k) < FirstIndex(h, ds[|ds| - 1]) {
      var a :| 0 <= a < |ds| - 1 && ds[..|ds| - 1][a] == k;
      assert ds[a] == k;
    }
  }

  lemma {:induction false} DeletionOrder(ds: seq<Digest>, h: seq<FileEntry>)
    requires forall d | d in ds :: Bucket(h, d) != []
    requires Distinct(ds)
    requires forall a, b | 0 <= a < b < |ds| :: FirstIndex(h, ds[a]) < FirstIndex(h, ds[b])
    ensures InDeletionOrder(DeletionsOf(ds, h), h)
  {
    if ds != [] {
      var d := ds[|ds| - 1];
      var rest := ds[..|ds| - 1];
      ScanOrderPrefix(ds, h);
      DeletionOrder(rest, h);
      LastGroupIsLatest(ds, h);
      DeletionOrderStep(rest, d, h);
    }
  }

  /** Dropping the last digest keeps the others distinct and in scan order. */
  lemma ScanOrderPrefix(ds: seq<Digest>, h: seq<FileEntry>)
    requires ds != [] && Distinct(ds)
    requires forall a, b | 0 <= a < b < |ds| :: FirstIndex(h, ds[a]) < FirstIndex(h, ds[b])
    ensures var rest := ds[..|ds| - 1];
            && (forall k | k in rest :: k in ds)
            && Distinct(rest)
            && forall a, b | 0 <= a < b < |rest| :: FirstIndex(h, rest[a]) < FirstIndex(h, rest[b])
  {
  }

  /** Appending the group of a digest first scanned after all earlier ones keeps the
      deletions in order. */
  lemma DeletionOrderStep(rest: seq<Digest>, d: Digest, h: seq<FileEntry>)
    requires forall k | k in rest :: Bucket(h, k) != [] && k != d && FirstIndex(h, k) < FirstIndex(h, d)
    requires Bucket(h, d) != []
    requires InDeletionOrder(DeletionsOf(rest, h), h)
    ensures InDeletionOrder(DeletionsOf(rest + [d], h), h)
  {
    EarlierGroupsFirst(rest, d, h);
    GroupInDeletionOrder(h, d);
    OrderedConcat(DeletionsOf(rest, h), ToDelete(Bucket(h, d)), h);
    assert (rest + [d])[..|rest|] == rest;
  }

  /** The whole plan in order: digest groups by the scan position of their first entry,
      oldest first within a group. */
  lemma PlanOrder(listing: seq<FileEntry>, skipEmptyDigest: bool)
    ensures InDeletionOrder(Plan(listing, skipEmptyDigest), Hashed(listing, skipEmptyDigest))
  {
    var h := Hashed(listing, skipEmptyDigest);
    DigestsInScanOrder(h);
    DeletionOrder(Digests(h), h);
  }

  /** A directory of copies of one content, scanned oldest first, keeps only the copy
      scanned last and deletes the others in scan order. */
  lemma OneGroupPlan(listing: seq<FileEntry>, skipEmptyDigest: bool, d: Digest)
    requires listing != [] && Sorted(listing)
    requires forall e | e in listing :: Admitted(e, skipEmptyDigest) && e.digest == d
    ensures Plan(listing, skipEmptyDigest) == listing[..|listing| - 1]
    ensures Survivors(listing, skipEmptyDigest) == [listing[|listing| - 1]]
  {
    AllAdmitted(listing, skipEmptyDigest);
    OneDigest(listing, d);
    SortKeepsSorted(listing);
    SortEndsWithNewest(listing);
    assert [d][..0] == [];
    assert DeletionsOf([d], listing) == [] + ToDelete(listing);
    assert KeptOf([d], listing) == [] + [Newest(listing)];
  }
}

/** Directory entries as the scan sees them, the filter that decides which of them are
    hashed, and the grouping of hashed entries by content digest. Every function here is
    defined from the END of its sequence, so that extending the scan by one entry is one
    unfolding, exactly as the scan loop appends one entry at a time. */
module Entries {

  /** A file name as the directory scan returns it: raw bytes when the scanned directory
      path is a bytes path, text when it is a str path. */
  datatype Name = Bytes(raw: string) | Text(text: string)

  /** The hex digest of a file's content; only equality and emptiness are ever used. */
  datatype Digest = Digest(hex: string)

  /** One directory entry: its name, whether it is a regular file, the digest of its
      content and its modification time (an abstract totally ordered key). */
  datatype FileEntry = FileEntry(name: Name, isFile: bool, digest: Digest, mtime: int)

  predicate Distinct<T(==)>(s: seq<T>) {
    forall i, j | 0 <= i < j < |s| :: s[i] != s[j]
  }

  /** Whether the scan puts an entry into the digest table: it must be a regular file and,
      when the empty-digest guard is on, have a non-empty digest. */
  predicate Admitted(e: FileEntry, skipEmptyDigest: bool): (ok: bool)
    ensures ok ==> e.isFile
    ensures ok && skipEmptyDigest ==> e.digest.hex != ""
  {
    e.isFile && (!skipEmptyDigest || e.digest.hex != "")
  }

  /** The admitted entries of a listing, in scan order. */
  function Hashed(listing: seq<FileEntry>, skipEmptyDigest: bool): (h: seq<FileEntry>)
    ensures |h| <= |listing|
    ensures forall x | x in h :: x in listing && Admitted(x, skipEmptyDigest)
  {
    if listing == [] then []
    else
      var last := listing[|listing| - 1];
      assert listing == listing[..|listing| - 1] + [last];
      Hashed(listing[..|listing| - 1], skipEmptyDigest)
        + (if Admitted(last, skipEmptyDigest) then [last] else [])
  }

  /** The entries of h with digest d, in scan order. */
  function Bucket(h: seq<FileEntry>, d: Digest): (b: seq<FileEntry>)
    ensures |b| <= |h|
    ensures forall x | x in b :: x in h && x.digest == d
  {
    if h == [] then []
    else
      var last := h[|h| - 1];
      assert h == h[..|h| - 1] + [last];
      Bucket(h[..|h| - 1], d) + (if last.digest == d then [last] else [])
  }

  /** Every regular file that passes the guard is filed. */
  lemma {:induction false} AdmittedIsHashed(listing: seq<FileEntry>, skipEmptyDigest: bool, x: FileEntry)
    requires x in listing && Admitted(x, skipEmptyDigest)
    ensures x in Hashed(listing, skipEmptyDigest)
  {
    var prefix := listing[..|listing| - 1];
    assert listing == prefix + [listing[|listing| - 1]];
    if x != listing[|listing| - 1] {
      AdmittedIsHashed(prefix, skipEmptyDigest, x);
    }
  }

  /** The scan files an admitted entry as often as it occurs in the listing and any other
      entry never. */
  lemma {:induction false} HashedCounts(listing: seq<FileEntry>, skipEmptyDigest: bool, x: FileEntry)
    ensures multiset(Hashed(listing, skipEmptyDigest))[x]
         == if Admitted(x, skipEmptyDigest) then multiset(listing)[x] else 0
  {
    if listing != [] {
      var prefix := listing[..|listing| - 1];
      var last := listing[|listing| - 1];
      assert listing == prefix + [last];
      HashedCounts(prefix, skipEmptyDigest, x);
    }
  }

  /** Every filed entry is in the list of its own digest. */
  lemma {:induction false} InOwnBucket(h: seq<FileEntry>, x: FileEntry)
    requires x in h
    ensures x in Bucket(h, x.digest)
  {
    var prefix := h[..|h| - 1];
    assert h == prefix + [h[|h| - 1]];
    if x != h[|h| - 1] {
      InOwnBucket(prefix, x);
    }
  }

  /** Scanning one more entry extends the admitted entries by it exactly when it is
      admitted. */
  lemma HashedStep(listing: seq<FileEntry>, i: nat, skipEmptyDigest: bool)
    requires i < |listing|
    ensures Hashed(listing[..i + 1], skipEmptyDigest)
         == Hashed(listing[..i], skipEmptyDigest)
            + (if Admitted(listing[i], skipEmptyDigest) then [listing[i]] else [])
  {
    assert listing[..i + 1][..i] == listing[..i];
  }

  /** Hashing one more entry appends it to its own bucket and to no other. */
  lemma BucketStep(h: seq<FileEntry>, e: FileEntry, d: Digest)
    ensures Bucket(h + [e], d) == Bucket(h, d) + (if e.digest == d then [e] else [])
  {
    assert (h + [e])[..|h|] == h;
  }

  /** The distinct digests of h, each at the position of its first occurrence. */
  function Digests(h: seq<FileEntry>): (ds: seq<Digest>)
    ensures Distinct(ds)
    ensures |ds| <= |h|
    ensures forall d | d in ds :: Bucket(h, d) != []
  {
    if h == [] then []
    else
      var last := h[|h| - 1];
      var prefix := h[..|h| - 1];
      assert h == prefix + [last];
      var ds := Digests(prefix);
      assert forall d :: Bucket(h, d) == Bucket(prefix, d) + (if last.digest == d then [last] else []);
      if last.digest in ds then ds else ds + [last.digest]
  }

  /** A digest is listed exactly when some hashed entry carries it. */
  lemma {:induction false} DigestsMembers(h: seq<FileEntry>, d: Digest)
    ensures d in Digests(h) <==> Bucket(h, d) != []
  {
    if h != [] {
      var prefix := h[..|h| - 1];
      assert h == prefix + [h[|h| - 1]];
      BucketStep(prefix, h[|h| - 1], d);
      DigestsMembers(prefix, d);
    }
  }

  /** Hashing one more entry adds its digest at the end when it is new. */
  lemma DigestsStep(h: seq<FileEntry>, e: FileEntry)
    ensures Digests(h + [e]) == if e.digest in Digests(h) then Digests(h) else Digests(h) + [e.digest]
  {
    assert (h + [e])[..|h|] == h;
  }

  /** The position in h of the first entry with digest d, or |h| when there is none. */
  function FirstIndex(h: seq<FileEntry>, d: Digest): (k: nat)
    ensures k <= |h|
    ensures k < |h| ==> h[k].digest == d
    ensures forall j | 0 <= j < k :: h[j].digest != d
  {
    if h == [] then 0
    else
      var prefix := h[..|h| - 1];
      assert h == prefix + [h[|h| - 1]];
      var k := FirstIndex(prefix, d);
      if k < |prefix| || h[|h| - 1].digest == d then k else |h|
  }

  lemma FirstIndexStep(h: seq<FileEntry>, e: FileEntry, d: Digest)
    ensures FirstIndex(h + [e], d)
         == if FirstIndex(h, d) < |h| then FirstIndex(h, d) else if e.digest == d then |h| else |h| + 1
  {
    assert (h + [e])[..|h|] == h;
  }

  /** A digest has a first position exactly when some entry has it. */
  lemma {:induction false} FirstIndexFound(h: seq<FileEntry>, d: Digest)
    ensures FirstIndex(h, d) < |h| <==> Bucket(h, d) != []
  {
    if h != [] {
      var prefix := h[..|h| - 1];
      var last := h[|h| - 1];
      assert h == prefix + [last];
      FirstIndexFound(prefix, d);
      FirstIndexStep(prefix, last, d);
      BucketStep(prefix, last, d);
    }
  }

  lemma DigestHasIndex(h: seq<FileEntry>, d: Digest)
    requires d in Digests(h)
    ensures FirstIndex(h, d) < |h|
  {
    FirstIndexFound(h, d);
  }

  /** Of two digests, the one listed earlier was first scanned earlier. */
  lemma {:induction false} ScanOrderPair(h: seq<FileEntry>, i: nat, j: nat)
    requires i < j < |Digests(h)|
    ensures FirstIndex(h, Digests(h)[i]) < FirstIndex(h, Digests(h)[j])
  {
    var p := h[..|h| - 1];
    var e := h[|h| - 1];
    assert h == p + [e];
    DigestsStep(p, e);
    var ds := Digests(p);
    var a, b := Digests(h)[i], Digests(h)[j];
    assert a == ds[i];
    DigestHasIndex(p, a);
    FirstIndexStep(p, e, a);
    FirstIndexStep(p, e, b);
    if j < |ds| {
      assert b == ds[j];
      DigestHasIndex(p, b);
      ScanOrderPair(p, i, j);
    } else {
      DigestsMembers(p, b);
      FirstIndexFound(p, b);
    }
  }

  /** Every digest is listed once, in the order in which its first entry was scanned. */
  lemma DigestsInScanOrder(h: seq<FileEntry>)
    ensures forall d | d in Digests(h) :: FirstIndex(h, d) < |h|
    ensures forall i, j | 0 <= i < j < |Digests(h)| ::
      FirstIndex(h, Digests(h)[i]) < FirstIndex(h, Digests(h)[j])
  {
    forall d | d in Digests(h) ensures FirstIndex(h, d) < |h| {
      DigestHasIndex(h, d);
    }
    forall i, j | 0 <= i < j < |Digests(h)|
      ensures FirstIndex(h, Digests(h)[i]) < FirstIndex(h, Digests(h)[j])
    {
      ScanOrderPair(h, i, j);
    }
  }

  /** The buckets of the digests in ds, one after the other. */
  function Regroup(ds: seq<Digest>, h: seq<FileEntry>): seq<FileEntry> {
    if ds == [] then [] else Regroup(ds[..|ds| - 1], h) + Bucket(h, ds[|ds| - 1])
  }

  lemma {:induction false} RegroupExtend(ds: seq<Digest>, h: seq<FileEntry>, e: FileEntry)
    requires Distinct(ds)
    ensures multiset(Regroup(ds, h + [e]))
         == multiset(Regroup(ds, h)) + (if e.digest in ds then multiset{e} else multiset{})
  {
    if ds != [] {
      var d := ds[|ds| - 1];
      var rest := ds[..|ds| - 1];
      assert ds == rest + [d];
      assert d !in rest;
      RegroupExtend(rest, h, e);
      BucketStep(h, e, d);
      assert Regroup(ds, h + [e]) == Regroup(rest, h + [e]) + Bucket(h + [e], d);
      assert Regroup(ds, h) == Regroup(rest, h) + Bucket(h, d);
    }
  }

  lemma PartitionStep(h: seq<FileEntry>, e: FileEntry)
    requires multiset(Regroup(Digests(h), h)) == multiset(h)
    ensures multiset(Regroup(Digests(h + [e]), h + [e])) == multiset(h + [e])
  {
    var ds := Digests(h);
    var r := Regroup(ds, h + [e]);
    RegroupExtend(ds, h, e);
    DigestsStep(h, e);
    assert multiset(h + [e]) == multiset(h) + multiset{e};
    if e.digest !in ds {
      assert multiset(r) == multiset(h);
      assert Bucket(h + [e], e.digest) == [e] by {
        BucketStep(h, e, e.digest);
        DigestsMembers(h, e.digest);
      }
      var ds' := ds + [e.digest];
      assert Regroup(ds', h + [e]) == r + [e] by {
        assert ds'[..|ds|] == ds;
      }
      assert multiset(r + [e]) == multiset(r) + multiset{e};
    }
  }

  /** The buckets partition the hashed entries: every entry lies in exactly one bucket. */
  lemma {:induction false} BucketsPartition(h: seq<FileEntry>)
    ensures multiset(Regroup(Digests(h), h)) == multiset(h)
  {
    if h != [] {
      var prefix := h[..|h| - 1];
      assert h == prefix + [h[|h| - 1]];
      BucketsPartition(prefix);
      PartitionStep(prefix, h[|h| - 1]);
    }
  }

  /** Each entry occurs in h as often as it occurs in its bucket. */
  lemma {:induction false} BucketCounts(h: seq<FileEntry>, d: Digest, x: FileEntry)
    ensures multiset(Bucket(h, d))[x] == if x.digest == d then multiset(h)[x] else 0
  {
    if h != [] {
      var last := h[|h| - 1];
      var prefix := h[..|h| - 1];
      assert h == prefix + [last];
      BucketCounts(prefix, d, x);
    }
  }

  /** A sub-multiset of h has buckets no larger than h's. */
  lemma BucketSizeMonotone(a: seq<FileEntry>, b: seq<FileEntry>, d: Digest)
    requires multiset(a) <= multiset(b)
    ensures |Bucket(a, d)| <= |Bucket(b, d)|
  {
    var ma, mb := multiset(Bucket(a, d)), multiset(Bucket(b, d));
    forall x ensures ma[x] <= mb[x] {
      BucketCounts(a, d, x);
      BucketCounts(b, d, x);
    }
    assert ma <= mb;
    assert mb == ma + (mb - ma);
  }

  /** When every entry is admitted, the hashed entries are the whole listing. */
  lemma {:induction false} AllAdmitted(listing: seq<FileEntry>, skipEmptyDigest: bool)
    requires forall e | e in listing :: Admitted(e, skipEmptyDigest)
    ensures Hashed(listing, skipEmptyDigest) == listing
  {
    if listing != [] {
      var prefix := listing[..|listing| - 1];
      assert listing == prefix + [listing[|listing| - 1]];
      AllAdmitted(prefix, skipEmptyDigest);
    }
  }

  /** Entries that all share one digest form one bucket, and that digest is the only one. */
  lemma {:induction false} OneDigest(h: seq<FileEntry>, d: Digest)
    requires h != []
    requires forall e | e in h :: e.digest == d
    ensures Digests(h) == [d]
    ensures Bucket(h, d) == h
  {
    var prefix := h[..|h| - 1];
    assert h == prefix + [h[|h| - 1]];
    if prefix != [] {
      OneDigest(prefix, d);
    }
  }
}

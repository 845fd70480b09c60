/** The three loops both scripts run over their `files` table: the scan that buckets the
    directory entries by digest, the retention pass that sorts every bucket and pops its
    newest entry, and the deletion pass that removes and reports what is left. Removing a
    file becomes appending the entry to the `deleted` output, printing a line becomes
    appending it to `report`. */
module Dedupe {
  import opened Entries
  import opened MtimeSort
  import opened Retention
  import opened DigestTable

  datatype Option<T> = None | Some(value: T)

  /** `entry.name.decode(encoding)`: bytes decode to text; a str has no `decode`, so the
      call raises. */
  function Decode(name: Name): (r: Option<string>)
    ensures r.Some? <==> name.Bytes?
    ensures r.Some? ==> r.value == name.raw
  {
    match name
    case Bytes(raw) => Some(raw)
    case Text(_) => None
  }

  /** The name as the report is meant to show it. */
  function Display(name: Name): (s: string)
    ensures Decode(name).Some? ==> s == Decode(name).value
    ensures name.Text? ==> s == name.text
  {
    match name
    case Bytes(raw) => raw
    case Text(text) => text
  }

  /** One `Deleted <name>` line per deleted entry. */
  function Lines(deleted: seq<FileEntry>): (lines: seq<string>)
    ensures |lines| == |deleted|
  {
    seq(|deleted|, i requires 0 <= i < |deleted| => "Deleted " + Display(deleted[i].name))
  }

  /** Deleting one more entry adds its line at the end of the report. */
  lemma LinesStep(deleted: seq<FileEntry>, e: FileEntry)
    ensures Lines(deleted + [e]) == Lines(deleted) + ["Deleted " + Display(e.name)]
  {
  }

  /** The position of the first entry whose name cannot be decoded, or |s| if none. */
  function FirstUndecodable(s: seq<FileEntry>): (k: nat)
    ensures k <= |s|
    ensures k < |s| ==> Decode(s[k].name).None?
    ensures forall j | 0 <= j < k :: Decode(s[j].name).Some?
  {
    if s == [] then 0
    else if Decode(s[0].name).None? then 0
    else 1 + FirstUndecodable(s[1..])
  }

  /** The table holds, in first-occurrence order, the bucket of every digest of h. */
  ghost predicate Tabulates(keys: seq<Digest>, groups: map<Digest, seq<FileEntry>>, h: seq<FileEntry>) {
    && keys == Digests(h)
    && (forall d | d in groups :: groups[d] == Bucket(h, d))
  }

  lemma ScanStep(keys: seq<Digest>, groups: map<Digest, seq<FileEntry>>, h: seq<FileEntry>, e: FileEntry)
    requires Tabulates(keys, groups, h)
    requires forall d :: d in groups <==> d in keys
    ensures e.digest in groups ==>
      Tabulates(keys, groups[e.digest := groups[e.digest] + [e]], h + [e])
    ensures e.digest !in groups ==>
      Tabulates(keys + [e.digest], groups[e.digest := [e]], h + [e])
  {
    DigestsStep(h, e);
    forall d ensures Bucket(h + [e], d) == Bucket(h, d) + (if e.digest == d then [e] else []) {
      BucketStep(h, e, d);
    }
    if e.digest !in groups {
      DigestsMembers(h, e.digest);
    }
  }

  /** The scan loop: every regular file that passes the digest guard goes to the end of the
      list of its digest, and a digest seen for the first time becomes the last key. */
  method Scan(listing: seq<FileEntry>, skipEmptyDigest: bool) returns (files: FileTable)
    ensures fresh(files) && files.Valid()
    ensures files.keys == Digests(Hashed(listing, skipEmptyDigest))
    ensures forall d | d in files.groups ::
      files.groups[d] == Bucket(Hashed(listing, skipEmptyDigest), d) && files.groups[d] != []
  {
    files := new FileTable();
    for i := 0 to |listing|
      invariant files.Valid()
      invariant Tabulates(files.keys, files.groups, Hashed(listing[..i], skipEmptyDigest))
    {
      var entry := listing[i];
      ghost var h := Hashed(listing[..i], skipEmptyDigest);
      HashedStep(listing, i, skipEmptyDigest);
      // `md5` is computed for every regular file; `if md5:` is the guard
      if entry.isFile && (!skipEmptyDigest || entry.digest.hex != "") {
        var md5 := entry.digest;
        assert Hashed(listing[..i + 1], skipEmptyDigest) == h + [entry];
        ScanStep(files.keys, files.groups, h, entry);
        if md5 !in files.groups {
          files.Insert(md5, entry);
        } else {
          files.Append(md5, entry);
        }
      } else {
        assert Hashed(listing[..i + 1], skipEmptyDigest) == h + [];
        assert h + [] == h;
      }
    }
    assert listing[..|listing|] == listing;
  }

  /** Visiting key d, which occurs neither among the visited keys pre nor among the
      remaining keys post: d stays when its list keeps an entry, and leaves otherwise. */
  lemma KeysStep(pre: seq<Digest>, d: Digest, post: seq<Digest>, before: map<Digest, seq<FileEntry>>)
    requires d !in pre && d !in post
    requires forall k | k in pre + [d] :: k in before
    ensures var keys := Duplicated(pre, before) + ([d] + post);
            Duplicated(pre + [d], before) + post
              == if |before[d]| > 1 then keys else Without(keys, d)
  {
    var dup := Duplicated(pre, before);
    assert (pre + [d])[..|pre|] == pre;
    if |before[d]| > 1 {
      assert Duplicated(pre + [d], before) == dup + [d];
      assert dup + [d] + post == dup + ([d] + post);
    } else {
      assert Duplicated(pre + [d], before) == dup + [];
      assert dup + [] == dup;
      WithoutSplit(dup, d, post);
      assert dup + ([d] + post) == dup + [d] + post;
    }
  }

  lemma DistinctSplit(s: seq<Digest>, i: nat)
    requires i < |s| && Distinct(s)
    ensures s[i] !in s[..i] && s[i] !in s[i + 1..]
  {
  }

  lemma RetainStepKeys(snapshot: seq<Digest>, i: nat, before: map<Digest, seq<FileEntry>>)
    requires i < |snapshot| && Distinct(snapshot)
    requires forall k | k in snapshot :: k in before
    ensures snapshot[i] !in snapshot[..i]
    ensures var d := snapshot[i];
            var keys := Duplicated(snapshot[..i], before) + snapshot[i..];
            Duplicated(snapshot[..i + 1], before) + snapshot[i + 1..]
              == if |before[d]| > 1 then keys else Without(keys, d)
  {
    var d := snapshot[i];
    DistinctSplit(snapshot, i);
    assert snapshot[..i + 1] == snapshot[..i] + [d];
    assert snapshot[i..] == [d] + snapshot[i + 1..];
    KeysStep(snapshot[..i], d, snapshot[i + 1..], before);
  }

  /** The retention loop has handled the first i keys of the snapshot: their lists have
      lost their newest entry, the other lists are as the scan left them. */
  ghost predicate RetainedUpTo(
    groups: map<Digest, seq<FileEntry>>, snapshot: seq<Digest>, i: nat, before: map<Digest, seq<FileEntry>>)
    requires i <= |snapshot|
    requires forall k | k in snapshot :: k in before && before[k] != []
  {
    forall k | k in groups ::
      k in before && groups[k] == if k in snapshot[..i] then ToDelete(before[k]) else before[k]
  }

  lemma RetainStepGroups(
    groups: map<Digest, seq<FileEntry>>, snapshot: seq<Digest>, i: nat, before: map<Digest, seq<FileEntry>>)
    requires i < |snapshot|
    requires snapshot[i] !in snapshot[..i]
    requires forall k | k in snapshot :: k in before && before[k] != []
    requires RetainedUpTo(groups, snapshot, i, before)
    ensures var d := snapshot[i];
            var after := groups[d := ToDelete(before[d])];
            RetainedUpTo(after, snapshot, i + 1, before) && RetainedUpTo(after - {d}, snapshot, i + 1, before)
  {
    var d := snapshot[i];
    assert snapshot[..i + 1] == snapshot[..i] + [d];
    var after := groups[d := ToDelete(before[d])];
    forall k | k in after
      ensures k in before && after[k] == if k in snapshot[..i + 1] then ToDelete(before[k]) else before[k]
    {
      if k != d {
        assert k in snapshot[..i + 1] <==> k in snapshot[..i];
      }
    }
  }

  lemma UpdateTwice<K, V>(m: map<K, V>, k: K, a: V, b: V)
    ensures m[k := a][k := b] == m[k := b]
  {
  }

  /** One turn of the retention loop: sort the list of the i-th snapshot key by
      modification time, pop its newest entry, delete the key if its list is now empty. */
  method RetainKey(files: FileTable, snapshot: seq<Digest>, i: nat, ghost before: map<Digest, seq<FileEntry>>)
    requires i < |snapshot| && Distinct(snapshot)
    requires forall k | k in snapshot :: k in before && before[k] != []
    requires files.Valid()
    requires files.keys == Duplicated(snapshot[..i], before) + snapshot[i..]
    requires RetainedUpTo(files.groups, snapshot, i, before)
    modifies files
    ensures files.Valid()
    ensures files.keys == Duplicated(snapshot[..i + 1], before) + snapshot[i + 1..]
    ensures RetainedUpTo(files.groups, snapshot, i + 1, before)
  {
    var md5 := snapshot[i];
    ghost var current := files.groups;
    ghost var sorted := SortByMtime(before[md5]);
    ghost var after := current[md5 := ToDelete(before[md5])];
    RetainStepKeys(snapshot, i, before);
    assert md5 in current && current[md5] == before[md5] && sorted[..|sorted| - 1] == ToDelete(before[md5])
      && RetainedUpTo(after, snapshot, i + 1, before) && RetainedUpTo(after - {md5}, snapshot, i + 1, before)
    by {
      RetainStepGroups(current, snapshot, i, before);
    }
    files.SortGroup(md5);
    var newest := files.Pop(md5);
    UpdateTwice(current, md5, sorted, sorted[..|sorted| - 1]);
    assert files.groups == after;
    if |files.groups[md5]| == 0 {
      files.Remove(md5);
    }
  }

  /** The retention loop over a snapshot of the keys: each digest present at the start is
      visited exactly once; its list is sorted by modification time, the newest entry
      popped, and the key deleted when the list is left empty. */
  method RemoveNewest(files: FileTable)
    requires files.Valid()
    requires forall d | d in files.groups :: files.groups[d] != []
    modifies files
    ensures files.Valid()
    ensures files.keys == Duplicated(old(files.keys), old(files.groups))
    ensures forall d | d in files.groups :: files.groups[d] == ToDelete(old(files.groups)[d])
    ensures forall d | d in files.groups :: files.groups[d] != []
    ensures forall d | d in old(files.groups) :: d in files.groups <==> |old(files.groups)[d]| > 1
  {
    var snapshot := files.keys;
    ghost var before := files.groups;
    assert snapshot[..0] == [] && snapshot[0..] == snapshot;
    for i := 0 to |snapshot|
      invariant files.Valid()
      invariant files.keys == Duplicated(snapshot[..i], before) + snapshot[i..]
      invariant RetainedUpTo(files.groups, snapshot, i, before)
    {
      RetainKey(files, snapshot, i, before);
    }
    RetainedAll(files.keys, files.groups, snapshot, before);
  }

  /** What the finished retention loop leaves. */
  lemma RetainedAll(
    keys: seq<Digest>, groups: map<Digest, seq<FileEntry>>, snapshot: seq<Digest>, before: map<Digest, seq<FileEntry>>)
    requires forall k | k in snapshot :: k in before && before[k] != []
    requires forall d :: d in before <==> d in snapshot
    requires forall d :: d in groups <==> d in keys
    requires keys == Duplicated(snapshot[..|snapshot|], before) + snapshot[|snapshot|..]
    requires RetainedUpTo(groups, snapshot, |snapshot|, before)
    ensures keys == Duplicated(snapshot, before)
    ensures forall d | d in groups :: groups[d] == ToDelete(before[d])
    ensures forall d | d in groups :: groups[d] != []
    ensures forall d | d in before :: d in groups <==> |before[d]| > 1
  {
    assert snapshot[..|snapshot|] == snapshot;
    assert keys == Duplicated(snapshot, before) + [];
  }

  lemma FlattenStep(ks: seq<Digest>, i: nat, groups: map<Digest, seq<FileEntry>>)
    requires i < |ks|
    requires forall k | k in ks :: k in groups
    ensures Flatten(ks, groups) == Flatten(ks[..i], groups) + groups[ks[i]] + Flatten(ks[i + 1..], groups)
  {
    assert ks == ks[..i] + [ks[i]] + ks[i + 1..];
    FlattenConcat(ks[..i] + [ks[i]], ks[i + 1..], groups);
    assert (ks[..i] + [ks[i]])[..i] == ks[..i];
  }

  /** The entries of the keys before ks[i], then the first j + 1 entries of the list of
      ks[i], are where the whole walk starts. */
  lemma PrefixOfFlatten(ks: seq<Digest>, i: nat, j: nat, groups: map<Digest, seq<FileEntry>>)
    requires forall k | k in ks :: k in groups
    requires i < |ks| && j < |groups[ks[i]]|
    ensures var p := Flatten(ks[..i], groups) + groups[ks[i]][..j + 1];
            |p| <= |Flatten(ks, groups)| && Flatten(ks, groups)[..|p|] == p
  {
    FlattenStep(ks, i, groups);
  }

  /** A run that has removed the decodable entries done and then the undecodable entry,
      all of them a prefix of all, stops exactly there. */
  lemma StopsAt(all: seq<FileEntry>, done: seq<FileEntry>, entry: FileEntry)
    requires |done| < |all| && all[..|done| + 1] == done + [entry]
    requires forall x | x in done :: Decode(x.name).Some?
    requires Decode(entry.name).None?
    ensures FirstUndecodable(all) == |done|
    ensures all[..|done|] == done
  {
    assert all[|done|] == entry;
    assert all[..|done|] == (done + [entry])[..|done|];
  }

  /** The deletion loop as the scripts write it: over a snapshot of the keys and a copy of
      each list, remove the entry, then print `Deleted` and its decoded name. A name that
      cannot be decoded stops the run right after its file was removed. */
  method DeleteAsWritten(files: FileTable) returns (deleted: seq<FileEntry>, report: seq<string>, crashed: bool)
    requires files.Valid()
    ensures var all := Flatten(files.keys, files.groups);
            var k := FirstUndecodable(all);
            && crashed == (k < |all|)
            && deleted == (if crashed then all[..k + 1] else all)
            && report == Lines(all[..k])
  {
    deleted, report, crashed := [], [], false;
    ghost var all := Flatten(files.keys, files.groups);
    var snapshot, groups := files.keys, files.groups;
    for i := 0 to |snapshot|
      invariant deleted == Flatten(snapshot[..i], groups)
      invariant forall x | x in deleted :: Decode(x.name).Some?
      invariant report == Lines(deleted)
    {
      assert snapshot[..i + 1][..i] == snapshot[..i];
      var group := groups[snapshot[i]];
      for j := 0 to |group|
        invariant deleted == Flatten(snapshot[..i], groups) + group[..j]
        invariant forall x | x in deleted :: Decode(x.name).Some?
        invariant report == Lines(deleted)
      {
        var entry := group[j];
        assert group[..j + 1] == group[..j] + [entry];
        ghost var done := deleted;
        deleted := deleted + [entry];
        var name := Decode(entry.name);
        if name.None? {
          crashed := true;
          PrefixOfFlatten(snapshot, i, j, groups);
          assert all[..|deleted|] == deleted;
          StopsAt(all, done, entry);
          return;
        }
        report := report + ["Deleted " + name.value];
        LinesStep(done, entry);
      }
      assert group[..|group|] == group;
    }
    assert snapshot[..|snapshot|] == snapshot;
    assert all[..|all|] == all;
  }

  /** The deletion loop with every name shown: each remaining entry is removed and
      reported, in key order and list order. */
  method DeleteAndReport(files: FileTable) returns (deleted: seq<FileEntry>, report: seq<string>)
    requires files.Valid()
    ensures deleted == Flatten(files.keys, files.groups)
    ensures report == Lines(deleted)
  {
    deleted, report := [], [];
    var snapshot, groups := files.keys, files.groups;
    for i := 0 to |snapshot|
      invariant deleted == Flatten(snapshot[..i], groups)
      invariant report == Lines(deleted)
    {
      assert snapshot[..i + 1][..i] == snapshot[..i];
      var group := groups[snapshot[i]];
      for j := 0 to |group|
        invariant deleted == Flatten(snapshot[..i], groups) + group[..j]
        invariant report == Lines(deleted)
      {
        var entry := group[j];
        assert group[..j + 1] == group[..j] + [entry];
        LinesStep(deleted, entry);
        deleted := deleted + [entry];
        report := report + ["Deleted " + Display(entry.name)];
      }
      assert group[..|group|] == group;
    }
    assert snapshot[..|snapshot|] == snapshot;
  }

  /** What the table holds after the retention loop is, walked in key order, the plan. */
  lemma {:induction false} RetainedTableIsPlan(
    ks: seq<Digest>, h: seq<FileEntry>,
    before: map<Digest, seq<FileEntry>>, after: map<Digest, seq<FileEntry>>)
    requires forall k | k in ks :: k in before && before[k] == Bucket(h, k) && before[k] != []
    requires forall k | k in Duplicated(ks, before) :: k in after && after[k] == ToDelete(before[k])
    ensures Flatten(Duplicated(ks, before), after) == DeletionsOf(ks, h)
  {
    if ks != [] {
      var last := ks[|ks| - 1];
      var rest := ks[..|ks| - 1];
      assert ks == rest + [last];
      var dup := Duplicated(rest, before);
      assert Duplicated(ks, before) == dup + (if |before[last]| > 1 then [last] else []);
      assert DeletionsOf(ks, h) == DeletionsOf(rest, h) + ToDelete(before[last]);
      RetainedTableIsPlan(rest, h, before, after);
      if |before[last]| > 1 {
        assert (dup + [last])[..|dup|] == dup;
        assert Flatten(dup + [last], after) == Flatten(dup, after) + after[last];
      } else {
        assert ToDelete(before[last]) == [];
        assert dup + [] == dup;
        assert DeletionsOf(rest, h) + [] == DeletionsOf(rest, h);
      }
    }
  }

  /** One whole run of either script as written. */
  method RunAsWritten(listing: seq<FileEntry>, skipEmptyDigest: bool)
    returns (deleted: seq<FileEntry>, report: seq<string>, crashed: bool)
    ensures var plan := Plan(listing, skipEmptyDigest);
            var k := FirstUndecodable(plan);
            && crashed == (k < |plan|)
            && deleted == (if crashed then plan[..k + 1] else plan)
            && report == Lines(plan[..k])
  {
    var files := Scan(listing, skipEmptyDigest);
    ghost var h := Hashed(listing, skipEmptyDigest);
    ghost var before := files.groups;
    RemoveNewest(files);
    RetainedTableIsPlan(Digests(h), h, before, files.groups);
    deleted, report, crashed := DeleteAsWritten(files);
  }

  /** remove_duplicate_files.py: the directory path is bytes, so every name decodes, and
      the empty-digest guard is on. The run deletes exactly the plan and reports each
      deletion. */
  method RemoveDuplicateFiles(listing: seq<FileEntry>) returns (deleted: seq<FileEntry>, report: seq<string>)
    requires forall e | e in listing :: e.name.Bytes?
    ensures deleted == Plan(listing, true)
    ensures report == Lines(deleted)
  {
    var crashed;
    deleted, report, crashed := RunAsWritten(listing, true);
    ghost var plan := Plan(listing, true);
    PlanDecodable(listing);
    assert plan[..|plan|] == plan;
  }

  /** Every name of the plan is a byte name when every name of the listing is. */
  lemma PlanDecodable(listing: seq<FileEntry>)
    requires forall e | e in listing :: e.name.Bytes?
    ensures FirstUndecodable(Plan(listing, true)) == |Plan(listing, true)|
  {
    var plan := Plan(listing, true);
    forall x | x in plan ensures x.name.Bytes? {
      OnlyAdmittedDeleted(listing, true, x);
    }
    AllDecodable(plan);
  }

  /** Byte names always decode. */
  lemma {:induction false} AllDecodable(s: seq<FileEntry>)
    requires forall x | x in s :: x.name.Bytes?
    ensures FirstUndecodable(s) == |s|
  {
    if s != [] {
      assert s[0] in s;
      AllDecodable(s[1..]);
    }
  }

  /** remove_duplicate_brewfiles.py as written: the directory path is a str, so every name
      is text and its `decode` raises. The run removes the first file of the plan, prints
      nothing and stops; the rest of the plan is never carried out. */
  method RemoveDuplicateBrewfilesAsWritten(listing: seq<FileEntry>)
    returns (deleted: seq<FileEntry>, report: seq<string>, crashed: bool)
    requires forall e | e in listing :: e.name.Text?
    ensures crashed <==> Plan(listing, false) != []
    ensures deleted == if crashed then Plan(listing, false)[..1] else []
    ensures report == []
  {
    deleted, report, crashed := RunAsWritten(listing, false);
    ghost var plan := Plan(listing, false);
    if plan != [] {
      OnlyAdmittedDeleted(listing, false, plan[0]);
    }
  }

  /** One whole run with every deletion reported: the corrected behaviour of both
      scripts. */
  method Deduplicate(listing: seq<FileEntry>, skipEmptyDigest: bool)
    returns (deleted: seq<FileEntry>, report: seq<string>)
    ensures deleted == Plan(listing, skipEmptyDigest)
    ensures report == Lines(deleted)
  {
    var files := Scan(listing, skipEmptyDigest);
    ghost var h := Hashed(listing, skipEmptyDigest);
    ghost var before := files.groups;
    RemoveNewest(files);
    RetainedTableIsPlan(Digests(h), h, before, files.groups);
    deleted, report := DeleteAndReport(files);
  }

  /** How the scan groups the three files of the example below. */
  lemma TwoCopiesGrouping(h: seq<FileEntry>)
    requires |h| == 3 && h[0].digest == h[1].digest != h[2].digest
    ensures |Digests(h)| == 2 && Digests(h)[0] == h[0].digest && Digests(h)[1] == h[2].digest
    ensures Bucket(h, h[0].digest) == h[..2]
    ensures Bucket(h, h[2].digest) == [h[2]]
  {
    var ab := h[..2];
    var x, y := h[0].digest, h[2].digest;
    assert h == ab + [h[2]];
    assert Digests(ab) == [x] && Bucket(ab, x) == ab by {
      assert forall e | e in ab :: e.digest == x;
      OneDigest(ab, x);
    }
    assert Digests(h) == [x] + [y] by {
      DigestsStep(ab, h[2]);
    }
    assert Bucket(h, x) == ab by {
      BucketStep(ab, h[2], x);
    }
    assert Bucket(h, y) == [h[2]] by {
      DigestsMembers(ab, y);
      BucketStep(ab, h[2], y);
    }
  }

  /** Two files with equal content, the second written later, and one with other content:
      the newer copy and the other file survive. */
  lemma TwoCopiesSurvivors(listing: seq<FileEntry>)
    requires |listing| == 3 && listing[0].digest == listing[1].digest != listing[2].digest
    requires forall e | e in listing :: Admitted(e, true)
    requires listing[0].mtime < listing[1].mtime
    ensures Survivors(listing, true) == [listing[1], listing[2]]
  {
    AllAdmitted(listing, true);
    TwoCopiesKept(listing);
  }

  lemma TwoCopiesKept(h: seq<FileEntry>)
    requires |h| == 3 && h[0].digest == h[1].digest != h[2].digest
    requires h[0].mtime < h[1].mtime
    ensures KeptOf(Digests(h), h) == [h[1], h[2]]
  {
    var ds := Digests(h);
    var r := KeptOf(ds, h);
    TwoCopiesGrouping(h);
    KeptOfAt(ds, h, 0);
    KeptOfAt(ds, h, 1);
    NewestOfTwo(h[..2]);
    assert NewestIndex([h[2]]) == 0;
    assert r == [h[1], h[2]];
  }

  lemma NewestOfTwo(g: seq<FileEntry>)
    requires |g| == 2 && g[0].mtime < g[1].mtime
    ensures Newest(g) == g[1]
  {
    assert NewestIndex(g) == 1;
  }

  /** In the same example only the older copy is deleted. */
  lemma TwoCopiesExample(listing: seq<FileEntry>)
    requires |listing| == 3 && listing[0].digest == listing[1].digest != listing[2].digest
    requires forall e | e in listing :: Admitted(e, true)
    requires listing[0].mtime < listing[1].mtime
    ensures Plan(listing, true) == [listing[0]]
  {
    TwoCopiesSurvivors(listing);
    PlanPartitionsHashed(listing, true);
    AllAdmitted(listing, true);
    TheRestIsDeleted(listing, Plan(listing, true));
  }

  /** Of three hashed entries, whatever is neither of the last two survivors is the
      first. */
  lemma TheRestIsDeleted(h: seq<FileEntry>, p: seq<FileEntry>)
    requires |h| == 3
    requires multiset(p) + multiset([h[1], h[2]]) == multiset(h)
    ensures p == [h[0]]
  {
    assert multiset(h) == multiset{h[0]} + multiset([h[1], h[2]]) by {
      assert h == [h[0]] + [h[1], h[2]];
    }
    assert multiset(p) == multiset{h[0]} by {
      var m := multiset([h[1], h[2]]);
      forall x ensures multiset(p)[x] == multiset{h[0]}[x] {
        assert (multiset(p) + m)[x] == (multiset{h[0]} + m)[x];
      }
    }
    assert |p| == 1;
    assert p[0] in multiset(p);
  }

  /** Three or more text-named copies of one content, oldest first: the plan deletes all
      but the last, yet the first of them already has a name that cannot be decoded, so
      the brewfiles script as written removes only that one and then stops. */
  lemma BrewfilesStopsAfterFirstRemoval(listing: seq<FileEntry>)
    requires |listing| >= 3 && Sorted(listing)
    requires forall e | e in listing :: e.isFile && e.name.Text? && e.digest == listing[0].digest
    ensures Plan(listing, false) == listing[..|listing| - 1]
    ensures |Plan(listing, false)| >= 2
    ensures FirstUndecodable(Plan(listing, false)) == 0
  {
    OneGroupPlan(listing, false, listing[0].digest);
    assert listing[0] in listing;
  }
}

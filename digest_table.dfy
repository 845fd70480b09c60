/** The `files` dictionary of both scripts: digest keys in insertion order, each mapped to
    the list of entries with that digest. The operations are the dictionary and list
    operations the scripts apply to it. */
module DigestTable {
  import opened Entries
  import opened MtimeSort

  /** The lists of the keys ks, one after the other: what walking the dictionary in key
      order and each list front to back visits. */
  function Flatten(ks: seq<Digest>, groups: map<Digest, seq<FileEntry>>): (r: seq<FileEntry>)
    requires forall k | k in ks :: k in groups
    ensures forall k, x | k in ks && x in groups[k] :: x in r
  {
    if ks == [] then [] else Flatten(ks[..|ks| - 1], groups) + groups[ks[|ks| - 1]]
  }

  lemma {:induction false} FlattenConcat(a: seq<Digest>, b: seq<Digest>, groups: map<Digest, seq<FileEntry>>)
    requires forall k | k in a + b :: k in groups
    ensures Flatten(a + b, groups) == Flatten(a, groups) + Flatten(b, groups)
  {
    if b == [] {
      assert a + b == a;
    } else {
      var rest := b[..|b| - 1];
      assert b == rest + [b[|b| - 1]];
      assert (a + b)[..|a + b| - 1] == a + rest;
      FlattenConcat(a, rest, groups);
    }
  }

  /** ks with the key d taken out, the others in their order. */
  function Without(ks: seq<Digest>, d: Digest): (r: seq<Digest>)
    ensures forall k :: k in r <==> k in ks && k != d
    ensures Distinct(ks) ==> Distinct(r)
  {
    if ks == [] then []
    else
      var last := ks[|ks| - 1];
      var prefix := ks[..|ks| - 1];
      assert ks == prefix + [last];
      assert Distinct(ks) ==> Distinct(prefix) && last !in prefix;
      Without(prefix, d) + (if last == d then [] else [last])
  }

  lemma {:induction false} WithoutSplit(a: seq<Digest>, d: Digest, b: seq<Digest>)
    requires d !in a && d !in b
    ensures Without(a + [d] + b, d) == a + b
  {
    if b == [] {
      assert (a + [d])[..|a|] == a;
      WithoutAbsent(a, d);
      assert a + [d] + b == a + [d];
    } else {
      var rest := b[..|b| - 1];
      var last := b[|b| - 1];
      assert b == rest + [last];
      assert (a + [d] + b)[..|a + [d] + b| - 1] == a + [d] + rest;
      WithoutSplit(a, d, rest);
    }
  }

  lemma {:induction false} WithoutAbsent(ks: seq<Digest>, d: Digest)
    requires d !in ks
    ensures Without(ks, d) == ks
  {
    if ks != [] {
      assert ks == ks[..|ks| - 1] + [ks[|ks| - 1]];
      WithoutAbsent(ks[..|ks| - 1], d);
    }
  }

  /** The keys of ks whose list holds more than one entry, in their order. */
  function Duplicated(ks: seq<Digest>, groups: map<Digest, seq<FileEntry>>): (r: seq<Digest>)
    requires forall k | k in ks :: k in groups
    ensures forall k :: k in r <==> k in ks && |groups[k]| > 1
  {
    if ks == [] then []
    else
      var last := ks[|ks| - 1];
      assert ks == ks[..|ks| - 1] + [last];
      Duplicated(ks[..|ks| - 1], groups) + (if |groups[last]| > 1 then [last] else [])
  }

  /** An insertion-ordered dictionary from digest to a list of entries. */
  class FileTable {
    var keys: seq<Digest>
    var groups: map<Digest, seq<FileEntry>>

    /** Each key is listed once, and exactly the listed keys are mapped. */
    ghost predicate Valid()
      reads this
    {
      Distinct(keys) && forall d :: d in groups <==> d in keys
    }

    /** `files = {}` */
    constructor ()
      ensures Valid()
      ensures keys == [] && groups == map[]
    {
      keys := [];
      groups := map[];
    }

    /** `files[md5] = [entry]` for a digest not yet present: a new key at the end. */
    method Insert(d: Digest, e: FileEntry)
      requires Valid()
      requires d !in groups
      modifies this
      ensures Valid()
      ensures keys == old(keys) + [d]
      ensures groups == old(groups)[d := [e]]
    {
      keys := keys + [d];
      groups := groups[d := [e]];
    }

    /** `files[md5].append(entry)` */
    method Append(d: Digest, e: FileEntry)
      requires Valid()
      requires d in groups
      modifies this
      ensures Valid()
      ensures keys == old(keys)
      ensures groups == old(groups)[d := old(groups)[d] + [e]]
    {
      groups := groups[d := groups[d] + [e]];
    }

    /** `files[md5].sort(key=mtime)`: the stable library sort by modification time. */
    method SortGroup(d: Digest)
      requires Valid()
      requires d in groups
      modifies this
      ensures Valid()
      ensures keys == old(keys)
      ensures groups == old(groups)[d := SortByMtime(old(groups)[d])]
    {
      groups := groups[d := SortByMtime(groups[d])];
    }

    /** `files[md5].pop()`: removes and returns the last entry of the list. */
    method Pop(d: Digest) returns (e: FileEntry)
      requires Valid()
      requires d in groups && groups[d] != []
      modifies this
      ensures Valid()
      ensures keys == old(keys)
      ensures e == old(groups)[d][|old(groups)[d]| - 1]
      ensures groups == old(groups)[d := old(groups)[d][..|old(groups)[d]| - 1]]
    {
      var list := groups[d];
      e := list[|list| - 1];
      groups := groups[d := list[..|list| - 1]];
    }

    /** `del files[md5]`: the key leaves, the other keys keep their order. */
    method Remove(d: Digest)
      requires Valid()
      requires d in groups
      modifies this
      ensures Valid()
      ensures keys == Without(old(keys), d)
      ensures groups == old(groups) - {d}
    {
      keys := Without(keys, d);
      groups := groups - {d};
    }
  }
}

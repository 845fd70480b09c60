/** The in-place sort of one digest group by modification time, and the choice of the
    entry that is kept. The library sort is stable, so it is specified here by a stable
    insertion sort whose properties (ordered, a permutation, stable) are proved, and the
    kept entry is characterised independently of the sort by NewestIndex. */
module MtimeSort {
  import opened Entries

  predicate Sorted(s: seq<FileEntry>) {
    forall i, j | 0 <= i < j < |s| :: s[i].mtime <= s[j].mtime
  }

  /** Places e after every element of s whose time is not later than e's. */
  function Insert(s: seq<FileEntry>, e: FileEntry): (r: seq<FileEntry>)
    requires Sorted(s)
    ensures Sorted(r)
    ensures multiset(r) == multiset(s) + multiset{e}
    ensures |r| == |s| + 1
  {
    if s == [] || s[|s| - 1].mtime <= e.mtime then s + [e]
    else
      var last := s[|s| - 1];
      var prefix := s[..|s| - 1];
      assert s == prefix + [last];
      var r := Insert(prefix, e);
      forall i | 0 <= i < |r| ensures r[i].mtime <= last.mtime {
        assert r[i] in multiset(prefix) + multiset{e};
      }
      r + [last]
  }

  /** The group sorted ascending by modification time, equal times in scan order. */
  function SortByMtime(g: seq<FileEntry>): (r: seq<FileEntry>)
    ensures Sorted(r)
    ensures multiset(r) == multiset(g)
    ensures |r| == |g|
  {
    if g == [] then []
    else
      assert g == g[..|g| - 1] + [g[|g| - 1]];
      Insert(SortByMtime(g[..|g| - 1]), g[|g| - 1])
  }

  /** The entries of s with time t, in their order in s. */
  function WithMtime(s: seq<FileEntry>, t: int): seq<FileEntry> {
    if s == [] then []
    else WithMtime(s[..|s| - 1], t) + (if s[|s| - 1].mtime == t then [s[|s| - 1]] else [])
  }

  lemma {:induction false} WithMtimeConcat(a: seq<FileEntry>, b: seq<FileEntry>, t: int)
    ensures WithMtime(a + b, t) == WithMtime(a, t) + WithMtime(b, t)
  {
    if b != [] {
      var prefix := b[..|b| - 1];
      assert b == prefix + [b[|b| - 1]];
      var last := b[|b| - 1];
      var tail := if last.mtime == t then [last] else [];
      assert (a + b)[..|a + b| - 1] == a + prefix;
      assert WithMtime(a + b, t) == WithMtime(a + prefix, t) + tail;
      WithMtimeConcat(a, prefix, t);
    } else {
      assert a + b == a;
    }
  }

  lemma {:induction false} InsertStable(s: seq<FileEntry>, e: FileEntry, t: int)
    requires Sorted(s)
    ensures WithMtime(Insert(s, e), t) == WithMtime(s, t) + WithMtime([e], t)
  {
    if s == [] || s[|s| - 1].mtime <= e.mtime {
      assert Insert(s, e) == s + [e];
      WithMtimeConcat(s, [e], t);
    } else {
      var last := s[|s| - 1];
      var prefix := s[..|s| - 1];
      var r := Insert(prefix, e);
      assert s == prefix + [last];
      assert Insert(s, e) == r + [last];
      InsertStable(prefix, e, t);
      WithMtimeConcat(r, [last], t);
      WithMtimeConcat(prefix, [last], t);
      SwapTail(WithMtime(prefix, t), WithMtime([e], t), WithMtime([last], t));
    }
  }

  /** Appending two sequences, one of them empty, in either order gives the same result. */
  lemma SwapTail(w: seq<FileEntry>, x: seq<FileEntry>, y: seq<FileEntry>)
    requires x == [] || y == []
    ensures w + x + y == w + y + x
  {
    if x == [] {
      assert w + x == w;
    } else {
      assert w + y == w;
    }
  }

  /** The sort is stable: entries with equal times keep their scan order. */
  lemma {:induction false} SortIsStable(g: seq<FileEntry>, t: int)
    ensures WithMtime(SortByMtime(g), t) == WithMtime(g, t)
  {
    if g != [] {
      var prefix := g[..|g| - 1];
      assert g == prefix + [g[|g| - 1]];
      SortIsStable(prefix, t);
      InsertStable(SortByMtime(prefix), g[|g| - 1], t);
    }
  }

  /** The position of the newest entry of g: the latest time, and among entries with the
      latest time the one scanned last. */
  function NewestIndex(g: seq<FileEntry>): (k: nat)
    requires g != []
    ensures k < |g|
    ensures forall j | 0 <= j < |g| :: g[j].mtime <= g[k].mtime
    ensures forall j | k < j < |g| :: g[j].mtime < g[k].mtime
  {
    if |g| == 1 then 0
    else
      var k := NewestIndex(g[..|g| - 1]);
      if g[k].mtime <= g[|g| - 1].mtime then |g| - 1 else k
  }

  function Newest(g: seq<FileEntry>): (r: FileEntry)
    requires g != []
    ensures r in g
    ensures forall x | x in g :: x.mtime <= r.mtime
  {
    g[NewestIndex(g)]
  }

  /** Popping the last element of the sorted group yields the newest entry. */
  lemma {:induction false} SortEndsWithNewest(g: seq<FileEntry>)
    requires g != []
    ensures SortByMtime(g)[|g| - 1] == Newest(g)
  {
    if |g| > 1 {
      var prefix := g[..|g| - 1];
      SortEndsWithNewest(prefix);
    }
  }

  /** What stays in a group after it is sorted and its last element popped: every entry but
      the newest, oldest first. */
  function ToDelete(g: seq<FileEntry>): (r: seq<FileEntry>)
    requires g != []
    ensures |r| == |g| - 1
    ensures Sorted(r)
    ensures multiset(r) + multiset{Newest(g)} == multiset(g)
    ensures forall x | x in r :: x in g && x.mtime <= Newest(g).mtime
  {
    var s := SortByMtime(g);
    SortEndsWithNewest(g);
    assert s == s[..|g| - 1] + [Newest(g)];
    forall x | x in s[..|g| - 1] ensures x in g {
      assert x in multiset(s);
    }
    s[..|g| - 1]
  }

  /** A group already in time order is left as it is by the sort. */
  lemma {:induction false} SortKeepsSorted(g: seq<FileEntry>)
    requires Sorted(g)
    ensures SortByMtime(g) == g
  {
    if g != [] {
      var prefix := g[..|g| - 1];
      assert g == prefix + [g[|g| - 1]];
      SortKeepsSorted(prefix);
    }
  }

  /** From a group already in time order, every entry but the last is deleted. */
  lemma ToDeleteOfSorted(g: seq<FileEntry>)
    requires g != [] && Sorted(g)
    ensures ToDelete(g) == g[..|g| - 1]
  {
    SortKeepsSorted(g);
  }
}

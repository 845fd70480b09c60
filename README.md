# Duplicate-file retention planner

Two maintenance scripts delete duplicate files from one directory:
`brew/remove_duplicate_files.py` and `brew/remove_duplicate_brewfiles.py`. Both
work the same way:

1. **Scan.** They scan the directory. Every regular file goes into an
   insertion-ordered dictionary `files`, from the MD5 hex digest of its
   content to the list of entries with that digest. Lists are in scan order.
2. **Retain.** For each key of a snapshot of the dictionary's keys, they sort
   that key's list by modification time with the stable library sort. Then they
   pop the last entry, which is the one kept. If the list is left empty, the
   key is deleted.
3. **Delete.** They remove every entry still in the dictionary and, as
   intended, print `Deleted <name>` for each one.
   `remove_duplicate_brewfiles.py` stops after the first removal instead (see
   "Findings").

`remove_duplicate_files.py` has two differences. It encodes the directory
path to bytes, so every name is a bytes object and has a `decode` method (the
model treats every such name as decodable; see "Left out"). It also only
files an entry when its digest is non-empty (`if md5:`).
`remove_duplicate_brewfiles.py` scans a text path, so its names are `str`.

The model has five modules:

- **Entries.** A directory entry is a value
  `FileEntry(name, isFile, digest, mtime)`, and a name is either `Bytes` or
  `Text`. The module defines the admission filter and the grouping by digest:
  `Hashed`, `Bucket`, `Digests` (digests in first-occurrence order) and
  `FirstIndex`.
- **MtimeSort.** The stable sort by modification time is specified by an
  insertion sort. Its order, permutation and stability are proved. The entry
  kept is described independently by `NewestIndex`: the latest time, and among
  equal times the entry scanned last. `ToDelete` is what a group keeps after
  the pop.
- **Retention.** The deletion plan of a whole run (`Plan`), the surviving
  entries (`Survivors`), and the lemmas about them.
- **DigestTable.** The dictionary as a class `FileTable`. Its keys are a
  sequence and its lists a map. It has one method per dictionary or list
  operation the scripts apply.
- **Dedupe.** The three loops as methods over a `FileTable`, each proved
  against the Entries, MtimeSort and DigestTable functions:
  - the scan against `Digests`, `Bucket` and `Hashed`;
  - the retention loop against `Duplicated` and `ToDelete`;
  - the deletion loops against `Flatten` and `Lines`.

  `RetainedTableIsPlan` proves that walking the retained table in key order
  gives `Plan`. Only the whole runs (`RunAsWritten`, `Deduplicate`) go through
  it to reach the Retention functions. The entries popped by the retention
  loop appear in no contract. The survivors reach the runs only as the
  complement of `Plan` among the filed entries
  (`Retention.PlanPartitionsHashed`). The module also holds:
  - whole runs of each script;
  - the corrected run;
  - two worked examples.

Removing a file is modelled as appending the entry to a `deleted` output.
Printing is modelled as appending a line to a `report` output.

## Model

| member | source | states |
|---|---|---|
| Entries.Admitted | brew/remove_duplicate_files.py:26-30 | only regular files are admitted, and with the guard on only those with a non-empty digest |
| Entries.Hashed | brew/remove_duplicate_files.py:25-30 | every entry filed is a regular file of the listing that passes the digest guard, and no more are filed than were scanned |
| Entries.AdmittedIsHashed | brew/remove_duplicate_files.py:25-30 | conversely, every regular file of the listing that passes the digest guard is filed |
| Entries.HashedCounts | brew/remove_duplicate_files.py:25-30 | the scan files each admitted entry as often as the listing holds it, and nothing else |
| Entries.Bucket | brew/remove_duplicate_files.py:31-34 | every entry of a digest's list was filed and has that digest, and the list is no longer than the filed entries |
| Entries.InOwnBucket | brew/remove_duplicate_files.py:31-34 | conversely, every filed entry is in the list of its own digest |
| Entries.Digests | brew/remove_duplicate_files.py:31-32 | the keys are pairwise distinct, at most one per filed entry, and each key has a non-empty list |
| Entries.DigestsMembers | brew/remove_duplicate_files.py:31-32 | a digest is a key exactly when some filed entry has it |
| Entries.HashedStep | brew/remove_duplicate_files.py:25-30 | scanning one more entry extends the filed entries by it exactly when it is a regular file passing the guard |
| Entries.BucketStep | brew/remove_duplicate_files.py:31-34 | filing one more entry appends it to its own digest's list and to no other |
| Entries.DigestsStep | brew/remove_duplicate_files.py:31-32 | filing an entry with a new digest adds that digest as the last key; otherwise the keys are unchanged |
| Entries.FirstIndex | brew/remove_duplicate_files.py:31-32 | the position of the first filed entry with a digest: every earlier entry has another digest |
| Entries.FirstIndexStep | brew/remove_duplicate_files.py:31-32 | filing one more entry leaves a digest's first position unchanged once it was seen, and otherwise puts it at the new entry or past the end |
| Entries.FirstIndexFound | brew/remove_duplicate_files.py:31-32 | a digest has a first position inside the filed entries exactly when its list is non-empty |
| Entries.DigestHasIndex | brew/remove_duplicate_files.py:31-32 | every key was first scanned at a position inside the filed entries |
| Entries.ScanOrderPair | brew/remove_duplicate_files.py:31-32 | of two keys, the one listed earlier was first scanned earlier |
| Entries.DigestsInScanOrder | brew/remove_duplicate_files.py:31-32 | the keys are in the order in which each digest was first scanned |
| Entries.RegroupExtend | brew/remove_duplicate_files.py:31-34 | filing one more entry adds it to the lists of the given distinct digests exactly when its digest is among them |
| Entries.PartitionStep | brew/remove_duplicate_files.py:31-34 | if the lists hold every filed entry exactly once, they still do after one more entry is filed |
| Entries.BucketsPartition | brew/remove_duplicate_files.py:25-34 | every filed entry lies in exactly one digest's list (a multiset equality) |
| Entries.BucketCounts | brew/remove_duplicate_files.py:31-34 | a digest's list holds each filed entry of that digest as often as it was filed, and nothing else |
| Entries.BucketSizeMonotone | brew/remove_duplicate_files.py:31-34 | a directory holding a subset of the filed entries has no larger lists |
| Entries.AllAdmitted | brew/remove_duplicate_files.py:25-30 | when every entry is a regular file passing the guard, every entry is filed in scan order |
| Entries.OneDigest | brew/remove_duplicate_files.py:31-34 | entries that all share one digest give a single key whose list holds them all |
| MtimeSort.Insert | brew/remove_duplicate_files.py:40 | inserting into a list sorted by time keeps it sorted and adds exactly that entry |
| MtimeSort.SortByMtime | brew/remove_duplicate_files.py:40 | the sorted list is ordered by modification time and is a permutation of the list |
| MtimeSort.SortIsStable | brew/remove_duplicate_files.py:40 | entries with equal times keep their scan order after the sort |
| MtimeSort.WithMtimeConcat | brew/remove_duplicate_files.py:40 | the entries of one time in two concatenated lists are those of each list in turn |
| MtimeSort.InsertStable | brew/remove_duplicate_files.py:40 | an inserted entry is placed after every entry with its time |
| MtimeSort.NewestIndex | brew/remove_duplicate_files.py:40-42 | picks an entry whose time is not exceeded, with only strictly older entries after it |
| MtimeSort.Newest | brew/remove_duplicate_files.py:40-42 | the entry kept belongs to the list and no entry of the list has a later time |
| MtimeSort.SortEndsWithNewest | brew/remove_duplicate_files.py:40-42 | `pop()` after the sort yields that newest entry |
| MtimeSort.ToDelete | brew/remove_duplicate_files.py:40-42 | after the sort and pop, the list holds every entry but the newest, sorted, each no newer than the newest |
| MtimeSort.SortKeepsSorted | brew/remove_duplicate_files.py:40 | the sort leaves a list already in time order unchanged |
| MtimeSort.ToDeleteOfSorted | brew/remove_duplicate_files.py:40-42 | of a list already in time order, all but the last entry remain |
| Retention.DeletionsOf | brew/remove_duplicate_files.py:48-50 | every entry deleted has one of the visited digests |
| Retention.KeptOf | brew/remove_duplicate_files.py:39-42 | keeps exactly one entry per visited digest |
| Retention.KeptOfAt | brew/remove_duplicate_files.py:39-42 | the entry kept for each digest is the newest of that digest's list |
| Retention.Plan | brew/remove_duplicate_files.py:25-50 | every entry a run deletes has a digest among the table's keys |
| Retention.Survivors | brew/remove_duplicate_files.py:39-42 | a run keeps exactly one entry per distinct digest |
| Retention.SplitGroups | brew/remove_duplicate_files.py:39-50 | the entries deleted and the entries kept together are the lists of the visited digests |
| Retention.PlanPartitionsHashed | brew/remove_duplicate_files.py:39-50 | every filed entry is either deleted or kept, exactly once; nothing else is deleted |
| Retention.OnlyAdmittedDeleted | brew/remove_duplicate_files.py:26-30 | only regular files that passed the digest guard are ever deleted |
| Retention.PlanCount | brew/remove_duplicate_files.py:39-50 | the number of deletions is the number of filed entries minus the number of distinct digests |
| Retention.SurvivorsAreNewestAndUnique | brew/remove_duplicate_files.py:39-42 | one survivor per digest, in key order, with pairwise distinct digests, each no older than anything of its digest |
| Retention.KeptNoOlder | brew/remove_duplicate_files.py:39-42 | every filed entry has a kept entry of its digest that is no older |
| Retention.DeletedHasOneSurvivor | brew/remove_duplicate_files.py:39-50 | every deleted file has a survivor with the same digest that is no older |
| Retention.NoDeletionsFromSmallGroups | brew/remove_duplicate_files.py:42-46 | digests with a single entry lose nothing |
| Retention.SingletonNeverDeleted | brew/remove_duplicate_files.py:42-46 | an entry alone in its digest's list is not deleted |
| Retention.UniqueFileSurvives | brew/remove_duplicate_files.py:42-46 | a file whose digest no other filed file shares is kept, not deleted |
| Retention.NewestIsLastOfLatest | brew/remove_duplicate_files.py:40-42 | the newest entry is followed in its list only by strictly older entries |
| Retention.TiesGoToLastScanned | brew/remove_duplicate_files.py:40-42 | of several copies with the latest time, the survivor is the one scanned last |
| Retention.KeptBucketSizes | brew/remove_duplicate_files.py:39-46 | among the survivors each digest occurs exactly once |
| Retention.SecondRunDeletesNothing | brew/remove_duplicate_files.py:25-50 | a rerun over a directory holding only survivors of a first run (plus entries that are not filed) deletes nothing |
| Retention.SurvivorsRerun | brew/remove_duplicate_files.py:25-50 | a rerun over the survivors alone deletes nothing |
| Retention.RerunAfterDeletion | brew/remove_duplicate_files.py:25-50 | a rerun over what the first run leaves in the directory (the listing minus the plan) deletes nothing |
| Retention.OrderedConcat | brew/remove_duplicate_files.py:48-50 | two lists each in deletion order, the first with earlier digests only, give a list in deletion order |
| Retention.GroupInDeletionOrder | brew/remove_duplicate_files.py:48-50 | one digest's remaining list is deleted oldest first |
| Retention.EarlierGroupsFirst | brew/remove_duplicate_files.py:48-50 | entries of earlier keys precede those of a later key |
| Retention.LastGroupIsLatest | brew/remove_duplicate_files.py:48-50 | in first-occurrence order the last key was first scanned after all others |
| Retention.DeletionOrderStep | brew/remove_duplicate_files.py:48-50 | appending the list of a key first scanned after all earlier keys keeps the deletions in order |
| Retention.DeletionOrder | brew/remove_duplicate_files.py:48-50 | deletions come key by key in first-occurrence order, oldest first within a key |
| Retention.PlanOrder | brew/remove_duplicate_files.py:48-50 | the whole run deletes in that order |
| Retention.OneGroupPlan | brew/remove_duplicate_files.py:39-50 | copies of one content scanned oldest first: all but the last are deleted, in scan order, and the last survives |
| DigestTable.Flatten | brew/remove_duplicate_files.py:48-49 | walking the keys visits every entry of every visited key's list |
| DigestTable.FlattenConcat | brew/remove_duplicate_files.py:48-49 | walking the keys a then b visits a's lists, then b's |
| DigestTable.Without | brew/remove_duplicate_files.py:46 | deleting a key leaves exactly the other keys, still distinct |
| DigestTable.WithoutSplit | brew/remove_duplicate_files.py:46 | deleting a key keeps the other keys in their order |
| DigestTable.WithoutAbsent | brew/remove_duplicate_files.py:46 | deleting an absent key changes nothing |
| DigestTable.Duplicated | brew/remove_duplicate_files.py:39-46 | the keys still present after retention are exactly those whose list had more than one entry |
| DigestTable.FileTable.constructor | brew/remove_duplicate_files.py:20 | the dictionary starts empty |
| DigestTable.FileTable.Insert | brew/remove_duplicate_files.py:31-32 | a new digest becomes the last key, mapped to a one-entry list |
| DigestTable.FileTable.Append | brew/remove_duplicate_files.py:33-34 | the entry goes to the end of its digest's list; keys and other lists are unchanged |
| DigestTable.FileTable.SortGroup | brew/remove_duplicate_files.py:40 | only that digest's list changes, and it becomes its stable sort by time |
| DigestTable.FileTable.Pop | brew/remove_duplicate_files.py:42 | returns the last entry of the list and removes exactly it |
| DigestTable.FileTable.Remove | brew/remove_duplicate_files.py:45-46 | the key and its list leave; the other keys keep their order |
| Dedupe.Decode | brew/remove_duplicate_files.py:52 | decoding succeeds exactly for bytes names and yields their text |
| Dedupe.Display | brew/remove_duplicate_brewfiles.py:36 | the name shown is the decoded name whenever decoding succeeds, and a text name as it stands |
| Dedupe.Lines | brew/remove_duplicate_files.py:52 | one report line per deleted entry |
| Dedupe.FirstUndecodable | brew/remove_duplicate_files.py:52 | the first entry whose name cannot be decoded; every earlier name decodes |
| Dedupe.ScanStep | brew/remove_duplicate_files.py:31-34 | inserting a new digest, or appending to a known one, keeps the table equal to the grouping of the entries filed so far |
| Dedupe.Scan | brew/remove_duplicate_files.py:25-34 | the scan leaves keys equal to the distinct digests in first-occurrence order, and each list equal to that digest's filed entries (non-empty) |
| Dedupe.KeysStep | brew/remove_duplicate_files.py:45-46 | visiting a key keeps it when its list has more than one entry, and deletes it otherwise |
| Dedupe.DistinctSplit | brew/remove_duplicate_files.py:39 | each key occurs in the snapshot only at its own position |
| Dedupe.RetainStepKeys | brew/remove_duplicate_files.py:39-46 | after the i-th key, the keys are the kept earlier keys followed by the unvisited ones |
| Dedupe.RetainStepGroups | brew/remove_duplicate_files.py:40-46 | after the i-th key, visited lists have lost their newest entry and unvisited lists are untouched |
| Dedupe.RetainKey | brew/remove_duplicate_files.py:40-46 | one loop turn: sort, pop and possible delete carry the retention invariant from key i to key i + 1 |
| Dedupe.RemoveNewest | brew/remove_duplicate_files.py:39-46 | the keys left are those whose list had more than one entry, in their order, and each list is its old list minus the newest entry |
| Dedupe.RetainedAll | brew/remove_duplicate_files.py:39-46 | once every snapshot key was visited, the table is as `RemoveNewest` promises |
| Dedupe.FlattenStep | brew/remove_duplicate_files.py:48-49 | walking all keys is walking those before key i, key i's list, then the rest |
| Dedupe.PrefixOfFlatten | brew/remove_duplicate_files.py:48-49 | the entries removed before and including the j-th entry of key i are the start of the whole walk |
| Dedupe.StopsAt | brew/remove_duplicate_files.py:48-52 | a walk whose removed entries all decode, followed by one that does not, stops exactly at that entry |
| Dedupe.DeleteAsWritten | brew/remove_duplicate_files.py:48-52 | deletes in key and list order; if a name cannot be decoded, the run stops right after removing that file, reporting only the names before it |
| Dedupe.DeleteAndReport | brew/remove_duplicate_files.py:48-52 | deletes every remaining entry in key and list order and reports each one |
| Dedupe.RetainedTableIsPlan | brew/remove_duplicate_files.py:39-50 | the table left by the retention loop, walked in key order, is the plan |
| Dedupe.RunAsWritten | brew/remove_duplicate_files.py:20-52 | a whole run deletes the plan up to and including the first undecodable name, and reports the names before it |
| Dedupe.RemoveDuplicateFiles | brew/remove_duplicate_files.py:15-52 | with bytes names and the digest guard, the run deletes exactly the plan and reports every deletion |
| Dedupe.PlanDecodable | brew/remove_duplicate_files.py:15-52 | with bytes names every entry of the plan decodes |
| Dedupe.AllDecodable | brew/remove_duplicate_files.py:15 | bytes names always decode |
| Dedupe.RemoveDuplicateBrewfilesAsWritten | brew/remove_duplicate_brewfiles.py:9-36 | with text names the run fails exactly when the plan is non-empty: it removes only the plan's first file and reports nothing |
| Dedupe.Deduplicate | brew/remove_duplicate_brewfiles.py:11-36 | the corrected run deletes exactly the plan and reports every deletion |
| Dedupe.TwoCopiesGrouping | brew/remove_duplicate_files.py:25-34 | two files with equal content followed by one with other content give two keys, with lists [first, second] and [third] |
| Dedupe.TwoCopiesKept | brew/remove_duplicate_files.py:39-42 | in that case the kept entries are the newer copy and the third file |
| Dedupe.TwoCopiesSurvivors | brew/remove_duplicate_files.py:39-46 | in that case the newer copy and the other file survive |
| Dedupe.TwoCopiesExample | brew/remove_duplicate_files.py:39-50 | in that case only the older copy is deleted |
| Dedupe.TheRestIsDeleted | brew/remove_duplicate_files.py:39-50 | of three filed entries, with the last two kept, the deletion is the first |
| Dedupe.BrewfilesStopsAfterFirstRemoval | brew/remove_duplicate_brewfiles.py:32-36 | three or more text-named copies: the plan deletes at least two, but the first name already fails to decode |

## Left out

- I/O is left out. This covers directory scanning, `os.stat`, `os.remove`,
  `open` and `print`. An entry's kind, digest and time are fields of the entry
  given as input. A removal is an appended entry and a print is an appended
  line.
- MD5 hashing is left out; the digest is an opaque string compared for
  equality. `hexdigest()` never returns an empty string, so the guard at
  brew/remove_duplicate_files.py:30 never rejects a file in practice. The
  model keeps it as the `skipEmptyDigest` switch.
- Modification times are floats read by `os.stat` when the sort runs. The
  model uses integers fixed per entry. A file changing during the run is not
  modelled.
- Command-line parsing and `os.path.expanduser` are left out. So is the
  `--encoding` option.
- Dedupe.Decode: a bytes name always decodes. A name that is invalid in the
  chosen encoding, and so raises `UnicodeDecodeError`, is not modelled.
- Errors raised by I/O are not modelled: an unreadable file, a file vanishing
  between scan and removal, and a failed removal.
- The file handle left open at brew/remove_duplicate_brewfiles.py:13 is not
  modelled.
- Python lists are modelled as values in the table's map, so aliasing between
  `files[md5]` and other references is not captured. The scripts create no
  such aliases. The `list(...)` copies at brew/remove_duplicate_files.py:39, 48
  and 49 become snapshot sequences.
- DigestTable.FileTable.Pop requires a non-empty list and
  DigestTable.FileTable.Remove requires a present key. The scripts never break
  either condition, so the `IndexError` and `KeyError` paths are not
  modelled.
- Dedupe.RemoveNewest: the script discards the entry `pop()` returns
  (brew/remove_duplicate_files.py:42), and so does the model. No contract says
  the popped entries are `Retention.Survivors`. The survivors are covered only
  as the filed entries that `Retention.Plan` does not delete.
- Dedupe.RetainKey is the body of the retention loop, written as its own
  method. The model checks the loop invariant once per key.
- Dedupe.TwoCopiesExample does not state the report line for the deleted
  copy. That line follows from Dedupe.Deduplicate's `report == Lines(deleted)`.

## Findings

| source | as written | input that shows it | evidently intended | confidence | as-written member | corrected member |
|---|---|---|---|---|---|---|
| brew/remove_duplicate_brewfiles.py:36 | the directory path is a `str`, so `entry.name` is a `str`, which has no `decode`; the first print raises right after the first `os.remove` | three copies of one Brewfile, oldest first (Dedupe.BrewfilesStopsAfterFirstRemoval): the plan deletes two, the run removes one, prints nothing and aborts | print `Deleted <name>` for every removed file and carry out the whole plan | not executed; follows from Python's `str` type having no `decode` method | Dedupe.RemoveDuplicateBrewfilesAsWritten | Dedupe.Deduplicate |

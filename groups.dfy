/**
 * Potential duplicates already in the ingest directory: the grouping, review
 * flag and ordering of `list_duplicate_groups` (from the list of scanned files
 * on), and the review state written by `set_duplicate_reviewed` (backend.py).
 */
module DuplicateGroups {
  import opened Common
  import opened Text

  /** The JSON values the review-state file may hold under a group's keys. */
  datatype Json = JNull | JBool(b: bool) | JInt(i: int) | JStr(s: string)

  /** Python's `bool()` of a decoded JSON value. */
  predicate Truthy(j: Json) {
    match j
    case JNull => false
    case JBool(b) => b
    case JInt(i) => i != 0
    case JStr(s) => s != []
  }

  /** The persisted review state: group id to its record. */
  type ReviewState = map<string, map<string, Json>>

  /** One scanned file: its name, path below the ingest directory, grouping stem and content hash. */
  datatype FileEntry = FileEntry(name: string, relativePath: string, stem: string, hash: string)

  datatype GroupKind = ByHash | ByStem

  function KindName(k: GroupKind): string {
    match k
    case ByHash => "hash"
    case ByStem => "stem"
  }

  function KeyOf(e: FileEntry, k: GroupKind): string {
    match k
    case ByHash => e.hash
    case ByStem => e.stem
  }

  function GroupId(k: GroupKind, key: string): string {
    KindName(k) + ":" + key
  }

  predicate IsReviewed(state: ReviewState, groupId: string) {
    groupId in state && "reviewed" in state[groupId] && Truthy(state[groupId]["reviewed"])
  }

  datatype DuplicateGroup = DuplicateGroup(
    id: string, kind: GroupKind, key: string, files: seq<FileEntry>,
    reviewed: bool, reviewedAt: Option<Json>)

  /** `build_group(type, key, files)`. */
  function BuildGroup(kind: GroupKind, key: string, files: seq<FileEntry>, state: ReviewState)
    : DuplicateGroup
  {
    var id := GroupId(kind, key);
    var record := if id in state then state[id] else map[];
    DuplicateGroup(id, kind, key, files, IsReviewed(state, id), Get(record, "timestamp"))
  }

  /** The files with key `key` under `kind`, in scan order: what `setdefault(...).append` collects. */
  function Bucket(entries: seq<FileEntry>, kind: GroupKind, key: string): (r: seq<FileEntry>)
    ensures forall i :: 0 <= i < |r| ==> KeyOf(r[i], kind) == key
  {
    if |entries| == 0 then []
    else
      var last := entries[|entries| - 1];
      Bucket(entries[..|entries| - 1], kind, key) + (if KeyOf(last, kind) == key then [last] else [])
  }

  /** A bucket holds each file with its key exactly as often as the scan does, and no other file. */
  lemma {:induction false} BucketCounts(entries: seq<FileEntry>, kind: GroupKind, key: string, f: FileEntry)
    ensures multiset(Bucket(entries, kind, key))[f] ==
            if KeyOf(f, kind) == key then multiset(entries)[f] else 0
  {
    if |entries| > 0 {
      var init := entries[..|entries| - 1];
      BucketCounts(init, kind, key, f);
      assert entries == init + [entries[|entries| - 1]];
    }
  }

  /** `g` is the group `list_duplicate_groups` builds for its kind and key. */
  ghost predicate IsGroupOf(entries: seq<FileEntry>, state: ReviewState, g: DuplicateGroup) {
    var files := Bucket(entries, g.kind, g.key);
    |files| > 1 && g == BuildGroup(g.kind, g.key, files, state)
  }

  /**
   * What every reported group promises: at least two files; its id is
   * `type:key`; its files are exactly the scanned files sharing that key; it
   * is reviewed exactly when the state holds a truthy "reviewed" for the id.
   */
  lemma GroupFacts(entries: seq<FileEntry>, state: ReviewState, g: DuplicateGroup)
    requires IsGroupOf(entries, state, g)
    ensures |g.files| >= 2
    ensures g.id == KindName(g.kind) + ":" + g.key
    ensures forall f :: f in g.files <==> f in entries && KeyOf(f, g.kind) == g.key
    ensures g.reviewed <==> IsReviewed(state, g.id)
  {
    forall f
      ensures f in g.files <==> f in entries && KeyOf(f, g.kind) == g.key
    {
      BucketCounts(entries, g.kind, g.key, f);
      assert f in g.files <==> f in multiset(g.files);
    }
  }

  /** The sort key `(type, key)`, compared as Python compares tuples of strings. */
  predicate GroupLess(a: DuplicateGroup, b: DuplicateGroup) {
    StrLess(KindName(a.kind), KindName(b.kind)) || (a.kind == b.kind && StrLess(a.key, b.key))
  }

  predicate SameSlot(a: DuplicateGroup, b: DuplicateGroup) {
    a.kind == b.kind && a.key == b.key
  }

  predicate Sorted(gs: seq<DuplicateGroup>) {
    forall i, j :: 0 <= i < j < |gs| ==> GroupLess(gs[i], gs[j])
  }

  predicate DistinctSlots(gs: seq<DuplicateGroup>) {
    forall i, j :: 0 <= i < j < |gs| ==> !SameSlot(gs[i], gs[j])
  }

  lemma KindOrder()
    ensures StrLess(KindName(ByHash), KindName(ByStem))
    ensures !StrLess(KindName(ByStem), KindName(ByHash))
  {
    StrLessAsymmetric(KindName(ByHash), KindName(ByStem));
  }

  lemma GroupLessTotal(a: DuplicateGroup, b: DuplicateGroup)
    requires !SameSlot(a, b)
    ensures GroupLess(a, b) || GroupLess(b, a)
  {
    KindOrder();
    if a.kind == b.kind {
      StrLessTotal(a.key, b.key);
    }
  }

  lemma GroupLessTransitive(a: DuplicateGroup, b: DuplicateGroup, c: DuplicateGroup)
    requires GroupLess(a, b) && GroupLess(b, c)
    ensures GroupLess(a, c)
  {
    KindOrder();
    StrLessIrreflexive(KindName(a.kind));
    StrLessIrreflexive(KindName(b.kind));
    if a.kind == b.kind && b.kind == c.kind {
      StrLessTransitive(a.key, b.key, c.key);
    }
  }

  /** Insert one group into a sorted list at its place. */
  function InsertGroup(g: DuplicateGroup, gs: seq<DuplicateGroup>): (r: seq<DuplicateGroup>)
    requires Sorted(gs)
    requires forall h :: h in gs ==> !SameSlot(g, h)
    ensures Sorted(r)
    ensures multiset(r) == multiset(gs) + multiset{g}
  {
    if gs == [] then [g]
    else if GroupLess(g, gs[0]) then
      InsertFront(g, gs);
      [g] + gs
    else
      assert gs == [gs[0]] + gs[1..];
      var rest := InsertGroup(g, gs[1..]);
      InsertBehind(g, gs, rest);
      [gs[0]] + rest
  }

  /** A group below the head of a sorted list is below all of it. */
  lemma InsertFront(g: DuplicateGroup, gs: seq<DuplicateGroup>)
    requires Sorted(gs) && gs != [] && GroupLess(g, gs[0])
    ensures Sorted([g] + gs)
  {
    forall j | 0 < j < |gs| ensures GroupLess(g, gs[j]) {
      GroupLessTransitive(g, gs[0], gs[j]);
    }
  }

  /** The head of a sorted list stays in front of the rest with `g` inserted behind it. */
  lemma InsertBehind(g: DuplicateGroup, gs: seq<DuplicateGroup>, rest: seq<DuplicateGroup>)
    requires Sorted(gs) && gs != [] && !GroupLess(g, gs[0]) && !SameSlot(g, gs[0])
    requires Sorted(rest) && multiset(rest) == multiset(gs[1..]) + multiset{g}
    ensures Sorted([gs[0]] + rest)
    ensures multiset([gs[0]] + rest) == multiset(gs) + multiset{g}
  {
    assert gs == [gs[0]] + gs[1..];
    assert GroupLess(gs[0], g) by {
      GroupLessTotal(g, gs[0]);
    }
    forall j | 0 <= j < |rest| ensures GroupLess(gs[0], rest[j]) {
      assert rest[j] in multiset(rest);
      if rest[j] != g {
        assert rest[j] in multiset(gs[1..]);
        var t :| 0 <= t < |gs[1..]| && gs[1..][t] == rest[j];
        assert gs[t + 1] == rest[j];
      }
    }
  }

  /** The effect of `groups.sort(key=lambda g: (g["type"], g["key"]))` on groups of distinct keys. */
  function SortGroups(gs: seq<DuplicateGroup>): (r: seq<DuplicateGroup>)
    requires DistinctSlots(gs)
    ensures Sorted(r)
    ensures multiset(r) == multiset(gs)
  {
    if gs == [] then []
    else
      assert gs == [gs[0]] + gs[1..];
      var rest := SortGroups(gs[1..]);
      assert forall h :: h in rest ==> !SameSlot(gs[0], h) by {
        forall h | h in rest ensures !SameSlot(gs[0], h) {
          assert h in multiset(gs[1..]);
        }
      }
      InsertGroup(gs[0], rest)
  }

  /** `stem_map` / `hash_map` after the files `prefix` have been added, with the keys in insertion order. */
  ghost predicate BucketsSoFar(prefix: seq<FileEntry>, kind: GroupKind,
                               m: map<string, seq<FileEntry>>, keys: seq<string>)
  {
    && (forall k :: k in m <==> k in keys)
    && (forall a, b :: 0 <= a < b < |keys| ==> keys[a] != keys[b])
    && (forall k :: k in m ==> m[k] == Bucket(prefix, kind, k))
    && (forall j :: 0 <= j < |prefix| ==> KeyOf(prefix[j], kind) in m)
  }

  /** Adding one more scanned file to a bucket list. */
  lemma BucketSnoc(p: seq<FileEntry>, e: FileEntry, kind: GroupKind, key: string)
    ensures Bucket(p + [e], kind, key) == Bucket(p, kind, key) + (if KeyOf(e, kind) == key then [e] else [])
  {
    assert (p + [e])[..|p|] == p;
  }

  /** A key no scanned file has collects no files. */
  lemma BucketOfAbsentKey(p: seq<FileEntry>, kind: GroupKind, key: string)
    requires forall j :: 0 <= j < |p| ==> KeyOf(p[j], kind) != key
    ensures Bucket(p, kind, key) == []
  {
    var b := Bucket(p, kind, key);
    if b != [] {
      BucketCounts(p, kind, key, b[0]);
      assert false;
    }
  }

  /** One `setdefault(key, []).append(entry)`. */
  lemma BucketsStep(entries: seq<FileEntry>, i: nat, kind: GroupKind,
                    m: map<string, seq<FileEntry>>, keys: seq<string>)
    requires i < |entries|
    requires BucketsSoFar(entries[..i], kind, m, keys)
    ensures var k := KeyOf(entries[i], kind);
      var keys' := if k in m then keys else keys + [k];
      var m' := m[k := (if k in m then m[k] else []) + [entries[i]]];
      BucketsSoFar(entries[..i + 1], kind, m', keys')
  {
    var e := entries[i];
    var k := KeyOf(e, kind);
    var p := entries[..i];
    var p' := entries[..i + 1];
    assert p' == p + [e];
    var keys' := if k in m then keys else keys + [k];
    var m' := m[k := (if k in m then m[k] else []) + [e]];
    if k !in m {
      BucketOfAbsentKey(p, kind, k);
    }
    forall k2 | k2 in m'
      ensures m'[k2] == Bucket(p', kind, k2)
    {
      BucketSnoc(p, e, kind, k2);
    }
    forall j | 0 <= j < |p'|
      ensures KeyOf(p'[j], kind) in m'
    {
      if j < i {
        assert p'[j] == p[j];
      }
    }
  }

  /** Appending the groups of one map, in its key order, as `for key, files in m.items()` does. */
  ghost predicate GroupsSoFar(entries: seq<FileEntry>, state: ReviewState, groups: seq<DuplicateGroup>,
                              kind: GroupKind, m: map<string, seq<FileEntry>>, keys: seq<string>, n: nat)
    requires n <= |keys|
    requires forall k :: k in keys ==> k in m
  {
    && (forall g :: g in groups ==> IsGroupOf(entries, state, g))
    && DistinctSlots(groups)
    && (forall g :: g in groups && g.kind == kind ==> g.key in keys[..n])
    && (forall t :: 0 <= t < n && |m[keys[t]]| > 1 ==>
          exists g :: g in groups && g.kind == kind && g.key == keys[t])
  }

  lemma DistinctAppend(gs: seq<DuplicateGroup>, g: DuplicateGroup)
    requires DistinctSlots(gs)
    requires forall h :: h in gs ==> !SameSlot(g, h)
    ensures DistinctSlots(gs + [g])
  {
    forall i, j | 0 <= i < j < |gs + [g]|
      ensures !SameSlot((gs + [g])[i], (gs + [g])[j])
    {
      if j == |gs| {
        assert gs[i] in gs;
      }
    }
  }

  /** A pass of `if len(files) > 1: groups.append(build_group(...))` whose bucket holds several files. */
  lemma GroupsAppend(entries: seq<FileEntry>, state: ReviewState, groups: seq<DuplicateGroup>,
                     kind: GroupKind, m: map<string, seq<FileEntry>>, keys: seq<string>, n: nat)
    requires n < |keys|
    requires BucketsSoFar(entries, kind, m, keys)
    requires GroupsSoFar(entries, state, groups, kind, m, keys, n)
    requires |m[keys[n]]| > 1
    ensures var g := BuildGroup(kind, keys[n], m[keys[n]], state);
      && IsGroupOf(entries, state, g) && (forall h :: h in groups ==> !SameSlot(g, h))
      && GroupsSoFar(entries, state, groups + [g], kind, m, keys, n + 1)
  {
    var k := keys[n];
    var g := BuildGroup(kind, k, m[k], state);
    NewGroupFits(entries, state, groups, kind, m, keys, n);
    var groups' := groups + [g];
    DistinctAppend(groups, g);
    assert keys[..n + 1] == keys[..n] + [k];
    assert forall h :: h in groups' ==> IsGroupOf(entries, state, h);
    assert g in groups' && g.kind == kind && g.key == k;
    CoverageStep(groups, groups', kind, m, keys, n);
    GroupsExtend(entries, state, groups', kind, m, keys, n);
  }

  /** The four parts of `GroupsSoFar` for one more key. */
  lemma GroupsExtend(entries: seq<FileEntry>, state: ReviewState, groups: seq<DuplicateGroup>,
                     kind: GroupKind, m: map<string, seq<FileEntry>>, keys: seq<string>, n: nat)
    requires n < |keys| && forall k :: k in keys ==> k in m
    requires forall g :: g in groups ==> IsGroupOf(entries, state, g)
    requires DistinctSlots(groups)
    requires forall g :: g in groups && g.kind == kind ==> g.key in keys[..n] + [keys[n]]
    requires forall t :: 0 <= t < n + 1 && |m[keys[t]]| > 1 ==>
               exists g :: g in groups && g.kind == kind && g.key == keys[t]
    ensures GroupsSoFar(entries, state, groups, kind, m, keys, n + 1)
  {
    assert keys[..n + 1] == keys[..n] + [keys[n]];
  }

  /** A pass whose bucket holds at most one file adds no group. */
  lemma GroupsSkip(entries: seq<FileEntry>, state: ReviewState, groups: seq<DuplicateGroup>,
                   kind: GroupKind, m: map<string, seq<FileEntry>>, keys: seq<string>, n: nat)
    requires n < |keys|
    requires BucketsSoFar(entries, kind, m, keys)
    requires GroupsSoFar(entries, state, groups, kind, m, keys, n)
    requires |m[keys[n]]| <= 1
    ensures GroupsSoFar(entries, state, groups, kind, m, keys, n + 1)
  {
    assert keys[..n + 1] == keys[..n] + [keys[n]];
    CoverageStep(groups, groups, kind, m, keys, n);
  }

  /** The group for key `n` is a group of the scan and takes a slot no earlier group has. */
  lemma NewGroupFits(entries: seq<FileEntry>, state: ReviewState, groups: seq<DuplicateGroup>,
                     kind: GroupKind, m: map<string, seq<FileEntry>>, keys: seq<string>, n: nat)
    requires n < |keys|
    requires BucketsSoFar(entries, kind, m, keys)
    requires GroupsSoFar(entries, state, groups, kind, m, keys, n)
    requires |m[keys[n]]| > 1
    ensures IsGroupOf(entries, state, BuildGroup(kind, keys[n], m[keys[n]], state))
    ensures forall h :: h in groups ==> !SameSlot(BuildGroup(kind, keys[n], m[keys[n]], state), h)
  {
    var k := keys[n];
    var g := BuildGroup(kind, k, m[k], state);
    assert m[k] == Bucket(entries, kind, k);
    assert k !in keys[..n] by {
      assert forall a :: 0 <= a < n ==> keys[a] != keys[n];
    }
    forall h | h in groups ensures !SameSlot(g, h) {
      if h.kind == kind {
        assert h.key in keys[..n];
      }
    }
  }

  /** Coverage of the first `n` keys carries over to key `n` once its group, if any, is present. */
  lemma CoverageStep(groups: seq<DuplicateGroup>, groups': seq<DuplicateGroup>, kind: GroupKind,
                     m: map<string, seq<FileEntry>>, keys: seq<string>, n: nat)
    requires n < |keys| && forall k :: k in keys ==> k in m
    requires forall h :: h in groups ==> h in groups'
    requires forall t :: 0 <= t < n && |m[keys[t]]| > 1 ==>
               exists g :: g in groups && g.kind == kind && g.key == keys[t]
    requires |m[keys[n]]| > 1 ==> exists g :: g in groups' && g.kind == kind && g.key == keys[n]
    ensures forall t :: 0 <= t < n + 1 && |m[keys[t]]| > 1 ==>
              exists g :: g in groups' && g.kind == kind && g.key == keys[t]
  {
    forall t | 0 <= t < n + 1 && |m[keys[t]]| > 1
      ensures exists g :: g in groups' && g.kind == kind && g.key == keys[t]
    {
      if t < n {
        var h :| h in groups && h.kind == kind && h.key == keys[t];
        assert h in groups';
      }
    }
  }

  /** Appending a group of the other kind keeps what is known about this kind's groups. */
  lemma GroupsAppendOther(entries: seq<FileEntry>, state: ReviewState, groups: seq<DuplicateGroup>,
                          g: DuplicateGroup, kind: GroupKind, m: map<string, seq<FileEntry>>,
                          keys: seq<string>, n: nat)
    requires n <= |keys| && forall k :: k in keys ==> k in m
    requires GroupsSoFar(entries, state, groups, kind, m, keys, n)
    requires IsGroupOf(entries, state, g) && g.kind != kind
    requires forall h :: h in groups ==> !SameSlot(g, h)
    ensures GroupsSoFar(entries, state, groups + [g], kind, m, keys, n)
  {
    var groups' := groups + [g];
    DistinctAppend(groups, g);
    forall t | 0 <= t < n && |m[keys[t]]| > 1
      ensures exists h :: h in groups' && h.kind == kind && h.key == keys[t]
    {
      var h :| h in groups && h.kind == kind && h.key == keys[t];
      assert h in groups';
    }
  }

  /** Sorting keeps the groups, so it keeps every group the scan calls for. */
  lemma SortKeepsGroups(entries: seq<FileEntry>, state: ReviewState, built: seq<DuplicateGroup>,
                        stemMap: map<string, seq<FileEntry>>, stemKeys: seq<string>,
                        hashMap: map<string, seq<FileEntry>>, hashKeys: seq<string>)
    requires BucketsSoFar(entries, ByStem, stemMap, stemKeys)
    requires BucketsSoFar(entries, ByHash, hashMap, hashKeys)
    requires GroupsSoFar(entries, state, built, ByStem, stemMap, stemKeys, |stemKeys|)
    requires GroupsSoFar(entries, state, built, ByHash, hashMap, hashKeys, |hashKeys|)
    ensures var sorted := SortGroups(built);
      && Sorted(sorted)
      && (forall g :: g in sorted ==> IsGroupOf(entries, state, g))
      && forall i, kind :: 0 <= i < |entries| && |Bucket(entries, kind, KeyOf(entries[i], kind))| > 1 ==>
           exists g :: g in sorted && g.kind == kind && g.key == KeyOf(entries[i], kind)
  {
    var sorted := SortGroups(built);
    forall g | g in sorted ensures g in built {
      assert g in multiset(sorted);
    }
    forall i, kind | 0 <= i < |entries| && |Bucket(entries, kind, KeyOf(entries[i], kind))| > 1
      ensures exists g :: g in sorted && g.kind == kind && g.key == KeyOf(entries[i], kind)
    {
      var k := KeyOf(entries[i], kind);
      var keys := if kind == ByStem then stemKeys else hashKeys;
      var t :| 0 <= t < |keys| && keys[t] == k;
      var g :| g in built && g.kind == kind && g.key == k;
      assert g in multiset(built);
    }
  }

  /**
   * `list_duplicate_groups`, from the scanned files on: bucket them by stem
   * and by hash, keep each bucket of more than one file as a group, attach its
   * review state and sort by (type, key). A missing ingest directory gives no
   * groups.
   */
  method ListDuplicateGroups(ingestDirExists: bool, entries: seq<FileEntry>, state: ReviewState)
    returns (groups: seq<DuplicateGroup>)
    ensures !ingestDirExists ==> groups == []
    ensures forall g :: g in groups ==> IsGroupOf(entries, state, g)
    ensures ingestDirExists ==>
      forall i, kind :: 0 <= i < |entries| && |Bucket(entries, kind, KeyOf(entries[i], kind))| > 1 ==>
        exists g :: g in groups && g.kind == kind && g.key == KeyOf(entries[i], kind)
    ensures Sorted(groups)
  {
    if !ingestDirExists {
      return [];
    }
    var stemMap, stemKeys, hashMap, hashKeys := BuildBuckets(entries);
    groups := StemGroups(entries, state, stemMap, stemKeys);
    groups := AddHashGroups(entries, state, groups, stemMap, stemKeys, hashMap, hashKeys);
    SortKeepsGroups(entries, state, groups, stemMap, stemKeys, hashMap, hashKeys);
    groups := SortGroups(groups);
  }

  /** The scan loop: every entry is appended to its stem bucket and to its hash bucket. */
  method BuildBuckets(entries: seq<FileEntry>)
    returns (stemMap: map<string, seq<FileEntry>>, stemKeys: seq<string>,
             hashMap: map<string, seq<FileEntry>>, hashKeys: seq<string>)
    ensures BucketsSoFar(entries, ByStem, stemMap, stemKeys)
    ensures BucketsSoFar(entries, ByHash, hashMap, hashKeys)
  {
    stemMap, hashMap := map[], map[];
    stemKeys, hashKeys := [], [];
    for i := 0 to |entries|
      invariant BucketsSoFar(entries[..i], ByStem, stemMap, stemKeys)
      invariant BucketsSoFar(entries[..i], ByHash, hashMap, hashKeys)
    {
      var e := entries[i];
      BucketsStep(entries, i, ByStem, stemMap, stemKeys);
      BucketsStep(entries, i, ByHash, hashMap, hashKeys);
      // stem_map.setdefault(entry["stem"], []).append(entry)
      var stemFiles := if e.stem in stemMap then stemMap[e.stem] else [];
      if e.stem !in stemMap {
        stemKeys := stemKeys + [e.stem];
      }
      stemMap := stemMap[e.stem := stemFiles + [e]];
      // hash_map.setdefault(entry["hash"], []).append(entry)
      var hashFiles := if e.hash in hashMap then hashMap[e.hash] else [];
      if e.hash !in hashMap {
        hashKeys := hashKeys + [e.hash];
      }
      hashMap := hashMap[e.hash := hashFiles + [e]];
    }
    assert entries[..|entries|] == entries;
  }

  /** The first group loop: a stem group for every stem bucket with several files. */
  method StemGroups(entries: seq<FileEntry>, state: ReviewState,
                    stemMap: map<string, seq<FileEntry>>, stemKeys: seq<string>)
    returns (groups: seq<DuplicateGroup>)
    requires BucketsSoFar(entries, ByStem, stemMap, stemKeys)
    ensures GroupsSoFar(entries, state, groups, ByStem, stemMap, stemKeys, |stemKeys|)
    ensures forall g :: g in groups ==> g.kind == ByStem
  {
    groups := [];
    for j := 0 to |stemKeys|
      invariant GroupsSoFar(entries, state, groups, ByStem, stemMap, stemKeys, j)
      invariant forall g :: g in groups ==> g.kind == ByStem
    {
      var files := stemMap[stemKeys[j]];
      if |files| > 1 {
        GroupsAppend(entries, state, groups, ByStem, stemMap, stemKeys, j);
        groups := groups + [BuildGroup(ByStem, stemKeys[j], files, state)];
      } else {
        GroupsSkip(entries, state, groups, ByStem, stemMap, stemKeys, j);
      }
    }
  }

  /** The second group loop: a hash group for every hash bucket with several files. */
  method AddHashGroups(entries: seq<FileEntry>, state: ReviewState, stemGroups: seq<DuplicateGroup>,
                       stemMap: map<string, seq<FileEntry>>, stemKeys: seq<string>,
                       hashMap: map<string, seq<FileEntry>>, hashKeys: seq<string>)
    returns (groups: seq<DuplicateGroup>)
    requires BucketsSoFar(entries, ByStem, stemMap, stemKeys)
    requires BucketsSoFar(entries, ByHash, hashMap, hashKeys)
    requires GroupsSoFar(entries, state, stemGroups, ByStem, stemMap, stemKeys, |stemKeys|)
    requires forall g :: g in stemGroups ==> g.kind == ByStem
    ensures GroupsSoFar(entries, state, groups, ByHash, hashMap, hashKeys, |hashKeys|)
    ensures GroupsSoFar(entries, state, groups, ByStem, stemMap, stemKeys, |stemKeys|)
  {
    groups := stemGroups;
    for j := 0 to |hashKeys|
      invariant GroupsSoFar(entries, state, groups, ByHash, hashMap, hashKeys, j)
      invariant GroupsSoFar(entries, state, groups, ByStem, stemMap, stemKeys, |stemKeys|)
    {
      var files := hashMap[hashKeys[j]];
      if |files| > 1 {
        var g := BuildGroup(ByHash, hashKeys[j], files, state);
        GroupsAppend(entries, state, groups, ByHash, hashMap, hashKeys, j);
        GroupsAppendOther(entries, state, groups, g, ByStem, stemMap, stemKeys, |stemKeys|);
        groups := groups + [g];
      } else {
        GroupsSkip(entries, state, groups, ByHash, hashMap, hashKeys, j);
      }
    }
  }

  /** The record `set_duplicate_reviewed` stores for a group marked reviewed at time `now`. */
  function ReviewRecord(now: string): map<string, Json> {
    map["reviewed" := JBool(true), "timestamp" := JStr(now + "Z")]
  }

  /**
   * The state after `set_duplicate_reviewed(group_id, reviewed)`: marking
   * stores a fresh record, clearing removes the group; other groups keep theirs.
   */
  function ApplyReview(state: ReviewState, groupId: string, reviewed: bool, now: string)
    : (r: ReviewState)
    ensures IsReviewed(r, groupId) == reviewed
    ensures reviewed ==> groupId in r && Get(r[groupId], "timestamp") == Some(JStr(now + "Z"))
    ensures !reviewed ==> groupId !in r
    ensures forall k :: k != groupId ==> (k in r <==> k in state) && (k in r ==> r[k] == state[k])
  {
    if reviewed then state[groupId := ReviewRecord(now)] else state - {groupId}
  }

  /**
   * Marking or clearing a group changes only its `reviewed` flag and time in
   * the next listing; its files, and every other group, are as before.
   */
  lemma ReviewChangesOnlyThatGroup(entries: seq<FileEntry>, state: ReviewState, kind: GroupKind,
                                   key: string, reviewed: bool, now: string)
    ensures var after := ApplyReview(state, GroupId(kind, key), reviewed, now);
      var g := BuildGroup(kind, key, Bucket(entries, kind, key), after);
      && g.reviewed == reviewed
      && g.files == Bucket(entries, kind, key)
      && forall kind', key' :: GroupId(kind', key') != GroupId(kind, key) ==>
           BuildGroup(kind', key', Bucket(entries, kind', key'), after)
             == BuildGroup(kind', key', Bucket(entries, kind', key'), state)
  {
  }

  /** The review-state file, as the object `set_duplicate_reviewed` loads, changes and saves. */
  class ReviewStore {
    var state: ReviewState

    constructor (initial: ReviewState)
      ensures state == initial
    {
      state := initial;
    }

    /**
     * `set_duplicate_reviewed(group_id, reviewed)` at time `now`; an empty
     * `group_id` is refused with "group_id is required" before the state is touched.
     */
    method SetDuplicateReviewed(groupId: string, reviewed: bool, now: string)
      returns (error: Option<string>)
      modifies this
      ensures error.Some? <==> groupId == []
      ensures error.Some? ==> error.value == "group_id is required" && state == old(state)
      ensures error.None? ==> state == ApplyReview(old(state), groupId, reviewed, now)
    {
      if groupId == [] {
        return Some("group_id is required");
      }
      if reviewed {
        state := state[groupId := ReviewRecord(now)];
      } else {
        state := state - {groupId};
      }
      return None;
    }
  }
}

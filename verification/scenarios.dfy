/** Worked examples on small inputs: two identical files collapsed into one, two
    files that only share a CRC left alone, and a key pool renamed around a whitelist. */
module Scenarios {
  import opened Wrappers
  import opened Md5Hex
  import opened Grouping
  import opened Archive
  import opened Dedup
  import opened Pools
  import opened Cleanup

  /** Two files directly inside `res`, recorded with the same CRC, listed after
      the `res` directory itself. */
  predicate SameCrcPair(dir: FileNode, a: FileNode, b: FileNode, entries: map<string, ZipEntry>) {
    dir.isDirectory && !IsResChild(dir.path)
    && !a.isDirectory && !b.isDirectory && IsResChild(a.path) && IsResChild(b.path) && a.path != b.path
    && a.path in entries && b.path in entries && entries[a.path].crc == entries[b.path].crc
  }

  /** Listing `res` in a tree of a directory and two files under it. */
  lemma TwoListed(dir: FileNode, x: FileNode, y: FileNode)
    requires dir.isDirectory
    requires !x.isDirectory && !y.isDirectory && IsResChild(x.path) && IsResChild(y.path)
    ensures ResCandidates([dir, x, y]) == [x, y]
  {
    CandidatesCons(y, []);
    assert [y] + [] == [y];
    CandidatesCons(x, [y]);
    assert [x] + [y] == [x, y];
    CandidatesCons(dir, [x, y]);
    assert [dir] + [x, y] == [dir, x, y];
  }

  /** The key pair of a file with a zip entry. */
  lemma KeyOf(entries: map<string, ZipEntry>, digest: seq<Byte> -> seq<Byte>, f: FileNode)
    requires f.path in entries
    ensures DupKey(entries, digest)(f) == (entries[f.path].crc, BytesToHex(digest(f.content)))
  {
    assert CrcKey(entries)(f) == entries[f.path].crc;
    assert Md5Key(digest)(f) == BytesToHex(digest(f.content));
  }

  /** The files of a two-element list whose key is `k`, in order. */
  lemma SelectPair(a: FileNode, b: FileNode, key: FileNode -> (int, string), k: (int, string))
    ensures Select([a, b], key, k) == (if key(a) == k then [a] else []) + (if key(b) == k then [b] else [])
  {
    assert [a, b][..1] == [a] && [a][..0] == [];
    assert Select([a][..0], key, k) == [];
  }

  /** Every set whose members are the files of `[a, b]` sharing its retained
      file's key, when `a` and `b` share their key, is `a` kept and `b` removed. */
  lemma PairSetsAre(a: FileNode, b: FileNode, key: FileNode -> (int, string), ds: seq<DupGroup>)
    requires key(a) == key(b)
    requires forall d :: d in ds ==> Members(d) == Select([a, b], key, key(d.retained))
    ensures forall i :: 0 <= i < |ds| ==> ds[i] == DupGroup(a, [b])
  {
    SelectPair(a, b, key, key(a));
    forall i | 0 <= i < |ds| ensures ds[i] == DupGroup(a, [b]) {
      var d := ds[i];
      assert d in ds;
      assert d.retained in Members(d);
      assert Members(d) == [a, b];
    }
  }

  /** Two copies of one set do not have different keys. */
  lemma NotApart(ds: seq<DupGroup>, key: FileNode -> (int, string), g: DupGroup)
    requires |ds| >= 2
    requires forall i :: 0 <= i < |ds| ==> ds[i] == g
    ensures !Apart(ds, key)
  {
    assert key(ds[0].retained) == key(ds[1].retained);
  }

  /** Sets with pairwise different keys that are all the same set number at most one. */
  lemma AtMostOne(ds: seq<DupGroup>, key: FileNode -> (int, string), g: DupGroup)
    requires Apart(ds, key)
    requires forall i :: 0 <= i < |ds| ==> ds[i] == g
    ensures |ds| <= 1
  {
    if |ds| >= 2 {
      NotApart(ds, key, g);
      assert false;
    }
  }

  /** A successful result over `[a, b]`, where `a` and `b` share their key and some
      set exists, is the single set keeping `a` and removing `b`. */
  lemma PairResult(r: Result<seq<DupGroup>, DedupError>, a: FileNode, b: FileNode, key: FileNode -> (int, string))
    requires r.Ok? && key(a) == key(b) && |r.value| >= 1
    requires forall d :: d in r.value ==> Members(d) == Select([a, b], key, key(d.retained))
    requires Apart(r.value, key)
    ensures r == Ok([DupGroup(a, [b])])
  {
    var ds := r.value;
    PairSetsAre(a, b, key, ds);
    AtMostOne(ds, key, DupGroup(a, [b]));
    assert ds == [DupGroup(a, [b])];
  }

  /** The duplicate sets of two identical files with the same CRC. */
  lemma IdenticalPair(a: FileNode, b: FileNode, entries: map<string, ZipEntry>, digest: seq<Byte> -> seq<Byte>)
    requires a != b && a.path in entries && b.path in entries && entries[a.path].crc == entries[b.path].crc
    requires a.content == b.content
    ensures FindDuplicates([a, b], entries, digest) == Ok([DupGroup(a, [b])])
  {
    var key := DupKey(entries, digest);
    KeyOf(entries, digest, a);
    KeyOf(entries, digest, b);
    var r := FindDuplicates([a, b], entries, digest);
    assert r.Ok?;
    var d := Covering([a, b], entries, digest, a, b);
    PairResult(r, a, b, key);
  }

  /** Two files with one recorded CRC cannot collide across checksums, so both
      detectors agree on them. */
  lemma PairAgrees(a: FileNode, b: FileNode, entries: map<string, ZipEntry>, digest: seq<Byte> -> seq<Byte>, det: Detector)
    requires a.path in entries && b.path in entries && entries[a.path].crc == entries[b.path].crc
    ensures Detect(det, [a, b], entries, digest) == FindDuplicates([a, b], entries, digest)
  {
    assert CrcKey(entries)(a) == CrcKey(entries)(b);
    AsWrittenAgrees([a, b], entries, digest);
  }

  /** Two identical files under `res` form one duplicate set under either detector:
      the first listed is retained and the second removed, whatever the digest. */
  lemma IdenticalPairOneSet(dir: FileNode, a: FileNode, b: FileNode, entries: map<string, ZipEntry>,
                            digest: seq<Byte> -> seq<Byte>, det: Detector)
    requires SameCrcPair(dir, a, b, entries) && a.content == b.content
    ensures DupSets([dir, a, b], entries, digest, det) == Ok([DupGroup(a, [b])])
  {
    TwoListed(dir, a, b);
    IdenticalPair(a, b, entries, digest);
    PairAgrees(a, b, entries, digest, det);
  }

  /** A single removal applied as a run is that removal. */
  lemma ApplyOne(st: Sweep, m: Move, backup: bool)
    ensures Apply(st, [m], backup) == Step(st, m, backup)
  {
    assert [m][0] == m && [m][1..] == [];
  }

  /** The removals of the set keeping `a` and removing `b`. */
  lemma MovesOfPair(a: FileNode, b: FileNode)
    ensures Moves([DupGroup(a, [b])]) == [Move(b, a.path)]
  {
    var ms := Moves([DupGroup(a, [b])]);
    assert ms == GroupMoves(DupGroup(a, [b])) + Moves([DupGroup(a, [b])][1..]);
    assert [DupGroup(a, [b])][1..] == [];
  }

  /** A removal whose path is in the pool and whose backup name is free completes. */
  lemma StepDone(st: Sweep, m: Move, pool: seq<string>)
    requires Redirect(st.pool, m.file.path, m.retainPath) == Some(pool)
    requires FileName(m.file.path) !in st.saved
    ensures Step(st, m, true)
            == Done(Sweep(pool, RemovePaths(st.files, {m.file.path}), st.saved + {FileName(m.file.path)}, st.delSize + Size(m.file)))
  {
  }

  /** The pool `[p, a, b]` with `b`'s slot redirected to `a`. */
  lemma RedirectThird(p: string, a: string, b: string)
    requires p != b && a != b
    ensures Redirect([p, a, b], b, a) == Some([p, a, a])
  {
    var pool := [p, a, b];
    var r := Redirect(pool, b, a);
    assert pool[..2] == [p, a];
    assert FirstAt(pool, 2);
    assert r.value[0] == p && r.value[1] == a && r.value[2] == a;
    assert r.value == [p, a, a];
  }

  /** `b` taken out of the tree `[dir, a, b]`. */
  lemma RemoveThird(dir: FileNode, a: FileNode, b: FileNode)
    requires dir.path != b.path && a.path != b.path
    ensures RemovePaths([dir, a, b], {b.path}) == [dir, a]
  {
    RemoveCons(dir, [a, b], {b.path});
    RemoveCons(a, [b], {b.path});
    RemoveCons(b, [], {b.path});
    assert [dir] + [a, b] == [dir, a, b] && [a] + [b] == [a, b] && [b] + [] == [b];
  }

  /** A pass over a tree with one duplicate set is the removals of that set. */
  lemma PassIsRemove(pool: seq<string>, t: Tree, entries: map<string, ZipEntry>,
                     digest: seq<Byte> -> seq<Byte>, det: Detector, g: DupGroup)
    requires DupSets(t.files, entries, digest, det) == Ok([g])
    ensures DedupPool(pool, t, entries, digest, det, true, true) == Remove(pool, t, [g], true)
  {
  }

  /** The removals of a set that removes one file, when that file's path is in the
      pool and its backup name is free. */
  lemma RemoveOneMove(pool: seq<string>, t: Tree, g: DupGroup, m: Move, pool1: seq<string>)
    requires Moves([g]) == [m]
    requires Redirect(pool, m.file.path, m.retainPath) == Some(pool1)
    requires FileName(m.file.path) !in t.saved
    ensures Remove(pool, t, [g], true)
            == PoolDone(pool1, Tree(RemovePaths(t.files, {m.file.path}), t.saved + {FileName(m.file.path)},
                                    t.delSize + Size(m.file)))
  {
    var st := Sweep(pool, t.files, t.saved, t.delSize);
    ApplyOne(st, m, true);
    StepDone(st, m, pool1);
  }

  /** Removing `b` in favour of `a` from the pool `[p, a, b]` and the tree `[dir, a, b]`. */
  lemma RemovePair(dir: FileNode, a: FileNode, b: FileNode, p: string)
    requires p != b.path && dir.path != b.path && a.path != b.path
    ensures Remove([p, a.path, b.path], Tree([dir, a, b], {}, 0), [DupGroup(a, [b])], true)
            == PoolDone([p, a.path, a.path], Tree([dir, a], {FileName(b.path)}, Size(b)))
  {
    MovesOfPair(a, b);
    RedirectThird(p, a.path, b.path);
    RemoveThird(dir, a, b);
    RemoveOneMove([p, a.path, b.path], Tree([dir, a, b], {}, 0), DupGroup(a, [b]), Move(b, a.path), [p, a.path, a.path]);
    assert {} + {FileName(b.path)} == {FileName(b.path)};
  }

  /** The pass over that tree with the pool `[p, a, b]`: the slot of `b` now names
      `a`, `b` is deleted and backed up under its file name, and `delSize` grows by
      the size of `b`. */
  lemma IdenticalPairPass(dir: FileNode, a: FileNode, b: FileNode, entries: map<string, ZipEntry>,
                          digest: seq<Byte> -> seq<Byte>, det: Detector, p: string)
    requires SameCrcPair(dir, a, b, entries) && a.content == b.content
    requires p != b.path && dir.path != b.path
    ensures DedupPool([p, a.path, b.path], Tree([dir, a, b], {}, 0), entries, digest, det, true, true)
            == PoolDone([p, a.path, a.path], Tree([dir, a], {FileName(b.path)}, Size(b)))
  {
    IdenticalPairOneSet(dir, a, b, entries, digest, det);
    PassIsRemove([p, a.path, b.path], Tree([dir, a, b], {}, 0), entries, digest, det, DupGroup(a, [b]));
    RemovePair(dir, a, b, p);
  }

  /** A successful result over `[a, b]`, where `a` and `b` have different keys,
      holds no set: each key selects one file, and a set has at least two. */
  lemma NoPairResult(r: Result<seq<DupGroup>, DedupError>, a: FileNode, b: FileNode, key: FileNode -> (int, string))
    requires r.Ok? && key(a) != key(b)
    requires forall d :: d in r.value ==> |d.removed| >= 1 && Members(d) == Select([a, b], key, key(d.retained))
    ensures r.value == []
  {
    if r.value != [] {
      var d := r.value[0];
      assert d in r.value;
      assert d.retained in Members(d);
      SelectPair(a, b, key, key(d.retained));
      assert false;
    }
  }

  /** Two files under `res` with the same CRC but digests that differ are never
      merged, under either detector. */
  lemma SameCrcDifferentDigest(dir: FileNode, a: FileNode, b: FileNode, entries: map<string, ZipEntry>,
                               digest: seq<Byte> -> seq<Byte>, det: Detector)
    requires SameCrcPair(dir, a, b, entries) && digest(a.content) != digest(b.content)
    ensures DupSets([dir, a, b], entries, digest, det) == Ok([])
  {
    PairAgrees(a, b, entries, digest, det);
    TwoListed(dir, a, b);
    HexInjective(digest(a.content), digest(b.content));
    KeyOf(entries, digest, a);
    KeyOf(entries, digest, b);
    var r := FindDuplicates([a, b], entries, digest);
    assert r.Ok?;
    NoPairResult(r, a, b, DupKey(entries, digest));
  }

  /** The `res` directory of the collision tree. */
  const resDir := FileNode("res", true, [])

  /** The collision tree: `res`, then two files of CRC 1 and two of CRC 2. */
  function CollisionTree(): seq<FileNode> {
    [resDir, fileA, fileA2, fileB, fileB2]
  }

  /** Listing `res` in a tree of a directory and four files under it. */
  lemma FourListed(dir: FileNode, a: FileNode, a2: FileNode, b: FileNode, b2: FileNode)
    requires dir.isDirectory && Listed(a) && Listed(a2) && Listed(b) && Listed(b2)
    ensures ResCandidates([dir, a, a2, b, b2]) == [a, a2, b, b2]
  {
    Regroup5(dir, a, a2, b, b2);
    ListedPrefix(b, b2, []);
    ListedPrefix(a, a2, [b, b2] + []);
    CandidatesCons(dir, [a, a2] + ([b, b2] + []));
  }

  /** The same five-element sequence, built up from pairs. */
  lemma Regroup5<T>(d: T, a: T, a2: T, b: T, b2: T)
    ensures [d, a, a2, b, b2] == [d] + ([a, a2] + ([b, b2] + []))
    ensures [a, a2, b, b2] == [a, a2] + ([b, b2] + [])
  {
  }

  /** Two listed files in front of a listing are kept in front of it. */
  lemma ListedPrefix(a: FileNode, a2: FileNode, xs: seq<FileNode>)
    requires Listed(a) && Listed(a2)
    ensures ResCandidates([a, a2] + xs) == [a, a2] + ResCandidates(xs)
  {
    CandidatesCons(a2, xs);
    CandidatesCons(a, [a2] + xs);
    assert [a] + ([a2] + xs) == [a, a2] + xs;
  }

  /** The four files of the collision tree are direct children of `res`. */
  lemma CollisionFilesListed()
    ensures Listed(fileA) && Listed(fileA2) && Listed(fileB) && Listed(fileB2)
  {
  }

  /** The five nodes of the collision tree have different paths. */
  lemma CollisionUnique()
    ensures UniquePaths(CollisionTree())
  {
  }

  /** The recorded CRCs of the collision tree's files. */
  lemma CollisionCrcs()
    ensures CrcKey(CollisionEntries())(fileA) == CrcKey(CollisionEntries())(fileA2) == 1
    ensures CrcKey(CollisionEntries())(fileB) == CrcKey(CollisionEntries())(fileB2) == 2
  {
  }

  /** A file listed once, at position `i`, after files of other keys only, has
      no earlier file with its key. */
  lemma FirstOfKey<K>(xs: seq<FileNode>, key: FileNode -> K, f: FileNode, i: nat)
    requires i < |xs| && xs[i] == f
    requires forall j :: 0 <= j < |xs| && j != i ==> xs[j] != f
    requires forall j :: 0 <= j < i ==> key(xs[j]) != key(f)
    ensures !HasEarlier(xs, key, f)
  {
  }

  /** The files of two CRC pairs whose first members collide in MD5: `a` and
      `a2` share one recorded CRC, `b` and `b2` another. */
  predicate CrossedPairs(t: Tree, entries: map<string, ZipEntry>, digest: seq<Byte> -> seq<Byte>,
                         dir: FileNode, a: FileNode, a2: FileNode, b: FileNode, b2: FileNode) {
    t.files == [dir, a, a2, b, b2] && UniquePaths(t.files)
    && dir.isDirectory && Listed(a) && Listed(a2) && Listed(b) && Listed(b2)
    && CrcKey(entries)(a) == CrcKey(entries)(a2) && CrcKey(entries)(b) == CrcKey(entries)(b2)
    && CrcKey(entries)(a) != CrcKey(entries)(b)
    && Md5Key(digest)(a) == Md5Key(digest)(b)
  }

  /** The five nodes of a tree with unique paths are five different nodes. */
  lemma FiveApart(files: seq<FileNode>)
    requires |files| == 5 && UniquePaths(files)
    ensures files[1] != files[2] && files[1] != files[3] && files[1] != files[4]
    ensures files[3] != files[2] && files[3] != files[4]
  {
    assert files[1].path != files[2].path && files[1].path != files[3].path && files[1].path != files[4].path;
    assert files[3].path != files[2].path && files[3].path != files[4].path;
  }

  /** As written, `a` or `b` comes after an earlier file of its MD5 among the
      flattened CRC groups: both survive the CRC step, having partners. */
  lemma CrossedEarlierAsWritten(entries: map<string, ZipEntry>, digest: seq<Byte> -> seq<Byte>,
                                a: FileNode, a2: FileNode, b: FileNode, b2: FileNode)
    requires a != a2 && a != b && b != b2
    requires CrcKey(entries)(a) == CrcKey(entries)(a2) && CrcKey(entries)(b) == CrcKey(entries)(b2)
    requires Md5Key(digest)(a) == Md5Key(digest)(b)
    ensures var xs := Regrouped(AsWritten, [a, a2, b, b2], entries);
            var key := SetKey(AsWritten, entries, digest);
            HasEarlier(xs, key, a) || HasEarlier(xs, key, b)
  {
    var cands := [a, a2, b, b2];
    var crc := CrcKey(entries);
    PartnersRepeated(cands, crc, a, a2);
    PartnersRepeated(cands, crc, b, b2);
    TwoOfKey(Regrouped(AsWritten, cands, entries), SetKey(AsWritten, entries, digest), a, b);
  }

  /** Of two different files with one key, the later comes after an earlier file with its key. */
  lemma TwoOfKey<K>(xs: seq<FileNode>, key: FileNode -> K, a: FileNode, b: FileNode)
    requires a in xs && b in xs && a != b && key(a) == key(b)
    ensures HasEarlier(xs, key, a) || HasEarlier(xs, key, b)
  {
    var ia :| 0 <= ia < |xs| && xs[ia] == a;
    var ib :| 0 <= ib < |xs| && xs[ib] == b;
    if ia < ib {
      assert HasEarlier(xs, key, b);
    } else {
      assert HasEarlier(xs, key, a);
    }
  }

  /** Corrected, neither `a` nor `b` has an earlier file with its pair of keys. */
  lemma CrossedFirstCorrected(entries: map<string, ZipEntry>, digest: seq<Byte> -> seq<Byte>,
                              a: FileNode, a2: FileNode, b: FileNode, b2: FileNode)
    requires a != a2 && a != b && a != b2 && b != a2 && b != b2
    requires CrcKey(entries)(a) == CrcKey(entries)(a2) && CrcKey(entries)(a) != CrcKey(entries)(b)
    ensures var xs := Regrouped(Corrected, [a, a2, b, b2], entries);
            var key := SetKey(Corrected, entries, digest);
            !HasEarlier(xs, key, a) && !HasEarlier(xs, key, b)
  {
    var key := SetKey(Corrected, entries, digest);
    FirstOfKey([a, a2, b, b2], key, a, 0);
    FirstOfKey([a, a2, b, b2], key, b, 2);
  }

  /** As written, a completed pass over crossed pairs deletes `a` or `b`. */
  lemma CrossedPassAsWritten(pool: seq<string>, t: Tree, entries: map<string, ZipEntry>, digest: seq<Byte> -> seq<Byte>,
                             backup: bool, dir: FileNode, a: FileNode, a2: FileNode, b: FileNode, b2: FileNode)
    requires CrossedPairs(t, entries, digest, dir, a, a2, b, b2)
    ensures var r := DedupPool(pool, t, entries, digest, AsWritten, true, backup);
            r.PoolDone? ==> a !in r.tree.files || b !in r.tree.files
  {
    if DedupPool(pool, t, entries, digest, AsWritten, true, backup).PoolDone? {
      FiveApart(t.files);
      FourListed(dir, a, a2, b, b2);
      CrossedEarlierAsWritten(entries, digest, a, a2, b, b2);
      DedupDeletesLater(pool, t, entries, digest, AsWritten, true, backup, a);
      DedupDeletesLater(pool, t, entries, digest, AsWritten, true, backup, b);
    }
  }

  /** Corrected, a completed pass over crossed pairs keeps both `a` and `b`. */
  lemma CrossedPassCorrected(pool: seq<string>, t: Tree, entries: map<string, ZipEntry>, digest: seq<Byte> -> seq<Byte>,
                             backup: bool, dir: FileNode, a: FileNode, a2: FileNode, b: FileNode, b2: FileNode)
    requires CrossedPairs(t, entries, digest, dir, a, a2, b, b2)
    ensures var r := DedupPool(pool, t, entries, digest, Corrected, true, backup);
            r.PoolDone? ==> a in r.tree.files && b in r.tree.files
  {
    if DedupPool(pool, t, entries, digest, Corrected, true, backup).PoolDone? {
      FiveApart(t.files);
      FourListed(dir, a, a2, b, b2);
      CrossedFirstCorrected(entries, digest, a, a2, b, b2);
      DedupDeletesLater(pool, t, entries, digest, Corrected, true, backup, a);
      DedupDeletesLater(pool, t, entries, digest, Corrected, true, backup, b);
    }
  }

  /** The collision tree holds crossed pairs under the colliding digest. */
  lemma CollisionCrossed(saved: set<string>)
    ensures CrossedPairs(Tree(CollisionTree(), saved, 0), CollisionEntries(), CollidingDigest(),
                         resDir, fileA, fileA2, fileB, fileB2)
  {
    CollisionFilesListed();
    CollisionUnique();
    CollisionCrcs();
  }

  /** On the collision tree, a completed pass as written deletes `res/a.png` or
      `res/b.png`, although their bytes and recorded CRCs differ, while the
      corrected pass keeps both. */
  lemma CollisionPass(pool: seq<string>, saved: set<string>, backup: bool)
    ensures var r := DedupPool(pool, Tree(CollisionTree(), saved, 0), CollisionEntries(), CollidingDigest(), AsWritten, true, backup);
            r.PoolDone? ==> fileA !in r.tree.files || fileB !in r.tree.files
    ensures var r := DedupPool(pool, Tree(CollisionTree(), saved, 0), CollisionEntries(), CollidingDigest(), Corrected, true, backup);
            r.PoolDone? ==> fileA in r.tree.files && fileB in r.tree.files
    ensures fileA.content != fileB.content
  {
    CollisionCrossed(saved);
    CrossedPassAsWritten(pool, Tree(CollisionTree(), saved, 0), CollisionEntries(), CollidingDigest(), backup,
                         resDir, fileA, fileA2, fileB, fileB2);
    CrossedPassCorrected(pool, Tree(CollisionTree(), saved, 0), CollisionEntries(), CollidingDigest(), backup,
                         resDir, fileA, fileA2, fileB, fileB2);
  }

  /** A full-match stand-in for the pattern `app_.*`: the key starts with `app_`. */
  predicate PrefixMatch(prefix: string, key: string) {
    |prefix| <= |key| && key[..|prefix|] == prefix
  }

  /** With the whitelist `app_.*` and the placeholder `opt`, only `app_name` keeps its name. */
  lemma WhitelistRenaming()
    ensures RenameKeys(["ic_launcher", "btn_submit", "app_name"], ["app_"], PrefixMatch, "opt")
            == ["opt", "opt", "app_name"]
  {
    var keys := ["ic_launcher", "btn_submit", "app_name"];
    var r := RenameKeys(keys, ["app_"], PrefixMatch, "opt");
    assert "ic_launcher"[..4] == "ic_l" && "btn_submit"[..4] == "btn_" && "app_name"[..4] == "app_";
    assert !Whitelisted(keys[0], ["app_"], PrefixMatch);
    assert !Whitelisted(keys[1], ["app_"], PrefixMatch);
    assert PrefixMatch(["app_"][0], keys[2]);
  }
}

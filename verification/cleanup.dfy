/** The dedup pass over one table chunk: list the files of `res`, find the
    duplicate sets, and delete every removed file after pointing its string-pool
    slot at the retained file. */
module Cleanup {
  import opened Wrappers
  import opened Md5Hex
  import opened Grouping
  import opened Archive
  import opened Dedup
  import opened Pools

  /** Why a run of the engine stops; `ResourcesOptTask` catches every one of these. */
  datatype Failure =
    | NoArchive                 // no `.ap_` file where the old plugin looks for one
    | MissingFile(name: string) // `listFilesFirst` found no `resources.arsc` or `res`
    | MalformedTable            // the resources.arsc codec rejected the bytes
    | BadPattern(pattern: string) // `toRegex` rejected a whitelist pattern
    | NotADirectory             // `res` is a file, so listing it gives null
    | NoEntry(path: string)     // `unZipEntryMap[path]!!` on a path extraction did not record
    | Interrupted(halt: Halt)   // a removal stopped, see `Halt`

  /** The failures the dedup pass itself can raise, once the run has its inputs. */
  predicate PassFailure(f: Failure) {
    f.NotADirectory? || f.NoEntry? || f.Interrupted?
  }

  /** The extracted tree between chunks: its files, the names already copied to
      the backup directory, and `delSize`. */
  datatype Tree = Tree(files: seq<FileNode>, saved: set<string>, delSize: nat)

  /** The result of the dedup pass over one chunk's string pool. */
  datatype PoolPass = PoolDone(pool: seq<string>, tree: Tree) | PoolStopped(reason: Failure, delSize: nat)

  /** The duplicate sets the chosen detector finds among the files listed in `res`:
      it stops exactly when a listed file has no recorded entry, and every set is
      listed files, at least one of them to remove. */
  function DupSets(files: seq<FileNode>, entries: map<string, ZipEntry>, digest: seq<Byte> -> seq<Byte>, det: Detector)
    : (r: Result<seq<DupGroup>, DedupError>)
    ensures r.Err? <==> exists f :: f in files && Listed(f) && f.path !in entries
    ensures r.Ok? ==> forall d :: d in r.value ==>
              |d.removed| >= 1 && forall f :: f in Members(d) ==> f in files && Listed(f)
  {
    Detect(det, ResCandidates(files), entries, digest)
  }

  /** The dedup pass: the duplicate sets of `res`, then every removal applied to the
      pool and the tree; `backup` copies each removed file aside first. */
  function DedupPool(pool: seq<string>, t: Tree, entries: map<string, ZipEntry>, digest: seq<Byte> -> seq<Byte>, det: Detector,
                     resIsDir: bool, backup: bool): (r: PoolPass)
    ensures !resIsDir ==> r == PoolStopped(NotADirectory, t.delSize)
    ensures r.PoolStopped? ==> r.delSize >= t.delSize && PassFailure(r.reason)
    ensures r.PoolDone? ==> |r.pool| == |pool| && r.tree.delSize >= t.delSize
  {
    if !resIsDir then PoolStopped(NotADirectory, t.delSize)
    else
      match DupSets(t.files, entries, digest, det)
      case Err(e) => PoolStopped(NoEntry(e.path), t.delSize)
      case Ok(ds) => Remove(pool, t, ds, backup)
  }

  /** Every removal of the duplicate sets applied to the pool and the tree. */
  function Remove(pool: seq<string>, t: Tree, ds: seq<DupGroup>, backup: bool): (r: PoolPass)
    ensures r.PoolStopped? ==> r.delSize >= t.delSize && r.reason.Interrupted?
    ensures r.PoolDone? ==> |r.pool| == |pool| && r.tree.delSize >= t.delSize
  {
    match Apply(Sweep(pool, t.files, t.saved, t.delSize), Moves(ds), backup)
    case Halted(h, s) => PoolStopped(Interrupted(h), s.delSize)
    case Done(s) => PoolDone(s.pool, Tree(s.files, s.saved, s.delSize))
  }

  /** Paths identify files in a tree with unique paths. */
  lemma SamePath(files: seq<FileNode>, f: FileNode, g: FileNode)
    requires UniquePaths(files) && f in files && g in files && f.path == g.path
    ensures f == g
  {
    var i :| 0 <= i < |files| && files[i] == f;
    var j :| 0 <= j < |files| && files[j] == g;
    assert i == j;
  }

  /** A tree with unique paths holds no file twice. */
  lemma UniqueDistinct(files: seq<FileNode>)
    requires UniquePaths(files)
    ensures Distinct(files)
  {
  }

  /** The facts about the duplicate sets of a candidate list that the removals rely on. */
  predicate WellFormedSets(cands: seq<FileNode>, key: FileNode -> (int, string), ds: seq<DupGroup>) {
    (forall d :: d in ds ==> Distinct(Members(d)) && forall f :: f in Members(d) ==> f in cands && key(f) == key(d.retained))
    && Apart(ds, key)
  }

  /** The duplicate sets found among files with unique paths hold no file twice,
      only candidates, only files with the retained file's key, and no two share a key. */
  lemma DupSetsWellFormed(cands: seq<FileNode>, entries: map<string, ZipEntry>, digest: seq<Byte> -> seq<Byte>,
                          det: Detector)
    requires UniquePaths(cands)
    requires Detect(det, cands, entries, digest).Ok?
    ensures WellFormedSets(cands, SetKey(det, entries, digest), Detect(det, cands, entries, digest).value)
  {
    UniqueDistinct(cands);
    match det
    case Corrected => CorrectedWellFormed(cands, entries, digest);
    case AsWritten => AsWrittenWellFormed(cands, entries, digest);
  }

  /** The corrected detector's sets are well formed under the pair of keys. */
  lemma CorrectedWellFormed(cands: seq<FileNode>, entries: map<string, ZipEntry>, digest: seq<Byte> -> seq<Byte>)
    requires Distinct(cands)
    requires FindDuplicates(cands, entries, digest).Ok?
    ensures WellFormedSets(cands, DupKey(entries, digest), FindDuplicates(cands, entries, digest).value)
  {
    var key := DupKey(entries, digest);
    var ds := FindDuplicates(cands, entries, digest).value;
    forall d | d in ds
      ensures Distinct(Members(d)) && forall f :: f in Members(d) ==> f in cands && key(f) == key(d.retained)
    {
      SelectDistinct(cands, key, key(d.retained));
    }
  }

  /** The sets of the chain as written are well formed under the MD5 string alone. */
  lemma AsWrittenWellFormed(cands: seq<FileNode>, entries: map<string, ZipEntry>, digest: seq<Byte> -> seq<Byte>)
    requires Distinct(cands)
    requires FindDuplicatesAsWritten(cands, entries, digest).Ok?
    ensures WellFormedSets(cands, SetKey(AsWritten, entries, digest), FindDuplicatesAsWritten(cands, entries, digest).value)
  {
    var key := SetKey(AsWritten, entries, digest);
    var md5 := Md5Key(digest);
    var ds := FindDuplicatesAsWritten(cands, entries, digest).value;
    var flat := CrcRepeated(cands, CrcKey(entries));
    CrcRepeatedDistinct(cands, CrcKey(entries));
    forall d | d in ds
      ensures Distinct(Members(d)) && forall f :: f in Members(d) ==> f in cands && key(f) == key(d.retained)
    {
      SelectDistinct(flat, md5, md5(d.retained));
    }
    forall i, j | 0 <= i < j < |ds| ensures key(ds[i].retained) != key(ds[j].retained) {
      assert md5(ds[i].retained) != md5(ds[j].retained);
    }
  }

  /** Two different sets of a well-formed list hold different keys. */
  lemma SetsApart(ds: seq<DupGroup>, key: FileNode -> (int, string), d: DupGroup, e: DupGroup)
    requires Apart(ds, key) && d in ds && e in ds && d != e
    ensures key(d.retained) != key(e.retained)
  {
    var i :| 0 <= i < |ds| && ds[i] == d;
    var j :| 0 <= j < |ds| && ds[j] == e;
    if i < j {
      assert key(ds[i].retained) != key(ds[j].retained);
    } else {
      assert key(ds[j].retained) != key(ds[i].retained);
    }
  }

  /** Dropping the first set of a well-formed list leaves a well-formed list. */
  lemma WellFormedTail(cands: seq<FileNode>, key: FileNode -> (int, string), ds: seq<DupGroup>)
    requires |ds| > 0 && WellFormedSets(cands, key, ds)
    ensures WellFormedSets(cands, key, ds[1..])
  {
    var tail := ds[1..];
    forall i, j | 0 <= i < j < |tail| ensures key(tail[i].retained) != key(tail[j].retained) {
      assert tail[i] == ds[i + 1] && tail[j] == ds[j + 1];
    }
    forall d | d in tail ensures d in ds {
    }
  }

  /** The files the later sets remove do not have the first set's keys. */
  lemma TailKeysDiffer(cands: seq<FileNode>, key: FileNode -> (int, string), ds: seq<DupGroup>)
    requires |ds| > 0 && WellFormedSets(cands, key, ds)
    ensures forall m :: m in Moves(ds[1..]) ==> key(m.file) != key(ds[0].retained)
  {
    var tail := ds[1..];
    forall m | m in Moves(tail) ensures key(m.file) != key(ds[0].retained) {
      var e :| e in tail && m.file in e.removed && m.retainPath == e.retained.path;
      var k :| 0 <= k < |tail| && tail[k] == e;
      assert ds[k + 1] == e && e in ds;
      assert m.file in Members(e);
      assert key(ds[0].retained) != key(ds[k + 1].retained);
    }
  }

  /** The removals of one set delete its removed files, which are distinct. */
  lemma HeadDistinct(d: DupGroup)
    requires Distinct(Members(d))
    ensures forall i, j :: 0 <= i < j < |GroupMoves(d)| ==> GroupMoves(d)[i].file != GroupMoves(d)[j].file
  {
    var head := GroupMoves(d);
    forall i, j | 0 <= i < j < |head| ensures head[i].file != head[j].file {
      assert Members(d)[i + 1] == head[i].file && Members(d)[j + 1] == head[j].file;
    }
  }

  /** The removals of well-formed sets never delete a file twice. */
  lemma {:induction false} MovesDistinctFiles(cands: seq<FileNode>, key: FileNode -> (int, string), ds: seq<DupGroup>)
    requires WellFormedSets(cands, key, ds)
    ensures forall i, j :: 0 <= i < j < |Moves(ds)| ==> Moves(ds)[i].file != Moves(ds)[j].file
  {
    if |ds| > 0 {
      var d0 := ds[0];
      assert d0 in ds;
      var head := GroupMoves(d0);
      var rest := Moves(ds[1..]);
      WellFormedTail(cands, key, ds);
      MovesDistinctFiles(cands, key, ds[1..]);
      TailKeysDiffer(cands, key, ds);
      HeadDistinct(d0);
      var ms := head + rest;
      assert Moves(ds) == ms;
      forall i, j | 0 <= i < j < |ms| ensures ms[i].file != ms[j].file {
        if j < |head| {
          assert ms[i] == head[i] && ms[j] == head[j];
        } else if i >= |head| {
          assert ms[i] == rest[i - |head|] && ms[j] == rest[j - |head|];
        } else {
          assert ms[i].file == d0.removed[i] && ms[i].file in Members(d0);
          assert ms[j] == rest[j - |head|] && ms[j] in rest;
        }
      }
    }
  }

  /** The removals of well-formed sets over files with unique paths delete every
      path once, keep every retained path, and delete only candidates. */
  lemma MovesWellFormed(cands: seq<FileNode>, key: FileNode -> (int, string), ds: seq<DupGroup>)
    requires UniquePaths(cands)
    requires WellFormedSets(cands, key, ds)
    ensures DistinctPaths(Moves(ds)) && RetainedKept(Moves(ds))
    ensures forall m :: m in Moves(ds) ==> m.file in cands
  {
    var ms := Moves(ds);
    forall m | m in ms ensures m.file in cands {
      var d :| d in ds && m.file in d.removed && m.retainPath == d.retained.path;
      assert m.file in Members(d);
    }
    MovesDistinctFiles(cands, key, ds);
    forall i, j | 0 <= i < j < |ms| ensures ms[i].file.path != ms[j].file.path {
      assert ms[i] in ms && ms[j] in ms;
      if ms[i].file.path == ms[j].file.path {
        SamePath(cands, ms[i].file, ms[j].file);
      }
    }
    RetainedNotRemoved(cands, key, ds);
  }

  /** The retained file of one well-formed set and a removed file of another (or
      the same) set have different paths. */
  lemma RetainedPathNotRemoved(cands: seq<FileNode>, key: FileNode -> (int, string), ds: seq<DupGroup>,
                               d: DupGroup, e: DupGroup, f: FileNode)
    requires UniquePaths(cands)
    requires WellFormedSets(cands, key, ds)
    requires d in ds && e in ds && f in e.removed
    ensures d.retained.path != f.path
  {
    assert d.retained in Members(d) && f in Members(e);
    assert d.retained != f by {
      if d == e {
        RetainedNotMember(d, f);
      } else {
        SetsApart(ds, key, d, e);
      }
    }
    if d.retained.path == f.path {
      SamePath(cands, d.retained, f);
    }
  }

  /** No removal of well-formed sets deletes the path of a retained file. */
  lemma RetainedNotRemoved(cands: seq<FileNode>, key: FileNode -> (int, string), ds: seq<DupGroup>)
    requires UniquePaths(cands)
    requires WellFormedSets(cands, key, ds)
    ensures RetainedKept(Moves(ds))
  {
    var ms := Moves(ds);
    forall m, n | m in ms && n in ms ensures m.retainPath != n.file.path {
      var d :| d in ds && m.file in d.removed && m.retainPath == d.retained.path;
      var e :| e in ds && n.file in e.removed && n.retainPath == e.retained.path;
      RetainedPathNotRemoved(cands, key, ds, d, e, n.file);
    }
  }

  /** The first removal deleting a path points that path's slot to its retained path. */
  lemma {:induction false} TargetOf(ms: seq<Move>, m: Move)
    requires DistinctPaths(ms) && m in ms
    ensures Target(ms, m.file.path) == m.retainPath
  {
    if ms[0] != m {
      MovesTail(ms);
      assert ms[0].file.path != m.file.path by {
        var k :| 0 <= k < |ms| && ms[k] == m;
        assert k != 0;
      }
      TargetOf(ms[1..], m);
    }
  }

  /** What the pass knows once it has the duplicate sets of a tree with unique paths. */
  lemma PassFacts(t: Tree, entries: map<string, ZipEntry>, digest: seq<Byte> -> seq<Byte>, det: Detector)
    requires UniquePaths(t.files)
    requires DupSets(t.files, entries, digest, det).Ok?
    ensures var ds := DupSets(t.files, entries, digest, det).value;
            WellFormedSets(ResCandidates(t.files), SetKey(det, entries, digest), ds)
            && DistinctPaths(Moves(ds)) && RetainedKept(Moves(ds))
            && forall m :: m in Moves(ds) ==> m.file in ResCandidates(t.files) && m.file in t.files
  {
    var cands := ResCandidates(t.files);
    CandidatesUnique(t.files);
    DupSetsWellFormed(cands, entries, digest, det);
    MovesWellFormed(cands, SetKey(det, entries, digest), DupSets(t.files, entries, digest, det).value);
  }

  /** The pass moves bytes from the tree to `delSize` and loses none. */
  lemma DedupConserves(pool: seq<string>, t: Tree, entries: map<string, ZipEntry>, digest: seq<Byte> -> seq<Byte>, det: Detector,
                       resIsDir: bool, backup: bool)
    requires UniquePaths(t.files)
    ensures var r := DedupPool(pool, t, entries, digest, det, resIsDir, backup);
            r.PoolDone? ==> TreeSize(r.tree.files) + r.tree.delSize == TreeSize(t.files) + t.delSize
                            && UniquePaths(r.tree.files)
  {
    if resIsDir && DupSets(t.files, entries, digest, det).Ok? {
      var ds := DupSets(t.files, entries, digest, det).value;
      PassFacts(t, entries, digest, det);
      ApplyConserves(Sweep(pool, t.files, t.saved, t.delSize), Moves(ds), backup);
      RemoveKeepsUnique(t.files, Deleted(Moves(ds)));
    }
  }

  /** A completed pass leaves the reference pool: the first slot of every deleted
      path holds the path of the file retained in its place; no other slot changes. */
  lemma DedupRedirects(pool: seq<string>, t: Tree, entries: map<string, ZipEntry>, digest: seq<Byte> -> seq<Byte>, det: Detector,
                       resIsDir: bool, backup: bool)
    requires UniquePaths(t.files)
    ensures var r := DedupPool(pool, t, entries, digest, det, resIsDir, backup);
            r.PoolDone? ==> DupSets(t.files, entries, digest, det).Ok?
                            && r.pool == Redirected(pool, Moves(DupSets(t.files, entries, digest, det).value))
  {
    if resIsDir && DupSets(t.files, entries, digest, det).Ok? {
      var ds := DupSets(t.files, entries, digest, det).value;
      PassFacts(t, entries, digest, det);
      ApplyRedirects(Sweep(pool, t.files, t.saved, t.delSize), Moves(ds), backup);
    }
  }

  /** A retained path no removal deletes is not among the deleted paths. */
  lemma KeptNotDeleted(ms: seq<Move>, m: Move)
    requires RetainedKept(ms) && m in ms
    ensures m.retainPath !in Deleted(ms)
  {
    forall n | n in ms ensures n.file.path != m.retainPath {
    }
  }

  /** A file some removal deletes has a twin: the retained file of its set, which
      no removal deletes, which has its keys, and which is the path's target. */
  lemma Twin(files: seq<FileNode>, cands: seq<FileNode>, key: FileNode -> (int, string), ds: seq<DupGroup>, f: FileNode)
    returns (g: FileNode)
    requires UniquePaths(files) && forall c :: c in cands ==> c in files
    requires WellFormedSets(cands, key, ds) && DistinctPaths(Moves(ds)) && RetainedKept(Moves(ds))
    requires f in files && f.path in Deleted(Moves(ds))
    ensures f in cands && g in RemovePaths(files, Deleted(Moves(ds))) && g != f && key(g) == key(f)
    ensures Target(Moves(ds), f.path) == g.path
  {
    var ms := Moves(ds);
    var m :| m in ms && m.file.path == f.path;
    var d :| d in ds && m.file in d.removed && m.retainPath == d.retained.path;
    assert m.file in Members(d);
    SamePath(files, m.file, f);
    g := d.retained;
    assert g in Members(d);
    RetainedNotMember(d, f);
    KeptNotDeleted(ms, m);
    TargetOf(ms, m);
  }

  /** What a completed pass did: it found the duplicate sets and applied all their removals. */
  lemma DedupPoolDone(pool: seq<string>, t: Tree, entries: map<string, ZipEntry>, digest: seq<Byte> -> seq<Byte>, det: Detector,
                      resIsDir: bool, backup: bool)
    requires DedupPool(pool, t, entries, digest, det, resIsDir, backup).PoolDone?
    ensures resIsDir && DupSets(t.files, entries, digest, det).Ok?
    ensures var r := DedupPool(pool, t, entries, digest, det, resIsDir, backup);
            Apply(Sweep(pool, t.files, t.saved, t.delSize), Moves(DupSets(t.files, entries, digest, det).value), backup)
            == Done(Sweep(r.pool, r.tree.files, r.tree.saved, r.tree.delSize))
  {
  }

  /** A completed pass deletes only files listed in `res`, and each deleted file
      has a twin that stays in the tree, whose path now fills the deleted path's
      first pool slot, and which has the same MD5 string; only under the corrected
      detector is its recorded CRC the same as well. */
  lemma DedupKeepsTwin(pool: seq<string>, t: Tree, entries: map<string, ZipEntry>, digest: seq<Byte> -> seq<Byte>, det: Detector,
                       resIsDir: bool, backup: bool, f: FileNode) returns (g: FileNode)
    requires UniquePaths(t.files)
    requires DedupPool(pool, t, entries, digest, det, resIsDir, backup).PoolDone?
    requires f in t.files && f !in DedupPool(pool, t, entries, digest, det, resIsDir, backup).tree.files
    ensures f in ResCandidates(t.files)
    ensures var r := DedupPool(pool, t, entries, digest, det, resIsDir, backup);
            g in r.tree.files && g != f && Md5Key(digest)(g) == Md5Key(digest)(f)
            && (det == Corrected ==> CrcKey(entries)(g) == CrcKey(entries)(f))
            && forall j :: 0 <= j < |pool| && pool[j] == f.path && FirstAt(pool, j) ==> r.pool[j] == g.path
  {
    var r := DedupPool(pool, t, entries, digest, det, resIsDir, backup);
    DedupPoolDone(pool, t, entries, digest, det, resIsDir, backup);
    var ds := DupSets(t.files, entries, digest, det).value;
    var ms := Moves(ds);
    PassFacts(t, entries, digest, det);
    DedupRedirects(pool, t, entries, digest, det, resIsDir, backup);
    assert r.tree.files == RemovePaths(t.files, Deleted(ms));
    assert f.path in Deleted(ms);
    g := Twin(t.files, ResCandidates(t.files), SetKey(det, entries, digest), ds, f);
    forall j | 0 <= j < |pool| && pool[j] == f.path && FirstAt(pool, j) ensures r.pool[j] == g.path {
      assert r.pool[j] == Redirected(pool, ms)[j];
    }
  }


  /** Which files a completed pass deletes: exactly those the detector regroups
      that come after another of them with the same key, the listing order of `res`
      deciding which comes first. Every other node stays. */
  lemma DedupDeletesLater(pool: seq<string>, t: Tree, entries: map<string, ZipEntry>, digest: seq<Byte> -> seq<Byte>,
                          det: Detector, resIsDir: bool, backup: bool, f: FileNode)
    requires UniquePaths(t.files)
    requires DedupPool(pool, t, entries, digest, det, resIsDir, backup).PoolDone?
    requires f in t.files
    ensures f !in DedupPool(pool, t, entries, digest, det, resIsDir, backup).tree.files
            <==> HasEarlier(Regrouped(det, ResCandidates(t.files), entries), SetKey(det, entries, digest), f)
  {
    DedupPoolDone(pool, t, entries, digest, det, resIsDir, backup);
    var cands := ResCandidates(t.files);
    var ds := DupSets(t.files, entries, digest, det).value;
    var ms := Moves(ds);
    CandidatesUnique(t.files);
    UniqueDistinct(cands);
    DetectRemovesLater(det, cands, entries, digest, f);
    assert f.path in Deleted(ms) <==> exists d :: d in ds && f in d.removed by {
      if f.path in Deleted(ms) {
        var m :| m in ms && m.file.path == f.path;
        var d :| d in ds && m.file in d.removed && m.retainPath == d.retained.path;
        assert m.file in Members(d);
        SamePath(t.files, m.file, f);
      }
      if d :| d in ds && f in d.removed {
        RemovedIsDeleted(ds, d, f);
      }
    }
  }

  /** Of two different candidates sharing both keys, the first pass deletes at least one. */
  lemma OneOfPairDeleted(cands: seq<FileNode>, entries: map<string, ZipEntry>, digest: seq<Byte> -> seq<Byte>,
                         a: FileNode, b: FileNode)
    requires FindDuplicates(cands, entries, digest).Ok?
    requires a in cands && b in cands && a != b && DupKey(entries, digest)(a) == DupKey(entries, digest)(b)
    ensures var ms := Moves(FindDuplicates(cands, entries, digest).value);
            a.path in Deleted(ms) || b.path in Deleted(ms)
  {
    var ds := FindDuplicates(cands, entries, digest).value;
    var d := Covering(cands, entries, digest, a, b);
    if a != d.retained {
      MemberSplit(d, a);
      RemovedIsDeleted(ds, d, a);
    } else {
      MemberSplit(d, b);
      RemovedIsDeleted(ds, d, b);
    }
  }

  /** Every removed file of a set is deleted by the removals. */
  lemma RemovedIsDeleted(ds: seq<DupGroup>, d: DupGroup, x: FileNode)
    requires d in ds && x in d.removed
    ensures x.path in Deleted(Moves(ds))
  {
    assert Move(x, d.retained.path) in Moves(ds);
  }

  /** Of two different candidates the chain as written puts together (each with a
      CRC partner, and sharing the MD5 string), the first pass deletes at least one. */
  lemma AsWrittenOneOfPairDeleted(cands: seq<FileNode>, entries: map<string, ZipEntry>, digest: seq<Byte> -> seq<Byte>,
                                  a: FileNode, b: FileNode)
    requires FindDuplicatesAsWritten(cands, entries, digest).Ok?
    requires a in CrcRepeated(cands, CrcKey(entries)) && b in CrcRepeated(cands, CrcKey(entries))
    requires a != b && Md5Key(digest)(a) == Md5Key(digest)(b)
    ensures var ms := Moves(FindDuplicatesAsWritten(cands, entries, digest).value);
            a.path in Deleted(ms) || b.path in Deleted(ms)
  {
    var flat := CrcRepeated(cands, CrcKey(entries));
    var ds := FindDuplicatesAsWritten(cands, entries, digest).value;
    assert ds == DupSetsBy(flat, Md5Key(digest));
    var d := DupSetsCover(flat, Md5Key(digest), a, b);
    if a != d.retained {
      MemberSplit(d, a);
      RemovedIsDeleted(ds, d, a);
    } else {
      MemberSplit(d, b);
      RemovedIsDeleted(ds, d, b);
    }
  }

  /** A file the chain as written groups in what is left of the candidates was
      already among the flattened CRC groups of all of them. */
  lemma StillRepeated(cands: seq<FileNode>, del: set<string>, crc: FileNode -> int, x: FileNode)
    requires Distinct(cands) && Distinct(RemovePaths(cands, del))
    requires x in CrcRepeated(RemovePaths(cands, del), crc)
    ensures x in CrcRepeated(cands, crc) && x.path !in del
  {
    var y := CrcPartner(RemovePaths(cands, del), crc, x);
    PartnersRepeated(cands, crc, x, y);
  }

  /** A second pass over the tree a completed pass leaves finds no duplicate set:
      running the dedup again deletes nothing and changes no pool slot. */
  lemma DedupSecondPass(pool: seq<string>, t: Tree, entries: map<string, ZipEntry>, digest: seq<Byte> -> seq<Byte>, det: Detector,
                        resIsDir: bool, backup: bool)
    requires UniquePaths(t.files)
    requires DedupPool(pool, t, entries, digest, det, resIsDir, backup).PoolDone?
    ensures DupSets(DedupPool(pool, t, entries, digest, det, resIsDir, backup).tree.files, entries, digest, det) == Ok([])
  {
    var r := DedupPool(pool, t, entries, digest, det, resIsDir, backup);
    DedupPoolDone(pool, t, entries, digest, det, resIsDir, backup);
    var cands := ResCandidates(t.files);
    var ds := DupSets(t.files, entries, digest, det).value;
    var del := Deleted(Moves(ds));
    assert r.tree.files == RemovePaths(t.files, del);
    CandidatesAfterRemove(t.files, del);
    var cands2 := RemovePaths(cands, del);
    assert ResCandidates(r.tree.files) == cands2;
    CandidatesUnique(t.files);
    RemoveKeepsUnique(cands, del);
    var r2 := Detect(det, cands2, entries, digest);
    assert r2.Ok?;
    var ds2 := r2.value;
    if |ds2| > 0 {
      var d := ds2[0];
      assert d in ds2;
      DupSetsWellFormed(cands2, entries, digest, det);
      var a, b := d.retained, d.removed[0];
      assert a in Members(d) && b in Members(d);
      RetainedNotMember(d, b);
      match det
      case Corrected =>
        OneOfPairDeleted(cands, entries, digest, a, b);
      case AsWritten =>
        UniqueDistinct(cands);
        UniqueDistinct(cands2);
        assert a in CrcRepeated(cands2, CrcKey(entries)) && b in CrcRepeated(cands2, CrcKey(entries));
        StillRepeated(cands, del, CrcKey(entries), a);
        StillRepeated(cands, del, CrcKey(entries), b);
        AsWrittenOneOfPairDeleted(cands, entries, digest, a, b);
      assert false;
    }
  }

  /** With no duplicate set left, the pass changes nothing. */
  lemma DedupSettled(pool: seq<string>, t: Tree, entries: map<string, ZipEntry>, digest: seq<Byte> -> seq<Byte>, det: Detector, backup: bool)
    requires DupSets(t.files, entries, digest, det) == Ok([])
    ensures DedupPool(pool, t, entries, digest, det, true, backup) == PoolDone(pool, t)
  {
    assert Moves([]) == [];
  }

  /** A completed pass deletes only files listed in `res`: every other node stays. */
  lemma DedupKeepsOthers(pool: seq<string>, t: Tree, entries: map<string, ZipEntry>, digest: seq<Byte> -> seq<Byte>, det: Detector,
                         resIsDir: bool, backup: bool, f: FileNode)
    requires UniquePaths(t.files)
    requires DedupPool(pool, t, entries, digest, det, resIsDir, backup).PoolDone?
    requires f in t.files && !IsResChild(f.path)
    ensures f in DedupPool(pool, t, entries, digest, det, resIsDir, backup).tree.files
  {
    DedupPoolDone(pool, t, entries, digest, det, resIsDir, backup);
    var ds := DupSets(t.files, entries, digest, det).value;
    PassFacts(t, entries, digest, det);
    assert f.path !in Deleted(Moves(ds));
  }

  /** A completed pass deleted exactly the removed files of its duplicate sets and
      added exactly their sizes to `delSize`. */
  lemma DedupAccounts(pool: seq<string>, t: Tree, entries: map<string, ZipEntry>, digest: seq<Byte> -> seq<Byte>, det: Detector,
                      resIsDir: bool, backup: bool)
    requires DedupPool(pool, t, entries, digest, det, resIsDir, backup).PoolDone?
    ensures DupSets(t.files, entries, digest, det).Ok?
    ensures var r := DedupPool(pool, t, entries, digest, det, resIsDir, backup);
            var ms := Moves(DupSets(t.files, entries, digest, det).value);
            r.tree.files == RemovePaths(t.files, Deleted(ms)) && r.tree.delSize == t.delSize + SizeSum(ms)
  {
    DedupPoolDone(pool, t, entries, digest, det, resIsDir, backup);
  }
}

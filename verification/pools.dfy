/** The edits the engine makes to the resource table and the extracted tree:
    `indexOf`/`setString` on the table's string pool, the removal of duplicate
    files with redirection of their pool entries and byte accounting, and the
    renaming of package key pools. */
module Pools {
  import opened Wrappers
  import opened Archive
  import opened Dedup

  // ----- The string pool -----

  /** `StringPoolChunk.indexOf`: the first index holding `s`, or -1 without one. */
  function IndexOf(pool: seq<string>, s: string): (i: int)
    ensures -1 <= i < |pool|
    ensures i == -1 <==> s !in pool
    ensures 0 <= i ==> pool[i] == s && s !in pool[..i]
  {
    if |pool| == 0 then -1
    else if pool[0] == s then 0
    else
      var i := IndexOf(pool[1..], s);
      if i < 0 then -1
      else
        assert pool[..i + 1] == [pool[0]] + pool[1..][..i];
        i + 1
  }

  /** Slot `j` holds the first occurrence of its string. */
  predicate FirstAt(pool: seq<string>, j: nat)
    requires j < |pool|
  {
    pool[j] !in pool[..j]
  }

  /** `setString(index, value)`: `None` where the index is outside the pool, as
      the list underneath throws. */
  function SetString(pool: seq<string>, index: int, value: string): (r: Option<seq<string>>)
    ensures r.Some? <==> 0 <= index < |pool|
    ensures r.Some? ==> |r.value| == |pool| && r.value[index] == value
    ensures r.Some? ==> forall j :: 0 <= j < |pool| && j != index ==> r.value[j] == pool[j]
  {
    if 0 <= index < |pool| then Some(pool[index := value]) else None
  }

  /** `setString(indexOf(delPath), retainPath)`: the first slot holding `delPath`
      now holds `retainPath`; no slot exists when `delPath` is absent. */
  function Redirect(pool: seq<string>, delPath: string, retainPath: string): (r: Option<seq<string>>)
    ensures r.Some? <==> delPath in pool
    ensures r.Some? ==> |r.value| == |pool|
    ensures r.Some? ==> forall j :: 0 <= j < |pool| ==>
              r.value[j] == if pool[j] == delPath && FirstAt(pool, j) then retainPath else pool[j]
  {
    var i := IndexOf(pool, delPath);
    var r := SetString(pool, i, retainPath);
    assert r.Some? ==> forall j :: 0 <= j < |pool| ==>
             r.value[j] == if pool[j] == delPath && FirstAt(pool, j) then retainPath else pool[j] by {
      if r.Some? {
        forall j | 0 <= j < |pool|
          ensures r.value[j] == if pool[j] == delPath && FirstAt(pool, j) then retainPath else pool[j]
        {
          if j < i {
            assert pool[..i][j] == pool[j];
          } else if j > i {
            assert pool[..j][i] == pool[i];
          }
        }
      }
    }
    r
  }

  // ----- Removing duplicate files -----

  /** One removal: the file to delete and the path its pool slot is pointed to. */
  datatype Move = Move(file: FileNode, retainPath: string)

  /** `it.second.forEach { .. }`: the removals of one duplicate set, in order. */
  function GroupMoves(d: DupGroup): (ms: seq<Move>)
    ensures |ms| == |d.removed|
    ensures forall i :: 0 <= i < |ms| ==> ms[i].file == d.removed[i] && ms[i].retainPath == d.retained.path
  {
    seq(|d.removed|, i requires 0 <= i < |d.removed| => Move(d.removed[i], d.retained.path))
  }

  /** The removals of all duplicate sets, set after set. */
  function Moves(ds: seq<DupGroup>): (ms: seq<Move>)
    ensures forall m: Move :: m in ms <==> exists d: DupGroup :: d in ds && m.file in d.removed && m.retainPath == d.retained.path
  {
    if |ds| == 0 then []
    else
      var head := GroupMoves(ds[0]);
      var rest := Moves(ds[1..]);
      assert forall m: Move :: m in head <==> m.file in ds[0].removed && m.retainPath == ds[0].retained.path by {
        forall m: Move | m.file in ds[0].removed && m.retainPath == ds[0].retained.path ensures m in head {
          var k :| 0 <= k < |ds[0].removed| && ds[0].removed[k] == m.file;
          assert head[k] == m;
        }
      }
      assert forall d: DupGroup :: d in ds <==> d == ds[0] || d in ds[1..];
      head + rest
  }

  /** The paths the removals delete. */
  function Deleted(ms: seq<Move>): set<string> {
    set m | m in ms :: m.file.path
  }

  /** Total bytes of the files the removals delete. */
  function SizeSum(ms: seq<Move>): nat {
    if |ms| == 0 then 0 else Size(ms[0].file) + SizeSum(ms[1..])
  }

  /** Kotlin's `File.name`: the last segment of a `/`-separated path. */
  function FileName(path: string): string {
    path[LastIndexOf(path, '/') + 1..]
  }

  /** What a run of removals has produced so far: the string pool, the extracted
      tree, the names copied to the backup directory, and `delSize`. */
  datatype Sweep = Sweep(pool: seq<string>, files: seq<FileNode>, saved: set<string>, delSize: nat)

  /** Why a run of removals stopped. */
  datatype Halt =
    | PathNotInPool(path: string)   // `indexOf` gave -1 and `setString(-1, ..)` threw
    | AlreadySaved(name: string)    // `copyTo` found its target in the backup directory

  /** Where a run of removals ended: all done, or stopped with what it had done until then. */
  datatype Outcome = Done(state: Sweep) | Halted(reason: Halt, state: Sweep)

  /** One removal: redirect the pool slot, copy the file to the backup directory
      when `backup` is set (`copyTo` without overwrite), add its size, delete it. */
  function Step(st: Sweep, m: Move, backup: bool): (o: Outcome)
    ensures |o.state.pool| == |st.pool|
    ensures o.Done? <==> m.file.path in st.pool && (backup ==> FileName(m.file.path) !in st.saved)
    ensures o.Done? ==> o.state.files == RemovePaths(st.files, {m.file.path})
                        && o.state.delSize == st.delSize + Size(m.file)
    ensures o.Done? ==> Redirect(st.pool, m.file.path, m.retainPath) == Some(o.state.pool)
    ensures o.Done? ==> o.state.saved == if backup then st.saved + {FileName(m.file.path)} else st.saved
    ensures o.Halted? ==> o.state.files == st.files && o.state.delSize == st.delSize
    ensures forall j :: 0 <= j < |st.pool| ==>
              o.state.pool[j] == st.pool[j] || (st.pool[j] == m.file.path && o.state.pool[j] == m.retainPath)
  {
    var path := m.file.path;
    match Redirect(st.pool, path, m.retainPath)
    case None => Halted(PathNotInPool(path), st)
    case Some(pool) =>
      var name := FileName(path);
      if backup && name in st.saved then Halted(AlreadySaved(name), st.(pool := pool))
      else
        var saved := if backup then st.saved + {name} else st.saved;
        Done(Sweep(pool, RemovePaths(st.files, {path}), saved, st.delSize + Size(m.file)))
  }

  /** The removals applied one after the other, stopping at the first that fails. */
  function Apply(st: Sweep, ms: seq<Move>, backup: bool): (o: Outcome)
    ensures |o.state.pool| == |st.pool|
    ensures o.Done? ==> o.state.files == RemovePaths(st.files, Deleted(ms)) && o.state.delSize == st.delSize + SizeSum(ms)
    ensures st.delSize <= o.state.delSize <= st.delSize + SizeSum(ms)
    ensures forall j :: 0 <= j < |st.pool| && o.state.pool[j] != st.pool[j] ==>
              st.pool[j] in Deleted(ms) && exists m :: m in ms && m.retainPath == o.state.pool[j]
    decreases |ms|
  {
    if |ms| == 0 then
      RemoveNothing(st.files, Deleted(ms));
      Done(st)
    else
      match Step(st, ms[0], backup)
      case Halted(h, s) => Halted(h, s)
      case Done(s) =>
        var o := Apply(s, ms[1..], backup);
        assert Deleted(ms) == {ms[0].file.path} + Deleted(ms[1..]) by {
          assert forall m: Move :: m in ms <==> m == ms[0] || m in ms[1..];
        }
        RemoveTwice(st.files, {ms[0].file.path}, Deleted(ms[1..]));
        assert forall j :: 0 <= j < |st.pool| && o.state.pool[j] != st.pool[j] ==>
                 st.pool[j] in Deleted(ms) && exists m :: m in ms && m.retainPath == o.state.pool[j] by {
          forall j | 0 <= j < |st.pool| && o.state.pool[j] != st.pool[j]
            ensures st.pool[j] in Deleted(ms) && exists m :: m in ms && m.retainPath == o.state.pool[j]
          {
            if s.pool[j] == st.pool[j] {
              var m :| m in ms[1..] && m.retainPath == o.state.pool[j];
              assert m in ms;
            } else if o.state.pool[j] == s.pool[j] {
              assert ms[0] in ms;
            } else {
              var m :| m in ms[1..] && m.retainPath == o.state.pool[j];
              assert m in ms;
            }
          }
        }
        o
  }

  /** No two removals delete the same path. */
  predicate DistinctPaths(ms: seq<Move>) {
    forall i, j :: 0 <= i < j < |ms| ==> ms[i].file.path != ms[j].file.path
  }

  /** No two removals copy files of the same name to the backup directory. */
  predicate DistinctNames(ms: seq<Move>) {
    forall i, j :: 0 <= i < j < |ms| ==> FileName(ms[i].file.path) != FileName(ms[j].file.path)
  }

  /** No removal points a slot to a path that a removal deletes. */
  predicate RetainedKept(ms: seq<Move>) {
    forall m, n :: m in ms && n in ms ==> m.retainPath != n.file.path
  }

  /** The conditions on a list of removals hold for its tail. */
  lemma MovesTail(ms: seq<Move>)
    requires |ms| > 0
    ensures DistinctPaths(ms) ==> DistinctPaths(ms[1..]) && ms[0].file.path !in Deleted(ms[1..])
    ensures DistinctNames(ms) ==> DistinctNames(ms[1..]) && forall m :: m in ms[1..] ==> FileName(m.file.path) != FileName(ms[0].file.path)
    ensures RetainedKept(ms) ==> RetainedKept(ms[1..]) && ms[0].retainPath !in Deleted(ms[1..]) && ms[0].retainPath != ms[0].file.path
  {
    var rest := ms[1..];
    if DistinctPaths(ms) {
      forall i, j | 0 <= i < j < |rest| ensures rest[i].file.path != rest[j].file.path {
        assert rest[i] == ms[i + 1] && rest[j] == ms[j + 1];
      }
      forall m | m in rest ensures m.file.path != ms[0].file.path {
        var k :| 0 <= k < |rest| && rest[k] == m;
        assert ms[k + 1] == m;
      }
    }
    if DistinctNames(ms) {
      forall i, j | 0 <= i < j < |rest| ensures FileName(rest[i].file.path) != FileName(rest[j].file.path) {
        assert rest[i] == ms[i + 1] && rest[j] == ms[j + 1];
      }
      forall m | m in rest ensures FileName(m.file.path) != FileName(ms[0].file.path) {
        var k :| 0 <= k < |rest| && rest[k] == m;
        assert ms[k + 1] == m;
      }
    }
    if RetainedKept(ms) {
      assert ms[0] in ms;
      forall m | m in rest ensures m.file.path != ms[0].retainPath {
        assert m in ms;
      }
    }
  }

  /** Deleting files moves their bytes from the tree to `delSize`: the sum of the
      two never changes, whether the run completes or stops early. */
  lemma {:induction false} ApplyConserves(st: Sweep, ms: seq<Move>, backup: bool)
    requires UniquePaths(st.files)
    requires forall m :: m in ms ==> m.file in st.files
    requires DistinctPaths(ms)
    ensures TreeSize(Apply(st, ms, backup).state.files) + Apply(st, ms, backup).state.delSize
            == TreeSize(st.files) + st.delSize
    decreases |ms|
  {
    if |ms| > 0 {
      var m0 := ms[0];
      assert m0 in ms;
      match Step(st, m0, backup)
      case Halted(_, _) =>
      case Done(s) =>
        RemoveOneSize(st.files, m0.file);
        RemoveKeepsUnique(st.files, {m0.file.path});
        MovesTail(ms);
        forall m | m in ms[1..] ensures m.file in s.files {
          assert m in ms;
        }
        ApplyConserves(s, ms[1..], backup);
    }
  }

  /** The slot a deleted path is pointed to: the retained path of the first
      removal deleting `p`, or `p` itself when none does. */
  function Target(ms: seq<Move>, p: string): string {
    if |ms| == 0 then p
    else if ms[0].file.path == p then ms[0].retainPath
    else Target(ms[1..], p)
  }

  /** A path no removal deletes is its own target. */
  lemma {:induction false} TargetOutside(ms: seq<Move>, p: string)
    requires p !in Deleted(ms)
    ensures Target(ms, p) == p
  {
    if |ms| > 0 {
      assert ms[0] in ms;
      assert Deleted(ms[1..]) <= Deleted(ms) by {
        forall q | q in Deleted(ms[1..]) ensures q in Deleted(ms) {
          var m :| m in ms[1..] && m.file.path == q;
          assert m in ms;
        }
      }
      TargetOutside(ms[1..], p);
    }
  }

  /** The reference pool after all removals: the first occurrence of every deleted
      path holds that path's retained path, and every other slot is as it was. */
  function Redirected(pool: seq<string>, ms: seq<Move>): (r: seq<string>)
    ensures |r| == |pool|
  {
    seq(|pool|, j requires 0 <= j < |pool| => if FirstAt(pool, j) then Target(ms, pool[j]) else pool[j])
  }

  /** After one redirection, the remaining removals lead to the same reference pool. */
  lemma RedirectedStep(pool: seq<string>, pool1: seq<string>, ms: seq<Move>)
    requires |ms| > 0
    requires Redirect(pool, ms[0].file.path, ms[0].retainPath) == Some(pool1)
    requires ms[0].file.path !in Deleted(ms[1..]) && ms[0].retainPath !in Deleted(ms[1..])
    requires ms[0].retainPath != ms[0].file.path
    ensures Redirected(pool1, ms[1..]) == Redirected(pool, ms)
  {
    var p0, r0, rest := ms[0].file.path, ms[0].retainPath, ms[1..];
    TargetOutside(rest, p0);
    TargetOutside(rest, r0);
    forall j | 0 <= j < |pool| ensures Redirected(pool1, rest)[j] == Redirected(pool, ms)[j] {
      if pool[j] != p0 && pool[j] != r0 {
        assert pool1[j] == pool[j];
        assert FirstAt(pool1, j) == FirstAt(pool, j) by {
          forall k | 0 <= k < j ensures (pool1[k] == pool[j]) == (pool[k] == pool[j]) {
            assert pool1[k] == pool[k] || pool1[k] == r0;
            assert pool1[k] == pool[k] || pool[k] == p0;
          }
          assert (pool[j] in pool1[..j]) == (exists k :: 0 <= k < j && pool1[k] == pool[j]);
          assert (pool[j] in pool[..j]) == (exists k :: 0 <= k < j && pool[k] == pool[j]);
        }
      }
    }
  }

  /** With every deleted path distinct and no retained path deleted, a completed
      run leaves exactly the reference pool: the first slot of each deleted path
      holds its retained path and no other slot changes. */
  lemma {:induction false} ApplyRedirects(st: Sweep, ms: seq<Move>, backup: bool)
    requires DistinctPaths(ms) && RetainedKept(ms)
    ensures Apply(st, ms, backup).Done? ==> Apply(st, ms, backup).state.pool == Redirected(st.pool, ms)
    decreases |ms|
  {
    if |ms| == 0 {
      assert Redirected(st.pool, ms) == st.pool;
    } else {
      match Step(st, ms[0], backup)
      case Halted(_, _) =>
      case Done(s) =>
        MovesTail(ms);
        ApplyRedirects(s, ms[1..], backup);
        RedirectedStep(st.pool, s.pool, ms);
    }
  }

  /** A run completes when every deleted path is in the pool and, with backups,
      every copied name is new and no two removals share a name. */
  lemma {:induction false} ApplyCompletes(st: Sweep, ms: seq<Move>, backup: bool)
    requires DistinctPaths(ms)
    requires forall m :: m in ms ==> m.file.path in st.pool
    requires backup ==> DistinctNames(ms) && forall m :: m in ms ==> FileName(m.file.path) !in st.saved
    ensures Apply(st, ms, backup).Done?
    decreases |ms|
  {
    if |ms| > 0 {
      var m0 := ms[0];
      assert m0 in ms;
      var s := Step(st, m0, backup).state;
      MovesTail(ms);
      forall m | m in ms[1..] ensures m.file.path in s.pool {
        assert m in ms;
        var k :| 0 <= k < |st.pool| && st.pool[k] == m.file.path;
        assert s.pool[k] == st.pool[k];
      }
      ApplyCompletes(s, ms[1..], backup);
    }
  }

  // ----- Key pools -----

  /** Some whitelist pattern fully matches `key`. */
  predicate Whitelisted<R>(key: string, regexes: seq<R>, matches: (R, string) -> bool) {
    exists i :: 0 <= i < |regexes| && matches(regexes[i], key)
  }

  /** `regexes.find { it.matches(key) }`: the first pattern that fully matches `key`. */
  function FirstMatch<R(==)>(key: string, regexes: seq<R>, matches: (R, string) -> bool): (r: Option<R>)
    ensures r.None? <==> !Whitelisted(key, regexes, matches)
    ensures r.Some? ==> r.value in regexes && matches(r.value, key)
  {
    if |regexes| == 0 then None
    else if matches(regexes[0], key) then Some(regexes[0])
    else
      var r := FirstMatch(key, regexes[1..], matches);
      assert Whitelisted(key, regexes[1..], matches) ==> Whitelisted(key, regexes, matches) by {
        if Whitelisted(key, regexes[1..], matches) {
          var i :| 0 <= i < |regexes[1..]| && matches(regexes[1..][i], key);
          assert regexes[i + 1] == regexes[1..][i];
        }
      }
      assert Whitelisted(key, regexes, matches) ==> Whitelisted(key, regexes[1..], matches) by {
        if Whitelisted(key, regexes, matches) {
          var i :| 0 <= i < |regexes| && matches(regexes[i], key);
          assert i > 0 && regexes[1..][i - 1] == regexes[i];
        }
      }
      r
  }

  /** The key pool after renaming: a key some pattern matches stays, every other
      key becomes the placeholder. */
  function RenameKeys<R(==)>(keys: seq<string>, regexes: seq<R>, matches: (R, string) -> bool,
                               placeholder: string): (r: seq<string>)
    ensures |r| == |keys|
    ensures forall i :: 0 <= i < |keys| ==>
              r[i] == if Whitelisted(keys[i], regexes, matches) then keys[i] else placeholder
  {
    if |keys| == 0 then []
    else
      [if FirstMatch(keys[0], regexes, matches).Some? then keys[0] else placeholder]
      + RenameKeys(keys[1..], regexes, matches, placeholder)
  }

  /** `for (index in 0 until keyStringCount)`: each key is looked up in the
      whitelist and, without a match, overwritten with the placeholder. */
  method RenameKeyPool<R(==)>(keys: seq<string>, regexes: seq<R>, matches: (R, string) -> bool,
                                placeholder: string) returns (pool: seq<string>)
    ensures pool == RenameKeys(keys, regexes, matches, placeholder)
  {
    pool := keys;
    var index := 0;
    while index < |keys|
      invariant 0 <= index <= |keys| && |pool| == |keys|
      invariant forall i :: 0 <= i < index ==>
                  pool[i] == if Whitelisted(keys[i], regexes, matches) then keys[i] else placeholder
      invariant forall i :: index <= i < |keys| ==> pool[i] == keys[i]
    {
      var key := pool[index];
      var regex := FirstMatch(key, regexes, matches);
      if regex.None? {
        pool := pool[index := placeholder];
      }
      index := index + 1;
    }
  }

  /** Renaming twice renames nothing more: a kept key is kept again, and the
      placeholder is either kept or replaced by itself. */
  lemma {:induction false} RenameIdempotent<R>(keys: seq<string>, regexes: seq<R>, matches: (R, string) -> bool, placeholder: string)
    ensures RenameKeys(RenameKeys(keys, regexes, matches, placeholder), regexes, matches, placeholder)
            == RenameKeys(keys, regexes, matches, placeholder)
  {
  }

  /** `keyStringPool.setString(index, "yd")` for every index: every key becomes `"yd"`. */
  function RenameAllYd(keys: seq<string>): (r: seq<string>)
    ensures |r| == |keys|
    ensures forall i :: 0 <= i < |r| ==> r[i] == "yd"
  {
    if |keys| == 0 then [] else ["yd"] + RenameAllYd(keys[1..])
  }

  /** The older plugin's renaming is the whitelist renaming with no pattern and `"yd"`. */
  lemma {:induction false} RenameAllYdIsRenameKeys<R>(keys: seq<string>, matches: (R, string) -> bool)
    ensures RenameAllYd(keys) == RenameKeys(keys, [], matches, "yd")
  {
  }

  /** Renames the key pool of every package with the given pool renaming. */
  function RenamePackages(pkgs: seq<Package>, rename: seq<string> -> seq<string>): (r: seq<Package>)
    ensures |r| == |pkgs|
    ensures forall i :: 0 <= i < |pkgs| ==> r[i].keyPool == rename(pkgs[i].keyPool)
  {
    if |pkgs| == 0 then [] else [Package(rename(pkgs[0].keyPool))] + RenamePackages(pkgs[1..], rename)
  }
}

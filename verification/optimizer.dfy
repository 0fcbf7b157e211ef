/** The `ResourcesOptTask.doAction` run: locate the packaged resources, decode the
    resource table, deduplicate `res` against every table chunk's string pool,
    rename the key pools outside the whitelist, and repack when either switch is on. */
module Optimizer {
  import opened Wrappers
  import opened Md5Hex
  import opened Archive
  import opened Dedup
  import opened Pools
  import opened Settings
  import opened Cleanup

  /** The library calls the run makes and this model does not look into: the MD5
      digest, `String.toRegex` (which may reject a pattern) and `Regex.matches`,
      and the resource-table codec (decoding may reject the bytes). */
  datatype Library<!R> = Library(
    digest: seq<Byte> -> seq<Byte>,
    compile: string -> Option<R>,
    matches: (R, string) -> bool,
    decode: seq<Byte> -> Option<ResourceTable>,
    encode: ResourceTable -> seq<Byte>)

  /** What extracting the `.ap_` leaves: the entry record of every path and the extracted tree. */
  datatype Extracted = Extracted(entries: map<string, ZipEntry>, files: seq<FileNode>)

  /** What `zipFiles` packs in place of the original archive: the tree and the
      compression method of every recorded entry. */
  datatype Repack = Repack(archive: string, files: seq<FileNode>, methods: map<string, Method>)

  /** How a run ends. `NotStarted`: the input directory holds no `.ap_`.
      `Failed`: an exception was caught, nothing is written back, `delSize` is what
      the summary reports. `Unchanged`: both switches are off. `Repacked`: the
      rewritten table and the repacked tree replace the original archive. */
  datatype Run =
    | NotStarted
    | Failed(reason: Failure, delSize: nat)
    | Unchanged
    | Repacked(output: Repack, table: ResourceTable, delSize: nat)

  /** `resNameOptWhiteRegexList.map { it.toRegex() }`: every pattern compiled in
      order; the first pattern that does not compile stops the run. */
  function CompileAll<R>(patterns: seq<string>, compile: string -> Option<R>): (r: Result<seq<R>, string>)
    ensures r.Ok? <==> forall i :: 0 <= i < |patterns| ==> compile(patterns[i]).Some?
    ensures r.Ok? ==> |r.value| == |patterns|
                      && forall i :: 0 <= i < |patterns| ==> compile(patterns[i]) == Some(r.value[i])
    ensures r.Err? ==> exists i :: 0 <= i < |patterns| && patterns[i] == r.error && compile(patterns[i]).None?
                                   && forall j :: 0 <= j < i ==> compile(patterns[j]).Some?
  {
    if |patterns| == 0 then Ok([])
    else
      match compile(patterns[0])
      case None => Err(patterns[0])
      case Some(x) =>
        match CompileAll(patterns[1..], compile)
        case Err(p) =>
          assert exists i :: 1 <= i < |patterns| && patterns[i] == p && compile(patterns[i]).None?
                             && forall j :: 0 <= j < i ==> compile(patterns[j]).Some? by {
            var k :| 0 <= k < |patterns| - 1 && patterns[1..][k] == p && compile(patterns[1..][k]).None?
                     && forall j :: 0 <= j < k ==> compile(patterns[1..][j]).Some?;
            assert forall j :: 1 <= j < k + 1 ==> compile(patterns[j]).Some? by {
              forall j | 1 <= j < k + 1 ensures compile(patterns[j]).Some? {
                assert patterns[j] == patterns[1..][j - 1];
              }
            }
          }
          Err(p)
        case Ok(xs) =>
          assert forall i :: 1 <= i < |patterns| ==> patterns[i] == patterns[1..][i - 1];
          Ok([x] + xs)
  }

  /** The key-pool renaming `ResourcesOptTask` applies with its whitelist and placeholder. */
  function KeyRenamer<R(==)>(config: Config, regexes: seq<R>, matches: (R, string) -> bool): seq<string> -> seq<string> {
    keys => RenameKeys(keys, regexes, matches, config.resNameOptPlaceholder)
  }

  /** How one chunk may change under the two switches: a chunk that is not a table
      chunk never changes; a table chunk keeps the length of its string pool, keeps
      the pool itself when deduplication is off, and has every package's key pool
      renamed when renaming is on and untouched when it is off. */
  predicate Follows<R(==)>(c: Chunk, c2: Chunk, config: Config, regexes: seq<R>, matches: (R, string) -> bool) {
    match c
    case OtherChunk(_) => c2 == c
    case TableChunk(pool, pkgs) =>
      c2.TableChunk? && |c2.stringPool| == |pool|
      && (!config.repeatResOptEnable ==> c2.stringPool == pool)
      && |c2.packages| == |pkgs|
      && forall i :: 0 <= i < |pkgs| ==>
           c2.packages[i].keyPool
           == if config.resNameOptEnable then RenameKeys(pkgs[i].keyPool, regexes, matches, config.resNameOptPlaceholder)
              else pkgs[i].keyPool
  }

  /** The result of optimising one chunk. */
  datatype ChunkPass = ChunkDone(chunk: Chunk, tree: Tree) | ChunkStopped(reason: Failure, delSize: nat)

  /** The body of the `forEach` over table chunks: the dedup pass when
      `repeatResOptEnable` is on (backing removed files up), then the key renaming
      when `resNameOptEnable` is on. Other chunks are passed over. */
  function OptChunk<R(==)>(c: Chunk, t: Tree, config: Config, regexes: seq<R>, lib: Library<R>,
                           entries: map<string, ZipEntry>, det: Detector, resIsDir: bool, backup: bool): (r: ChunkPass)
    ensures r.ChunkStopped? ==> config.repeatResOptEnable && c.TableChunk? && r.delSize >= t.delSize && PassFailure(r.reason)
    ensures r.ChunkDone? ==> Follows(c, r.chunk, config, regexes, lib.matches) && r.tree.delSize >= t.delSize
    ensures r.ChunkDone? && (c.OtherChunk? || !config.repeatResOptEnable) ==> r.tree == t
  {
    match c
    case OtherChunk(_) => ChunkDone(c, t)
    case TableChunk(pool, pkgs) =>
      var pass := if config.repeatResOptEnable then DedupPool(pool, t, entries, lib.digest, det, resIsDir, backup)
                  else PoolDone(pool, t);
      match pass
      case PoolStopped(reason, delSize) => ChunkStopped(reason, delSize)
      case PoolDone(pool2, t2) =>
        var pkgs2 := if config.resNameOptEnable then RenamePackages(pkgs, KeyRenamer(config, regexes, lib.matches))
                     else pkgs;
        ChunkDone(TableChunk(pool2, pkgs2), t2)
  }

  /** Chunk by chunk, a first chunk and the rest. */
  lemma FollowsCons<R>(cs: seq<Chunk>, c2: Chunk, rest: seq<Chunk>, config: Config, regexes: seq<R>,
                       matches: (R, string) -> bool)
    requires |cs| > 0 && |rest| == |cs| - 1
    requires Follows(cs[0], c2, config, regexes, matches)
    requires forall i :: 0 <= i < |rest| ==> Follows(cs[1..][i], rest[i], config, regexes, matches)
    ensures forall i :: 0 <= i < |cs| ==> Follows(cs[i], ([c2] + rest)[i], config, regexes, matches)
  {
    forall i | 1 <= i < |cs| ensures Follows(cs[i], ([c2] + rest)[i], config, regexes, matches) {
      assert cs[i] == cs[1..][i - 1];
    }
  }

  /** The result of optimising the whole table. */
  datatype TablePass = TableDone(chunks: seq<Chunk>, tree: Tree) | TableStopped(reason: Failure, delSize: nat)

  /** The chunks in file order, each optimised against the tree the previous ones left. */
  function OptChunks<R(==)>(cs: seq<Chunk>, t: Tree, config: Config, regexes: seq<R>, lib: Library<R>,
                            entries: map<string, ZipEntry>, det: Detector, resIsDir: bool, backup: bool): (r: TablePass)
    decreases |cs|
    ensures !config.repeatResOptEnable ==> r.TableDone?
    ensures r.TableStopped? ==> r.delSize >= t.delSize && PassFailure(r.reason)
    ensures r.TableDone? ==> |r.chunks| == |cs| && r.tree.delSize >= t.delSize
                             && forall i :: 0 <= i < |cs| ==> Follows(cs[i], r.chunks[i], config, regexes, lib.matches)
    ensures r.TableDone? && !config.repeatResOptEnable ==> r.tree == t
  {
    if |cs| == 0 then TableDone([], t)
    else
      match OptChunk(cs[0], t, config, regexes, lib, entries, det, resIsDir, backup)
      case ChunkStopped(reason, delSize) => TableStopped(reason, delSize)
      case ChunkDone(c2, t2) =>
        match OptChunks(cs[1..], t2, config, regexes, lib, entries, det, resIsDir, backup)
        case TableStopped(reason, delSize) => TableStopped(reason, delSize)
        case TableDone(rest, t3) =>
          FollowsCons(cs, c2, rest, config, regexes, lib.matches);
          TableDone([c2] + rest, t3)
  }

  /** `unZipEntryMap.mapValues { it.value.method }`. */
  function Methods(entries: map<string, ZipEntry>): (m: map<string, Method>)
    ensures m.Keys == entries.Keys
    ensures forall p :: p in m ==> m[p] == entries[p].compression
  {
    map p | p in entries :: entries[p].compression
  }

  /** `doAction`. `names` lists the input directory, `x` is what extraction
      produced, `saved` the names already in the backup directory. */
  function DoAction<R(==)>(names: seq<string>, x: Extracted, saved: set<string>, config: Config,
                           lib: Library<R>, det: Detector): (r: Run)
    ensures r.NotStarted? <==> FindArchive(names).None?
    ensures r.Repacked? ==> FindArchive(names) == Some(r.output.archive)
                            && r.output.methods == Methods(x.entries)
    ensures r.Repacked? ==> config.repeatResOptEnable || config.resNameOptEnable
    ensures r.Unchanged? <==> FindArchive(names).Some? && !config.repeatResOptEnable && !config.resNameOptEnable
                              && FindTop(x.files, "resources.arsc").Some? && FindTop(x.files, "res").Some?
                              && lib.decode(FindTop(x.files, "resources.arsc").value.content).Some?
                              && CompileAll(config.resNameOptWhiteRegexList, lib.compile).Ok?
    ensures FindArchive(names).Some? && FindTop(x.files, "resources.arsc").None?
            ==> r == Failed(MissingFile("resources.arsc"), 0)
    ensures FindArchive(names).Some? && FindTop(x.files, "resources.arsc").Some? && FindTop(x.files, "res").None?
            ==> r == Failed(MissingFile("res"), 0)
    ensures r.Failed? && !PassFailure(r.reason) ==> r.delSize == 0
    ensures r.Failed? && PassFailure(r.reason) ==> config.repeatResOptEnable
    ensures r.Failed? && !config.repeatResOptEnable ==> r.delSize == 0
    ensures r.Repacked? && !config.repeatResOptEnable ==> r.delSize == 0
  {
    match FindArchive(names)
    case None => NotStarted
    case Some(apk) =>
      match FindTop(x.files, "resources.arsc")
      case None => Failed(MissingFile("resources.arsc"), 0)
      case Some(arsc) =>
        match FindTop(x.files, "res")
        case None => Failed(MissingFile("res"), 0)
        case Some(res) =>
          match lib.decode(arsc.content)
          case None => Failed(MalformedTable, 0)
          case Some(table) =>
            match CompileAll(config.resNameOptWhiteRegexList, lib.compile)
            case Err(p) => Failed(BadPattern(p), 0)
            case Ok(regexes) =>
              match OptChunks(table, Tree(x.files, saved, 0), config, regexes, lib, x.entries, det, res.isDirectory, true)
              case TableStopped(reason, delSize) => Failed(reason, delSize)
              case TableDone(chunks, t) =>
                if config.resNameOptEnable || config.repeatResOptEnable then
                  var files := WriteFile(t.files, "resources.arsc", lib.encode(chunks));
                  Repacked(Repack(apk, files, Methods(x.entries)), chunks, t.delSize)
                else Unchanged
  }

  /** Over the whole table, bytes move from the tree to `delSize` and none is lost,
      and the tree keeps unique paths. */
  lemma {:induction false} OptChunksConserve<R>(cs: seq<Chunk>, t: Tree, config: Config, regexes: seq<R>,
                                                    lib: Library<R>, entries: map<string, ZipEntry>, det: Detector, resIsDir: bool, backup: bool)
    requires UniquePaths(t.files)
    ensures var r := OptChunks(cs, t, config, regexes, lib, entries, det, resIsDir, backup);
            r.TableDone? ==> TreeSize(r.tree.files) + r.tree.delSize == TreeSize(t.files) + t.delSize
                             && UniquePaths(r.tree.files)
    decreases |cs|
  {
    if |cs| > 0 {
      var c := OptChunk(cs[0], t, config, regexes, lib, entries, det, resIsDir, backup);
      if c.ChunkDone? {
        if cs[0].TableChunk? && config.repeatResOptEnable {
          DedupConserves(cs[0].stringPool, t, entries, lib.digest, det, resIsDir, backup);
        }
        OptChunksConserve(cs[1..], c.tree, config, regexes, lib, entries, det, resIsDir, backup);
      }
    }
  }

  /** Only files listed in `res` are ever deleted: every other node of the tree,
      `resources.arsc` and `res` itself among them, is still there afterwards. */
  lemma {:induction false} OptChunksKeepOthers<R>(cs: seq<Chunk>, t: Tree, config: Config, regexes: seq<R>,
                                                      lib: Library<R>, entries: map<string, ZipEntry>, det: Detector, resIsDir: bool, backup: bool,
                                                      f: FileNode)
    requires UniquePaths(t.files)
    requires f in t.files && !IsResChild(f.path)
    ensures var r := OptChunks(cs, t, config, regexes, lib, entries, det, resIsDir, backup);
            r.TableDone? ==> f in r.tree.files
    decreases |cs|
  {
    if |cs| > 0 {
      var c := OptChunk(cs[0], t, config, regexes, lib, entries, det, resIsDir, backup);
      if c.ChunkDone? {
        if cs[0].TableChunk? && config.repeatResOptEnable {
          DedupConserves(cs[0].stringPool, t, entries, lib.digest, det, resIsDir, backup);
          DedupKeepsOthers(cs[0].stringPool, t, entries, lib.digest, det, resIsDir, backup, f);
        }
        OptChunksKeepOthers(cs[1..], c.tree, config, regexes, lib, entries, det, resIsDir, backup, f);
      }
    }
  }

  /** Once no duplicate set is left, no chunk stops the run or changes the tree. */
  lemma {:induction false} OptChunksKeepSettled<R>(cs: seq<Chunk>, t: Tree, config: Config, regexes: seq<R>,
                                                       lib: Library<R>, entries: map<string, ZipEntry>, det: Detector, resIsDir: bool, backup: bool)
    requires config.repeatResOptEnable ==> resIsDir && DupSets(t.files, entries, lib.digest, det) == Ok([])
    ensures var r := OptChunks(cs, t, config, regexes, lib, entries, det, resIsDir, backup);
            r.TableDone? && r.tree == t
    decreases |cs|
  {
    if |cs| > 0 {
      if cs[0].TableChunk? && config.repeatResOptEnable {
        DedupSettled(cs[0].stringPool, t, entries, lib.digest, det, backup);
      }
      OptChunksKeepSettled(cs[1..], t, config, regexes, lib, entries, det, resIsDir, backup);
    }
  }

  /** A completed run over a table with at least one table chunk leaves a tree with
      no duplicate set: the first chunk's pass removes them all, the later ones find none. */
  lemma {:induction false} OptChunksSettle<R>(cs: seq<Chunk>, t: Tree, config: Config, regexes: seq<R>,
                                                  lib: Library<R>, entries: map<string, ZipEntry>, det: Detector, resIsDir: bool, backup: bool)
    requires UniquePaths(t.files) && config.repeatResOptEnable
    requires OptChunks(cs, t, config, regexes, lib, entries, det, resIsDir, backup).TableDone?
    requires exists i :: 0 <= i < |cs| && cs[i].TableChunk?
    ensures resIsDir
    ensures DupSets(OptChunks(cs, t, config, regexes, lib, entries, det, resIsDir, backup).tree.files, entries, lib.digest, det) == Ok([])
    decreases |cs|
  {
    var c := OptChunk(cs[0], t, config, regexes, lib, entries, det, resIsDir, backup);
    if cs[0].TableChunk? {
      DedupSecondPass(cs[0].stringPool, t, entries, lib.digest, det, resIsDir, backup);
      OptChunksKeepSettled(cs[1..], c.tree, config, regexes, lib, entries, det, resIsDir, backup);
    } else {
      var i :| 0 <= i < |cs| && cs[i].TableChunk?;
      assert cs[1..][i - 1].TableChunk?;
      OptChunksSettle(cs[1..], t, config, regexes, lib, entries, det, resIsDir, backup);
    }
  }

  /** Optimising again a chunk a run produced changes neither the chunk nor the tree. */
  lemma ChunkRerun<R>(c0: Chunk, c: Chunk, t2: Tree, config: Config, regexes: seq<R>, lib: Library<R>,
                      entries: map<string, ZipEntry>, det: Detector, resIsDir: bool, backup: bool)
    requires Follows(c0, c, config, regexes, lib.matches)
    requires config.repeatResOptEnable && c0.TableChunk? ==> resIsDir && DupSets(t2.files, entries, lib.digest, det) == Ok([])
    ensures OptChunk(c, t2, config, regexes, lib, entries, det, resIsDir, backup) == ChunkDone(c, t2)
  {
    if c.TableChunk? {
      if config.repeatResOptEnable {
        DedupSettled(c.stringPool, t2, entries, lib.digest, det, backup);
      }
      if config.resNameOptEnable {
        var pk := RenamePackages(c.packages, KeyRenamer(config, regexes, lib.matches));
        forall i | 0 <= i < |c.packages| ensures pk[i] == c.packages[i] {
          RenameIdempotent(c0.packages[i].keyPool, regexes, lib.matches, config.resNameOptPlaceholder);
        }
        assert pk == c.packages;
      }
    }
  }

  /** Optimising again the chunks a run produced, against a tree with nothing left
      to deduplicate, changes no chunk and no file: renamed key pools rename to
      themselves and the dedup pass finds no set. */
  lemma {:induction false} OptChunksRerun<R>(cs: seq<Chunk>, cs1: seq<Chunk>, t2: Tree, config: Config,
                                                 regexes: seq<R>, lib: Library<R>, entries: map<string, ZipEntry>, det: Detector,
                                                 resIsDir: bool, backup: bool)
    requires |cs1| == |cs| && forall i :: 0 <= i < |cs| ==> Follows(cs[i], cs1[i], config, regexes, lib.matches)
    requires config.repeatResOptEnable && (exists i :: 0 <= i < |cs| && cs[i].TableChunk?)
             ==> resIsDir && DupSets(t2.files, entries, lib.digest, det) == Ok([])
    ensures OptChunks(cs1, t2, config, regexes, lib, entries, det, resIsDir, backup) == TableDone(cs1, t2)
    decreases |cs|
  {
    if |cs1| > 0 {
      ChunkRerun(cs[0], cs1[0], t2, config, regexes, lib, entries, det, resIsDir, backup);
      assert forall i :: 0 <= i < |cs| - 1 ==> cs[1..][i] == cs[i + 1] && cs1[1..][i] == cs1[i + 1];
      OptChunksRerun(cs[1..], cs1[1..], t2, config, regexes, lib, entries, det, resIsDir, backup);
      assert [cs1[0]] + cs1[1..] == cs1;
    }
  }

  /** Neither `resources.arsc` nor `res` is a file listed in `res`. */
  lemma TopNamesOutsideRes()
    ensures !IsResChild("resources.arsc") && !IsResChild("res")
  {
    assert "resources.arsc"[..4] == "reso";
  }

  /** The tree after `resources.arsc` is rewritten: the lookups find the rewritten
      table file and the same `res`, the listing of `res` is unchanged, and writing
      the same bytes again changes nothing. */
  lemma RewrittenTree(files: seq<FileNode>, arsc: FileNode, res: FileNode, enc: seq<Byte>)
    requires UniquePaths(files) && arsc in files && res in files
    requires arsc.path == "resources.arsc" && res.path == "res"
    ensures var files2 := WriteFile(files, "resources.arsc", enc);
            FindTop(files2, "resources.arsc") == Some(arsc.(content := enc))
            && FindTop(files2, "res") == Some(res)
            && ResCandidates(files2) == ResCandidates(files)
            && UniquePaths(files2)
            && WriteFile(files2, "resources.arsc", enc) == files2
  {
    var files2 := WriteFile(files, "resources.arsc", enc);
    TopNamesOutsideRes();
    WriteAgain(files, "resources.arsc", enc);
    var a :| 0 <= a < |files| && files[a] == arsc;
    assert files2[a] == arsc.(content := enc);
    FindTopUnique(files2, arsc.(content := enc));
    var b :| 0 <= b < |files| && files[b] == res;
    assert files2[b] == res;
    FindTopUnique(files2, res);
    CandidatesAfterWrite(files, "resources.arsc", enc);
  }

  /** A run that gets past every lookup and completes the table repacks the
      rewritten tree. */
  lemma DoActionRepacks<R>(names: seq<string>, x: Extracted, saved: set<string>, config: Config, lib: Library<R>, det: Detector,
                           arsc: FileNode, res: FileNode, table: ResourceTable, regexes: seq<R>, pass: TablePass)
    requires FindArchive(names).Some?
    requires FindTop(x.files, "resources.arsc") == Some(arsc) && FindTop(x.files, "res") == Some(res)
    requires lib.decode(arsc.content) == Some(table)
    requires CompileAll(config.resNameOptWhiteRegexList, lib.compile) == Ok(regexes)
    requires pass == OptChunks(table, Tree(x.files, saved, 0), config, regexes, lib, x.entries, det, res.isDirectory, true)
    requires pass.TableDone? && (config.repeatResOptEnable || config.resNameOptEnable)
    ensures DoAction(names, x, saved, config, lib, det)
            == Repacked(Repack(FindArchive(names).value, WriteFile(pass.tree.files, "resources.arsc", lib.encode(pass.chunks)),
                               Methods(x.entries)), pass.chunks, pass.tree.delSize)
  {
  }

  /** The second run, stated on the parts of a first run that completed the table. */
  lemma SecondRun<R>(names: seq<string>, x: Extracted, saved: set<string>, saved2: set<string>, config: Config,
                     lib: Library<R>, det: Detector, arsc: FileNode, res: FileNode, table: ResourceTable, regexes: seq<R>)
    requires UniquePaths(x.files) && FindArchive(names).Some?
    requires FindTop(x.files, "resources.arsc") == Some(arsc) && FindTop(x.files, "res") == Some(res)
    requires CompileAll(config.resNameOptWhiteRegexList, lib.compile) == Ok(regexes)
    requires config.repeatResOptEnable || config.resNameOptEnable
    requires var pass := OptChunks(table, Tree(x.files, saved, 0), config, regexes, lib, x.entries, det, res.isDirectory, true);
             pass.TableDone? && lib.decode(lib.encode(pass.chunks)) == Some(pass.chunks)
    ensures var pass := OptChunks(table, Tree(x.files, saved, 0), config, regexes, lib, x.entries, det, res.isDirectory, true);
            var files2 := WriteFile(pass.tree.files, "resources.arsc", lib.encode(pass.chunks));
            DoAction(names, Extracted(x.entries, files2), saved2, config, lib, det)
            == Repacked(Repack(FindArchive(names).value, files2, Methods(x.entries)), pass.chunks, 0)
  {
    var t0 := Tree(x.files, saved, 0);
    var pass := OptChunks(table, t0, config, regexes, lib, x.entries, det, res.isDirectory, true);
    var t := pass.tree;
    var enc := lib.encode(pass.chunks);
    var files2 := WriteFile(t.files, "resources.arsc", enc);
    TopNamesOutsideRes();
    OptChunksConserve(table, t0, config, regexes, lib, x.entries, det, res.isDirectory, true);
    OptChunksKeepOthers(table, t0, config, regexes, lib, x.entries, det, res.isDirectory, true, arsc);
    OptChunksKeepOthers(table, t0, config, regexes, lib, x.entries, det, res.isDirectory, true, res);
    RewrittenTree(t.files, arsc, res, enc);
    if config.repeatResOptEnable && exists i :: 0 <= i < |table| && table[i].TableChunk? {
      OptChunksSettle(table, t0, config, regexes, lib, x.entries, det, res.isDirectory, true);
    }
    OptChunksRerun(table, pass.chunks, Tree(files2, saved2, 0), config, regexes, lib, x.entries, det, res.isDirectory, true);
    DoActionRepacks(names, Extracted(x.entries, files2), saved2, config, lib, det, arsc.(content := enc), res,
                    pass.chunks, regexes, TableDone(pass.chunks, Tree(files2, saved2, 0)));
  }

  /** Running `ResourcesOptTask` again on the archive it produced, with the table codec
      reading back what it wrote, removes nothing and rewrites the same table:
      the second run repacks the same tree and reports a `delSize` of 0. */
  lemma RunTwice<R>(names: seq<string>, x: Extracted, saved: set<string>, saved2: set<string>,
                    config: Config, lib: Library<R>, det: Detector)
    requires UniquePaths(x.files)
    requires DoAction(names, x, saved, config, lib, det).Repacked?
    requires lib.decode(lib.encode(DoAction(names, x, saved, config, lib, det).table))
             == Some(DoAction(names, x, saved, config, lib, det).table)
    ensures var r := DoAction(names, x, saved, config, lib, det);
            DoAction(names, Extracted(x.entries, r.output.files), saved2, config, lib, det) == Repacked(r.output, r.table, 0)
  {
    var arsc := FindTop(x.files, "resources.arsc").value;
    var res := FindTop(x.files, "res").value;
    var table := lib.decode(arsc.content).value;
    var regexes := CompileAll(config.resNameOptWhiteRegexList, lib.compile).value;
    SecondRun(names, x, saved, saved2, config, lib, det, arsc, res, table, regexes);
  }

}

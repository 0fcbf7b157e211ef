/** The older plugin, `ResourceMonitorPlugin`: before `packageApplication` runs it
    renames every resource key to `yd`, deduplicates `res` without keeping copies of
    removed files, and always rewrites the table and repacks. */
module Monitor {
  import opened Wrappers
  import opened Md5Hex
  import opened Archive
  import opened Dedup
  import opened Pools
  import opened Settings
  import opened Cleanup
  import opened Optimizer

  /** The switches under which `ResourcesOptTask`'s chunk pass is this plugin's pass:
      both passes on, no whitelist pattern, placeholder `yd`. */
  const YdConfig := Config(true, true, [], "yd")

  /** How this plugin may change one chunk: a chunk that is not a table chunk never
      changes; a table chunk keeps the length of its string pool and has every key
      of every package replaced by `yd`. */
  predicate Renamed(c: Chunk, c2: Chunk) {
    match c
    case OtherChunk(_) => c2 == c
    case TableChunk(pool, pkgs) =>
      c2.TableChunk? && |c2.stringPool| == |pool| && |c2.packages| == |pkgs|
      && forall i :: 0 <= i < |pkgs| ==> c2.packages[i].keyPool == RenameAllYd(pkgs[i].keyPool)
  }

  /** The body of the `forEach` over table chunks: every key of every package set
      to `yd`, then the dedup pass without backup. Other chunks are passed over. */
  function MonitorChunk(c: Chunk, t: Tree, digest: seq<Byte> -> seq<Byte>, entries: map<string, ZipEntry>, det: Detector,
                        resIsDir: bool): (r: ChunkPass)
    ensures r.ChunkStopped? ==> c.TableChunk? && r.delSize >= t.delSize && PassFailure(r.reason)
    ensures r.ChunkDone? ==> Renamed(c, r.chunk) && r.tree.delSize >= t.delSize
    ensures r.ChunkDone? && c.OtherChunk? ==> r.tree == t
  {
    match c
    case OtherChunk(_) => ChunkDone(c, t)
    case TableChunk(pool, pkgs) =>
      var pkgs2 := RenamePackages(pkgs, RenameAllYd);
      match DedupPool(pool, t, entries, digest, det, resIsDir, false)
      case PoolStopped(reason, delSize) => ChunkStopped(reason, delSize)
      case PoolDone(pool2, t2) => ChunkDone(TableChunk(pool2, pkgs2), t2)
  }

  /** The chunks in file order, each processed against the tree the previous ones left. */
  function MonitorChunks(cs: seq<Chunk>, t: Tree, digest: seq<Byte> -> seq<Byte>, entries: map<string, ZipEntry>, det: Detector,
                         resIsDir: bool): (r: TablePass)
    decreases |cs|
    ensures r.TableStopped? ==> r.delSize >= t.delSize && PassFailure(r.reason)
    ensures r.TableDone? ==> |r.chunks| == |cs| && r.tree.delSize >= t.delSize
                             && forall i :: 0 <= i < |cs| ==> Renamed(cs[i], r.chunks[i])
  {
    if |cs| == 0 then TableDone([], t)
    else
      match MonitorChunk(cs[0], t, digest, entries, det, resIsDir)
      case ChunkStopped(reason, delSize) => TableStopped(reason, delSize)
      case ChunkDone(c2, t2) =>
        match MonitorChunks(cs[1..], t2, digest, entries, det, resIsDir)
        case TableStopped(reason, delSize) => TableStopped(reason, delSize)
        case TableDone(rest, t3) =>
          RenamedCons(cs, c2, rest);
          TableDone([c2] + rest, t3)
  }

  /** Chunk by chunk, a first chunk and the rest. */
  lemma RenamedCons(cs: seq<Chunk>, c2: Chunk, rest: seq<Chunk>)
    requires |cs| > 0 && |rest| == |cs| - 1
    requires Renamed(cs[0], c2)
    requires forall i :: 0 <= i < |rest| ==> Renamed(cs[1..][i], rest[i])
    ensures forall i :: 0 <= i < |cs| ==> Renamed(cs[i], ([c2] + rest)[i])
  {
    forall i | 1 <= i < |cs| ensures Renamed(cs[i], ([c2] + rest)[i]) {
      assert cs[i] == cs[1..][i - 1];
    }
  }

  /** Every key of every package of a table chunk is `yd`. */
  predicate KeysAllYd(c: Chunk) {
    c.TableChunk? ==>
      forall i, k :: 0 <= i < |c.packages| && 0 <= k < |c.packages[i].keyPool| ==> c.packages[i].keyPool[k] == "yd"
  }

  /** A chunk this plugin renamed has `yd` for every key. */
  lemma RenamedAllYd(c: Chunk, c2: Chunk)
    requires Renamed(c, c2)
    ensures KeysAllYd(c2)
  {
  }

  /** The `doFirst` action. It always repacks once the table is processed; a missing
      `.ap_` is an exception like any other. */
  function MonitorAction(names: seq<string>, x: Extracted, digest: seq<Byte> -> seq<Byte>,
                         decode: seq<Byte> -> Option<ResourceTable>, encode: ResourceTable -> seq<Byte>, det: Detector): (r: Run)
    ensures r.Failed? || r.Repacked?
    ensures r == Failed(NoArchive, 0) <==> FindArchive(names).None?
    ensures FindArchive(names).Some? && FindTop(x.files, "resources.arsc").None?
            ==> r == Failed(MissingFile("resources.arsc"), 0)
    ensures FindArchive(names).Some? && FindTop(x.files, "resources.arsc").Some? && FindTop(x.files, "res").None?
            ==> r == Failed(MissingFile("res"), 0)
    ensures r.Failed? && !PassFailure(r.reason) ==> r.delSize == 0
    ensures r.Repacked? ==> FindArchive(names) == Some(r.output.archive) && r.output.methods == Methods(x.entries)
    ensures r.Repacked? ==> forall i :: 0 <= i < |r.table| ==> KeysAllYd(r.table[i])
  {
    match FindArchive(names)
    case None => Failed(NoArchive, 0)
    case Some(apk) =>
      match FindTop(x.files, "resources.arsc")
      case None => Failed(MissingFile("resources.arsc"), 0)
      case Some(arsc) =>
        match FindTop(x.files, "res")
        case None => Failed(MissingFile("res"), 0)
        case Some(res) => MonitorTable(apk, x, arsc, res, digest, decode, encode, det)
  }

  /** The part of the action after both lookups: decode the table, process every
      chunk, write `resources.arsc` back and repack. */
  function MonitorTable(apk: string, x: Extracted, arsc: FileNode, res: FileNode, digest: seq<Byte> -> seq<Byte>,
                        decode: seq<Byte> -> Option<ResourceTable>, encode: ResourceTable -> seq<Byte>, det: Detector): (r: Run)
    ensures r.Failed? || r.Repacked?
    ensures r.Failed? ==> !r.reason.NoArchive? && !r.reason.MissingFile?
    ensures r.Failed? && !PassFailure(r.reason) ==> r.delSize == 0
    ensures r.Repacked? ==> r.output.archive == apk && r.output.methods == Methods(x.entries)
    ensures r.Repacked? ==> forall i :: 0 <= i < |r.table| ==> KeysAllYd(r.table[i])
  {
    match decode(arsc.content)
    case None => Failed(MalformedTable, 0)
    case Some(table) =>
      match MonitorChunks(table, Tree(x.files, {}, 0), digest, entries := x.entries, det := det, resIsDir := res.isDirectory)
      case TableStopped(reason, delSize) => Failed(reason, delSize)
      case TableDone(chunks, t) =>
        assert forall i :: 0 <= i < |chunks| ==> KeysAllYd(chunks[i]) by {
          forall i | 0 <= i < |chunks| ensures KeysAllYd(chunks[i]) {
            RenamedAllYd(table[i], chunks[i]);
          }
        }
        var files := WriteFile(t.files, "resources.arsc", encode(chunks));
        Repacked(Repack(apk, files, Methods(x.entries)), chunks, t.delSize)
  }

  /** On one chunk, this plugin does what `ResourcesOptTask` does with both switches
      on, no whitelist, placeholder `yd` and no backup copies. */
  lemma MonitorChunkAgrees<R>(c: Chunk, t: Tree, lib: Library<R>, entries: map<string, ZipEntry>, det: Detector, resIsDir: bool)
    ensures MonitorChunk(c, t, lib.digest, entries, det, resIsDir) == OptChunk(c, t, YdConfig, [], lib, entries, det, resIsDir, false)
  {
    if c.TableChunk? {
      var a := RenamePackages(c.packages, RenameAllYd);
      var b := RenamePackages(c.packages, KeyRenamer(YdConfig, [], lib.matches));
      forall i | 0 <= i < |c.packages| ensures a[i] == b[i] {
        RenameAllYdIsRenameKeys(c.packages[i].keyPool, lib.matches);
      }
      assert a == b;
    }
  }

  /** Over the whole table, this plugin does what `ResourcesOptTask` does with both
      switches on, no whitelist, placeholder `yd` and no backup copies. */
  lemma {:induction false} MonitorChunksAgree<R>(cs: seq<Chunk>, t: Tree, lib: Library<R>,
                                                 entries: map<string, ZipEntry>, det: Detector, resIsDir: bool)
    ensures MonitorChunks(cs, t, lib.digest, entries, det, resIsDir) == OptChunks(cs, t, YdConfig, [], lib, entries, det, resIsDir, false)
    decreases |cs|
  {
    if |cs| > 0 {
      MonitorChunkAgrees(cs[0], t, lib, entries, det, resIsDir);
      var c := MonitorChunk(cs[0], t, lib.digest, entries, det, resIsDir);
      if c.ChunkDone? {
        MonitorChunksAgree(cs[1..], c.tree, lib, entries, det, resIsDir);
      }
    }
  }

  /** Bytes move from the tree to `delSize` and none is lost; paths stay unique. */
  lemma MonitorChunksConserve(cs: seq<Chunk>, t: Tree, digest: seq<Byte> -> seq<Byte>,
                              entries: map<string, ZipEntry>, det: Detector, resIsDir: bool)
    requires UniquePaths(t.files)
    ensures var r := MonitorChunks(cs, t, digest, entries, det, resIsDir);
            r.TableDone? ==> TreeSize(r.tree.files) + r.tree.delSize == TreeSize(t.files) + t.delSize
                             && UniquePaths(r.tree.files)
  {
    var lib: Library<()> := Library(digest, _ => None, (_, _) => false, _ => None, _ => []);
    MonitorChunksAgree(cs, t, lib, entries, det, resIsDir);
    OptChunksConserve(cs, t, YdConfig, [], lib, entries, det, resIsDir, false);
  }

  /** A run that gets past every lookup and completes the table repacks the
      rewritten tree. */
  lemma MonitorRepacks(names: seq<string>, x: Extracted, digest: seq<Byte> -> seq<Byte>,
                       decode: seq<Byte> -> Option<ResourceTable>, encode: ResourceTable -> seq<Byte>, det: Detector,
                       arsc: FileNode, res: FileNode, table: ResourceTable, pass: TablePass)
    requires FindArchive(names).Some?
    requires FindTop(x.files, "resources.arsc") == Some(arsc) && FindTop(x.files, "res") == Some(res)
    requires decode(arsc.content) == Some(table)
    requires pass == MonitorChunks(table, Tree(x.files, {}, 0), digest, x.entries, det, res.isDirectory)
    requires pass.TableDone?
    ensures MonitorAction(names, x, digest, decode, encode, det)
            == Repacked(Repack(FindArchive(names).value, WriteFile(pass.tree.files, "resources.arsc", encode(pass.chunks)),
                               Methods(x.entries)), pass.chunks, pass.tree.delSize)
  {
  }

  /** Running the plugin again on the archive it produced, with the table codec
      reading back what it wrote, removes nothing and rewrites the same table: the
      keys are all `yd` already and no duplicate set is left. */
  lemma MonitorRunTwice(names: seq<string>, x: Extracted, digest: seq<Byte> -> seq<Byte>,
                        decode: seq<Byte> -> Option<ResourceTable>, encode: ResourceTable -> seq<Byte>, det: Detector)
    requires UniquePaths(x.files)
    requires MonitorAction(names, x, digest, decode, encode, det).Repacked?
    requires decode(encode(MonitorAction(names, x, digest, decode, encode, det).table))
             == Some(MonitorAction(names, x, digest, decode, encode, det).table)
    ensures var r := MonitorAction(names, x, digest, decode, encode, det);
            MonitorAction(names, Extracted(x.entries, r.output.files), digest, decode, encode, det)
            == Repacked(r.output, r.table, 0)
  {
    var lib: Library<()> := Library(digest, _ => None, (_, _) => false, decode, encode);
    var arsc := FindTop(x.files, "resources.arsc").value;
    var res := FindTop(x.files, "res").value;
    var table := decode(arsc.content).value;
    var t0 := Tree(x.files, {}, 0);
    var pass := MonitorChunks(table, t0, digest, x.entries, det, res.isDirectory);
    var t := pass.tree;
    var enc := encode(pass.chunks);
    var files2 := WriteFile(t.files, "resources.arsc", enc);
    var t2 := Tree(files2, {}, 0);
    MonitorChunksAgree(table, t0, lib, x.entries, det, res.isDirectory);
    TopNamesOutsideRes();
    OptChunksConserve(table, t0, YdConfig, [], lib, x.entries, det, res.isDirectory, false);
    OptChunksKeepOthers(table, t0, YdConfig, [], lib, x.entries, det, res.isDirectory, false, arsc);
    OptChunksKeepOthers(table, t0, YdConfig, [], lib, x.entries, det, res.isDirectory, false, res);
    RewrittenTree(t.files, arsc, res, enc);
    if exists i :: 0 <= i < |table| && table[i].TableChunk? {
      OptChunksSettle(table, t0, YdConfig, [], lib, x.entries, det, res.isDirectory, false);
    }
    OptChunksRerun(table, pass.chunks, t2, YdConfig, [], lib, x.entries, det, res.isDirectory, false);
    MonitorChunksAgree(pass.chunks, t2, lib, x.entries, det, res.isDirectory);
    MonitorRepacks(names, Extracted(x.entries, files2), digest, decode, encode, det, arsc.(content := enc), res,
                   pass.chunks, TableDone(pass.chunks, t2));
  }
}

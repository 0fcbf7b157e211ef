# ResourceOpt resource engine in Dafny

This project models the engine of the ResourceOpt Gradle plugins. The engine
works on the compiled `.ap_` resource package of an Android build:

- It looks for duplicate files directly under `res`. Files are grouped by the
  zip CRC recorded at extraction. The groups with more than one file are
  flattened into one list, which is regrouped by the MD5 string of each file's
  bytes.
- It keeps the first file of every duplicate set. Each other file is deleted
  after the first slot of the table's string pool that names it is pointed at
  the kept file. `delSize` counts the bytes deleted.
- It renames every resource key that no whitelist pattern fully matches to a
  placeholder.
- It rewrites `resources.arsc` and repacks the archive. Every entry keeps its
  recorded compression method.

Two entry points are modelled. Each takes the library calls listed below as
parameters, and a `Dedup.Detector` that chooses the duplicate detector:

- `AsWritten` is the chain exactly as both plugins write it. The CRC groups are
  flattened into one list and regrouped by MD5 over that union.
- `Corrected` splits by MD5 inside each CRC group. This is the evidently
  intended detector (see Findings).

The entry points are:

- `Optimizer.DoAction` with `AsWritten` models `ResourcesOptTask.doAction`. It
  is gated by the two `Config` switches and copies every removed file to a
  backup directory.
- `Monitor.MonitorAction` with `AsWritten` models the `doFirst` action of the
  older `ResourceMonitorPlugin`. It renames every key to `yd`, deduplicates
  without backups, and always repacks. `Monitor.MonitorChunksAgree` proves that
  its pass over the table is `ResourcesOptTask`'s pass under
  `Config(true, true, [], "yd")` without backups, for either detector.

Every pass-level property is proved for both detectors. Where the two differ,
the contract says so: as written, a deleted file shares only its MD5 string
with the file kept in its place, and the corrected detector also guarantees
the CRC. `Dedup.AsWrittenAgrees` proves that the two detectors agree whenever
no two candidates with one MD5 string have different CRCs.

Modules, leaf first:

| module | file | covers |
|---|---|---|
| `Wrappers` | wrappers.dfy | `Option` and `Result` |
| `Md5Hex` | hex.dfy | `Md5Util.bytesToHexString`, a decoder, and the round trip |
| `Grouping` | grouping.dfy | Kotlin `groupBy`, `filter { size > 1 }` and `flatten` |
| `Archive` | archive.dfy | extracted tree, zip entry records, table chunks, `listFilesFirst`, `File.extension` |
| `Dedup` | dedup.dfy | the CRC then MD5 duplicate detector, as written and corrected |
| `Pools` | pools.dfy | `indexOf`/`setString`, the removal loop, key-pool renaming |
| `Settings` | settings.dfy | `Extension`, `Config`, `toConfig`, the defaults |
| `Cleanup` | cleanup.dfy | the dedup pass of one table chunk |
| `Optimizer` | optimizer.dfy | `doAction` |
| `Monitor` | monitor.dfy | the older plugin's `doFirst` |
| `Scenarios` | scenarios.dfy | worked cases on small trees |

Several library calls are parameters rather than modelled code:

- the MD5 digest of a file's bytes;
- `String.toRegex`, which may reject a pattern;
- `Regex.matches`;
- the resources.arsc decoder, which may reject the bytes, and its encoder.

The directory listings are inputs as well: the listing of the input directory,
and the extracted tree in listing order. The order of `listFiles` is not
specified on the platform, so every result holds for whatever order it gives.

Bytes are Java `byte`s, a signed newtype in -128..127. The encoder reads each
one as `b & 0xFF`, as `Md5Util.bytesToHexString` does.

The code and the system's written description disagree in one place. The
description says every string-pool reference to a removed file is redirected.
The code (`stringPool.indexOf` followed by one `setString`) redirects only the
first slot holding the path. The model follows the code:
`Pools.Redirect`, `Pools.ApplyRedirects` and `Cleanup.DedupRedirects` state
first-slot redirection.

Each exception the two plugins can meet is an explicit failure value:

- a missing `resources.arsc` or `res`: `MissingFile`;
- a table the codec rejects: `MalformedTable`;
- a pattern that does not compile: `BadPattern`;
- `res` not being a directory, so `listFiles` gives null: `NotADirectory`;
- a listed file without a zip entry (`!!`): `NoEntry`;
- `setString(-1, ..)` on a path not in the pool: `Interrupted(PathNotInPool)`;
- `copyTo` onto an existing backup name: `Interrupted(AlreadySaved)`.

A failed run reports the `delSize` accumulated until the exception.

## Model

| member | source | states |
|---|---|---|
| Md5Hex.Unsigned | ResourcesOpt/src/main/java/com/resourcesopt/plugin/util/Md5Util.java:46 | `b & 0xFF` reads a signed byte as the value in 0..255 congruent to it modulo 256 |
| Md5Hex.ToHexString | ResourcesOpt/src/main/java/com/resourcesopt/plugin/util/Md5Util.java:47 | `Integer.toHexString` of a byte value gives one or two lowercase hex digits, one exactly when the value is below 16 |
| Md5Hex.ByteHex | ResourcesOpt/src/main/java/com/resourcesopt/plugin/util/Md5Util.java:46-51 | padding a one-digit `toHexString` with `0` always yields the high nibble's digit then the low nibble's digit |
| Md5Hex.BytesToHex | ResourcesOpt/src/main/java/com/resourcesopt/plugin/util/Md5Util.java:40-54 | the encoding is twice as long as the input, so an empty array gives the empty string |
| Md5Hex.BytesToHexString | ResourcesOpt/src/main/java/com/resourcesopt/plugin/util/Md5Util.java:40-54 | the StringBuilder loop, with its empty-input early return, produces the reference encoding of twice the input length |
| Md5Hex.HexAt | ResourcesOpt/src/main/java/com/resourcesopt/plugin/util/Md5Util.java:45-52 | characters 2i and 2i+1 are the high and low nibble digits of byte i, so input order is preserved |
| Md5Hex.BytesToHexDigits | ResourcesOpt/src/main/java/com/resourcesopt/plugin/util/Md5Util.java:45-52 | the position law holds for every byte, and every output character is in `0-9a-f` |
| Md5Hex.HexRoundTrip | ResourcesOpt/src/main/java/com/resourcesopt/plugin/util/Md5Util.java:45-53 | decoding pairs of hex digits recovers the original bytes |
| Md5Hex.HexInjective | ResourcesOpt/src/main/java/com/resourcesopt/plugin/util/Md5Util.java:40-54 | two byte arrays share an encoding exactly when they are equal |
| Grouping.GroupBy | ResourcesOpt/src/main/java/com/resourcesopt/plugin/tasks/ResourcesOptTask.kt:100-103 | the LinkedHashMap built by `groupBy` has one group per key in first-appearance order, each holding exactly that key's elements in input order |
| Grouping.KeepRepeated | ResourcesOpt/src/main/java/com/resourcesopt/plugin/tasks/ResourcesOptTask.kt:104-106 | `filter { it.value.size > 1 }` keeps exactly the groups with more than one member |
| Grouping.Flatten | ResourcesOpt/src/main/java/com/resourcesopt/plugin/tasks/ResourcesOptTask.kt:106 | `values.flatten()` holds exactly the members of the kept groups |
| Grouping.RepeatedGroups | ResourcesOpt/src/main/java/com/resourcesopt/plugin/tasks/ResourcesOptTask.kt:100-106 | each kept CRC group has at least two members, holds exactly the files with its key, and no two kept groups share a key |
| Grouping.InRepeatedGroup | ResourcesOpt/src/main/java/com/resourcesopt/plugin/tasks/ResourcesOptTask.kt:100-106 | two different elements with one key always sit together in a kept group |
| Grouping.GroupByAppend | ResourcesOpt/src/main/java/com/resourcesopt/plugin/tasks/ResourcesOptTask.kt:100-103 | grouping two joined lists that share no key gives the groups of the first followed by those of the second |
| Archive.ResCandidates | ResourcesOpt/src/main/java/com/resourcesopt/plugin/tasks/ResourcesOptTask.kt:98-99 | the dedup candidates are exactly the non-directory direct children of `res` |
| Archive.CandidatesInOrder | ResourcesOpt/src/main/java/com/resourcesopt/plugin/tasks/ResourcesOptTask.kt:98-99 | the listing keeps the tree's order and misses no non-directory child of `res`: its k-th file sits at the k-th of increasing tree positions. This order decides which file `first()` retains |
| Archive.FindTop | ResourcesOpt/src/main/java/com/resourcesopt/plugin/tasks/ResourcesOptTask.kt:82-83 | `listFilesFirst` finds a top-level node with the name, and fails exactly when there is none |
| Archive.FindTopUnique | ResourcesOpt/src/main/java/com/resourcesopt/plugin/tasks/ResourcesOptTask.kt:82-83 | in a tree with unique paths the lookup finds the one node at that path |
| Archive.FindArchive | ResourcesOpt/src/main/java/com/resourcesopt/plugin/tasks/ResourcesOptTask.kt:46 | `find { it.extension == "ap_" }` yields a listed name with that extension, and nothing exactly when no name has it |
| Archive.ApExtension | ResourcesOpt/src/main/java/com/resourcesopt/plugin/tasks/ResourcesOptTask.kt:46 | a name's extension is `ap_` exactly when the name ends in `.ap_` |
| Archive.RemovePaths | ResourcesOpt/src/main/java/com/resourcesopt/plugin/tasks/ResourcesOptTask.kt:129 | deleting keeps exactly the nodes whose paths are not deleted |
| Archive.RemoveOneSize | ResourcesOpt/src/main/java/com/resourcesopt/plugin/tasks/ResourcesOptTask.kt:128-129 | deleting one file takes exactly `length()` of it out of the tree |
| Archive.CandidatesAfterRemove | ResourcesOpt/src/main/java/com/resourcesopt/plugin/tasks/ResourcesOptTask.kt:98-99 | listing `res` after a deletion gives the earlier listing minus the deleted files |
| Archive.WriteFile | ResourcesOpt/src/main/java/com/resourcesopt/plugin/tasks/ResourcesOptTask.kt:154-156 | writing `resources.arsc` replaces the content of the node at that path and changes no other node |
| Archive.CandidatesAfterWrite | ResourcesOpt/src/main/java/com/resourcesopt/plugin/tasks/ResourcesOptTask.kt:154-156 | rewriting a file outside `res` does not change the listing of `res` |
| Archive.WriteAgain | ResourcesOpt/src/main/java/com/resourcesopt/plugin/tasks/ResourcesOptTask.kt:154-156 | writing the same bytes twice is writing them once, and paths stay unique |
| Dedup.MissingEntry | ResourcesOpt/src/main/java/com/resourcesopt/plugin/tasks/ResourcesOptTask.kt:101-103 | `unZipEntryMap[path]!!` fails exactly when some listed file has no recorded entry |
| Dedup.Md5KeyMeansDigest | ResourcesOpt/src/main/java/com/resourcesopt/plugin/tasks/ResourcesOptTask.kt:108 | two files share an MD5 string exactly when their digests are equal |
| Dedup.DupSetsBy | ResourcesOpt/src/main/java/com/resourcesopt/plugin/tasks/ResourcesOptTask.kt:106-113 | each set has at least two members and is exactly the files with its key, first one retained, the rest removed in order; no two sets share a key |
| Dedup.DupSetsCover | ResourcesOpt/src/main/java/com/resourcesopt/plugin/tasks/ResourcesOptTask.kt:106-113 | two different files with one key always end up in one set |
| Dedup.FindDuplicatesAsWritten | ResourcesOpt/src/main/java/com/resourcesopt/plugin/tasks/ResourcesOptTask.kt:98-113 | the chain as written fails exactly on a missing entry. Each set has a removed file and is exactly the files surviving the CRC filter that share its MD5 string; no two sets share an MD5 string |
| Dedup.PartnersRepeated | ResourcesOpt/src/main/java/com/resourcesopt/plugin/tasks/ResourcesOptTask.kt:100-106 | two different candidates with one CRC both survive `filter { it.value.size > 1 }` |
| Dedup.CrcPartner | ResourcesOpt/src/main/java/com/resourcesopt/plugin/tasks/ResourcesOptTask.kt:100-106 | a file that survives the CRC filter has a different candidate with its CRC |
| Dedup.AsWrittenMergesEqualDigests | ResourcesOpt/src/main/java/com/resourcesopt/plugin/tasks/ResourcesOptTask.kt:100-113 | as written, files with a CRC partner are merged on equal MD5 strings even when their CRCs differ |
| Dedup.AsWrittenMergesAcrossChecksums | ResourcesOpt/src/main/java/com/resourcesopt/plugin/tasks/ResourcesOptTask.kt:100-110 | a concrete tree and colliding digest where the as-written chain puts two files with different CRCs and different bytes in one set |
| Dedup.Regroup | ResourcesOpt/src/main/java/com/resourcesopt/plugin/tasks/ResourcesOptTask.kt:106-113 | every regrouped set comes from the MD5 split of one CRC group and removes at least one file |
| Dedup.RegroupSound | ResourcesOpt/src/main/java/com/resourcesopt/plugin/tasks/ResourcesOptTask.kt:100-113 | every regrouped set is exactly the candidates sharing its CRC and MD5 string |
| Dedup.RegroupApart | ResourcesOpt/src/main/java/com/resourcesopt/plugin/tasks/ResourcesOptTask.kt:100-113 | no two regrouped sets share the pair of keys |
| Dedup.FindDuplicates | ResourcesOpt/src/main/java/com/resourcesopt/plugin/tasks/ResourcesOptTask.kt:100-113 | the intended detector named in Findings, not the chain at these lines: it fails exactly on a missing entry; otherwise each set has at least two members, is exactly the candidates sharing its CRC and MD5 string in listing order, and no two sets share both keys |
| Dedup.SameSetIffSameKeys | ResourcesOpt/src/main/java/com/resourcesopt/plugin/tasks/ResourcesOptTask.kt:100-110 | two different candidates share a set if and only if they have equal recorded CRC and equal MD5 string |
| Dedup.Covering | ResourcesOpt/src/main/java/com/resourcesopt/plugin/tasks/ResourcesOptTask.kt:100-113 | a candidate sharing both keys with another is in a set together with it |
| Dedup.AsWrittenAgrees | ResourcesOpt/src/main/java/com/resourcesopt/plugin/tasks/ResourcesOptTask.kt:100-110 | when no two candidates with one MD5 string have different CRCs, the chain as written finds exactly the sets of the corrected detector |
| Dedup.Detect | ResourcesOpt/src/main/java/com/resourcesopt/plugin/tasks/ResourcesOptTask.kt:98-113 | either detector fails exactly when a candidate has no recorded entry; every set it finds removes at least one file and holds only candidates |
| Dedup.RetainedIsFirst | ResourcesOpt/src/main/java/com/resourcesopt/plugin/tasks/ResourcesOptTask.kt:110-113 | the retained file of a set is the first file of the regrouped list with its key |
| Dedup.DetectRemovesLater | ResourcesOpt/src/main/java/com/resourcesopt/plugin/tasks/ResourcesOptTask.kt:106-113 | over distinct candidates, a file is removed exactly when an earlier file of the regrouped list has its key. As written the list is the flattened CRC groups and the key the MD5 string; corrected it is all candidates and both keys |
| Pools.IndexOf | ResourcesOpt/src/main/java/com/resourcesopt/plugin/tasks/ResourcesOptTask.kt:123 | `indexOf` gives the first slot holding the string, and -1 exactly when none does |
| Pools.SetString | ResourcesOpt/src/main/java/com/resourcesopt/plugin/tasks/ResourcesOptTask.kt:124 | `setString` fails exactly outside the pool; otherwise it changes that slot only and keeps the length |
| Pools.Redirect | ResourcesOpt/src/main/java/com/resourcesopt/plugin/tasks/ResourcesOptTask.kt:123-124 | redirection fails exactly when the path is not in the pool; otherwise only the path's first slot now holds the retained path and the length is kept |
| Pools.GroupMoves | ResourcesOpt/src/main/java/com/resourcesopt/plugin/tasks/ResourcesOptTask.kt:114-118 | one set's removals are its removed files in order, each pointed at the retained path |
| Pools.Moves | ResourcesOpt/src/main/java/com/resourcesopt/plugin/tasks/ResourcesOptTask.kt:114-118 | the removals are exactly the removed files of all sets, each paired with its own set's retained path |
| Pools.Step | ResourcesOpt/src/main/java/com/resourcesopt/plugin/tasks/ResourcesOptTask.kt:120-129 | one removal completes exactly when its path is in the pool and its backup name is free; it then redirects the first slot, records the backup, deletes the file and adds its size; a stop keeps tree and total |
| Pools.Apply | ResourcesOpt/src/main/java/com/resourcesopt/plugin/tasks/ResourcesOptTask.kt:114-130 | a completed run deletes exactly the removed paths and adds exactly their sizes; a stopped run's total lies between; every changed slot held a deleted path and now holds a retained path |
| Pools.ApplyConserves | ResourcesOpt/src/main/java/com/resourcesopt/plugin/tasks/ResourcesOptTask.kt:128-129 | tree bytes plus `delSize` never change, whether the run completes or stops |
| Pools.ApplyRedirects | ResourcesOpt/src/main/java/com/resourcesopt/plugin/tasks/ResourcesOptTask.kt:118-124 | a completed run leaves the first slot of every deleted path holding its retained path and every other slot unchanged |
| Pools.ApplyCompletes | ResourcesOpt/src/main/java/com/resourcesopt/plugin/tasks/ResourcesOptTask.kt:120-127 | with every deleted path in the pool and every backup name free and distinct, no removal throws |
| Pools.FirstMatch | ResourcesOpt/src/main/java/com/resourcesopt/plugin/tasks/ResourcesOptTask.kt:142 | `regexes.find` returns a pattern that matches the key, and none exactly when no pattern matches |
| Pools.RenameKeys | ResourcesOpt/src/main/java/com/resourcesopt/plugin/tasks/ResourcesOptTask.kt:139-148 | the key pool keeps its length; a whitelisted key is unchanged and every other key becomes the placeholder |
| Pools.RenameKeyPool | ResourcesOpt/src/main/java/com/resourcesopt/plugin/tasks/ResourcesOptTask.kt:137-148 | the index loop with `continue` on a whitelist match gives the renamed pool |
| Pools.RenameIdempotent | ResourcesOpt/src/main/java/com/resourcesopt/plugin/tasks/ResourcesOptTask.kt:139-148 | renaming an already renamed pool changes nothing |
| Pools.RenameAllYd | ResourceMonitor/src/main/java/com/example/resourcemonitor/ResourceMonitorPlugin.kt:79-85 | every key of the pool becomes `yd` and the length is kept |
| Pools.RenameAllYdIsRenameKeys | ResourceMonitor/src/main/java/com/example/resourcemonitor/ResourceMonitorPlugin.kt:79-85 | the older renaming is the whitelist renaming with no pattern and placeholder `yd` |
| Pools.RenamePackages | ResourcesOpt/src/main/java/com/resourcesopt/plugin/tasks/ResourcesOptTask.kt:136-149 | every package's key pool is renamed, and the number of packages is kept |
| Settings.ToConfig | ResourcesOpt/src/main/java/com/resourcesopt/plugin/model/Extension.kt:9-16 | both switches, the whitelist (in order) and the placeholder are carried over unchanged |
| Settings.DefaultsAgree | ResourcesOpt/src/main/java/com/resourcesopt/plugin/model/Extension.kt:4-7 | the defaults are both switches on, no pattern and `opt`; converting the default extension gives the default `Config` |
| Settings.ToConfigInjective | ResourcesOpt/src/main/java/com/resourcesopt/plugin/model/Extension.kt:9-16 | two extensions give the same configuration exactly when they are equal |
| Cleanup.DupSets | ResourcesOpt/src/main/java/com/resourcesopt/plugin/tasks/ResourcesOptTask.kt:98-113 | listing `res` and detecting duplicates fails exactly when a listed file has no recorded entry; every set removes a file and holds only non-directory children of `res` |
| Cleanup.DedupPool | ResourcesOpt/src/main/java/com/resourcesopt/plugin/tasks/ResourcesOptTask.kt:95-131 | a non-directory `res` stops the pass with the total unchanged; a stop is a pass failure; a completed pass keeps the pool length and never lowers the total |
| Cleanup.Remove | ResourcesOpt/src/main/java/com/resourcesopt/plugin/tasks/ResourcesOptTask.kt:114-131 | applying the sets either completes, keeping the pool length, or stops with an interrupted removal; the total never drops |
| Cleanup.DupSetsWellFormed | ResourcesOpt/src/main/java/com/resourcesopt/plugin/tasks/ResourcesOptTask.kt:100-113 | for either detector, in a tree with unique paths no set holds a file twice, every member is a candidate with the retained file's key, and no two sets share a key |
| Cleanup.AsWrittenWellFormed | ResourcesOpt/src/main/java/com/resourcesopt/plugin/tasks/ResourcesOptTask.kt:100-113 | as written, the key shared within a set and kept apart between sets is the MD5 string alone |
| Cleanup.CorrectedWellFormed | ResourcesOpt/src/main/java/com/resourcesopt/plugin/tasks/ResourcesOptTask.kt:100-113 | corrected, the key shared within a set and kept apart between sets is the pair of CRC and MD5 string |
| Cleanup.DedupConserves | ResourcesOpt/src/main/java/com/resourcesopt/plugin/tasks/ResourcesOptTask.kt:118-130 | the pass moves bytes from the tree to `delSize` and loses none, and paths stay unique |
| Cleanup.DedupAccounts | ResourcesOpt/src/main/java/com/resourcesopt/plugin/tasks/ResourcesOptTask.kt:118-130 | a completed pass deleted exactly the removed files and added exactly their sizes to `delSize` |
| Cleanup.DedupRedirects | ResourcesOpt/src/main/java/com/resourcesopt/plugin/tasks/ResourcesOptTask.kt:114-124 | a completed pass leaves the pool with the first slot of every deleted path naming its retained file, and no other slot changed |
| Cleanup.DedupPoolDone | ResourcesOpt/src/main/java/com/resourcesopt/plugin/tasks/ResourcesOptTask.kt:95-131 | a completed pass found `res` to be a directory and its sets, and applied all their removals |
| Cleanup.DedupKeepsTwin | ResourcesOpt/src/main/java/com/resourcesopt/plugin/tasks/ResourcesOptTask.kt:114-129 | a deleted file was a `res` candidate. A different file with the same MD5 string stays and now fills the deleted file's first pool slot. Under the corrected detector it also has the same CRC |
| Cleanup.DedupDeletesLater | ResourcesOpt/src/main/java/com/resourcesopt/plugin/tasks/ResourcesOptTask.kt:106-129 | a completed pass deletes a node exactly when an earlier file of the regrouped listing has its key, so of each set the first listed file stays |
| Cleanup.DedupKeepsOthers | ResourcesOpt/src/main/java/com/resourcesopt/plugin/tasks/ResourcesOptTask.kt:98-99 | a node that is not a direct child of `res` survives the pass |
| Cleanup.OneOfPairDeleted | ResourcesOpt/src/main/java/com/resourcesopt/plugin/tasks/ResourcesOptTask.kt:112-129 | corrected, of two different candidates sharing both keys at least one is deleted |
| Cleanup.AsWrittenOneOfPairDeleted | ResourcesOpt/src/main/java/com/resourcesopt/plugin/tasks/ResourcesOptTask.kt:104-129 | as written, of two different files that both survive the CRC filter and share an MD5 string at least one is deleted, whatever their CRCs |
| Cleanup.StillRepeated | ResourcesOpt/src/main/java/com/resourcesopt/plugin/tasks/ResourcesOptTask.kt:100-106 | a file that survives the CRC filter after a deletion survived it before and was not deleted |
| Cleanup.DedupSecondPass | ResourcesOpt/src/main/java/com/resourcesopt/plugin/tasks/ResourcesOptTask.kt:98-130 | for either detector, after a completed pass no duplicate set is left in the tree |
| Cleanup.DedupSettled | ResourcesOpt/src/main/java/com/resourcesopt/plugin/tasks/ResourcesOptTask.kt:95-131 | with no duplicate set, the pass changes neither pool nor tree |
| Optimizer.CompileAll | ResourcesOpt/src/main/java/com/resourcesopt/plugin/tasks/ResourcesOptTask.kt:88-90 | compiling succeeds exactly when every pattern compiles, giving them in order; otherwise it names the first pattern that fails |
| Optimizer.OptChunk | ResourcesOpt/src/main/java/com/resourcesopt/plugin/tasks/ResourcesOptTask.kt:93-151 | one chunk, for either detector: only the dedup switch can stop it; with dedup off the string pool and tree are unchanged; with renaming on every key pool is renamed, else unchanged; other chunks untouched |
| Optimizer.OptChunks | ResourcesOpt/src/main/java/com/resourcesopt/plugin/tasks/ResourcesOptTask.kt:93-151 | the table pass, for either detector, keeps the chunk count, each chunk follows the switches, and with dedup off it never stops and leaves the tree as it was |
| Optimizer.Methods | ResourcesOpt/src/main/java/com/resourcesopt/plugin/tasks/ResourcesOptTask.kt:161 | every recorded entry keeps its recorded compression method |
| Optimizer.DoAction | ResourcesOpt/src/main/java/com/resourcesopt/plugin/tasks/ResourcesOptTask.kt:36-176 | `doAction` with the detector as a parameter: no `.ap_` means no run; with both switches off nothing is rewritten; a missing `resources.arsc` or `res` fails with no bytes counted; a repack keeps methods and needs a switch on; without dedup, `delSize` is 0 |
| Optimizer.OptChunksConserve | ResourcesOpt/src/main/java/com/resourcesopt/plugin/tasks/ResourcesOptTask.kt:93-151 | over all chunks, tree bytes plus `delSize` are conserved and paths stay unique |
| Optimizer.OptChunksKeepOthers | ResourcesOpt/src/main/java/com/resourcesopt/plugin/tasks/ResourcesOptTask.kt:98-99 | every node outside `res`, `resources.arsc` among them, survives the table pass |
| Optimizer.OptChunksKeepSettled | ResourcesOpt/src/main/java/com/resourcesopt/plugin/tasks/ResourcesOptTask.kt:93-151 | with nothing left to deduplicate, no chunk stops the run or changes the tree |
| Optimizer.OptChunksSettle | ResourcesOpt/src/main/java/com/resourcesopt/plugin/tasks/ResourcesOptTask.kt:93-131 | after a completed pass over a table with a table chunk, no duplicate set is left |
| Optimizer.ChunkRerun | ResourcesOpt/src/main/java/com/resourcesopt/plugin/tasks/ResourcesOptTask.kt:93-151 | processing an already processed chunk again changes neither the chunk nor the tree |
| Optimizer.OptChunksRerun | ResourcesOpt/src/main/java/com/resourcesopt/plugin/tasks/ResourcesOptTask.kt:93-151 | processing the processed table again changes no chunk and no file |
| Optimizer.TopNamesOutsideRes | ResourcesOpt/src/main/java/com/resourcesopt/plugin/tasks/ResourcesOptTask.kt:82-83 | neither `resources.arsc` nor `res` is a dedup candidate |
| Optimizer.RewrittenTree | ResourcesOpt/src/main/java/com/resourcesopt/plugin/tasks/ResourcesOptTask.kt:154-156 | after the table is rewritten, the lookups find the new table file and the same `res`, and the `res` listing is unchanged |
| Optimizer.DoActionRepacks | ResourcesOpt/src/main/java/com/resourcesopt/plugin/tasks/ResourcesOptTask.kt:152-164 | a run past every lookup with a completed table pass repacks the tree with the re-encoded table, the recorded methods and the pass's `delSize` |
| Optimizer.SecondRun | ResourcesOpt/src/main/java/com/resourcesopt/plugin/tasks/ResourcesOptTask.kt:93-164 | a second run on the repacked tree reproduces it with `delSize` 0 |
| Optimizer.RunTwice | ResourcesOpt/src/main/java/com/resourcesopt/plugin/tasks/ResourcesOptTask.kt:36-164 | running the task on its own output, with a codec that reads back what it wrote, repacks the same tree and table and removes nothing |
| Monitor.MonitorChunk | ResourceMonitor/src/main/java/com/example/resourcemonitor/ResourceMonitorPlugin.kt:76-121 | for either detector, a table chunk has every key set to `yd` and keeps its string-pool length; a stop is a pass failure; other chunks and the tree are untouched |
| Monitor.MonitorChunks | ResourceMonitor/src/main/java/com/example/resourcemonitor/ResourceMonitorPlugin.kt:76-121 | for either detector, the table pass keeps the chunk count and renames every key of every table chunk to `yd` |
| Monitor.RenamedAllYd | ResourceMonitor/src/main/java/com/example/resourcemonitor/ResourceMonitorPlugin.kt:79-85 | a processed table chunk has `yd` for every key of every package |
| Monitor.MonitorAction | ResourceMonitor/src/main/java/com/example/resourcemonitor/ResourceMonitorPlugin.kt:39-143 | `doFirst` with the detector as a parameter: the action always fails or repacks; no `.ap_`, `resources.arsc` or `res` fails before any rewrite; a repack keeps methods and has every key `yd` |
| Monitor.MonitorTable | ResourceMonitor/src/main/java/com/example/resourcemonitor/ResourceMonitorPlugin.kt:74-132 | after the lookups the action fails only with a decoding or pass failure (counting no bytes unless the pass stopped) or repacks the archive it found with the recorded methods and every key `yd` |
| Monitor.MonitorChunkAgrees | ResourceMonitor/src/main/java/com/example/resourcemonitor/ResourceMonitorPlugin.kt:79-120 | one chunk of the older plugin is `ResourcesOptTask`'s chunk pass with both switches on, no whitelist, `yd` and no backup |
| Monitor.MonitorChunksAgree | ResourceMonitor/src/main/java/com/example/resourcemonitor/ResourceMonitorPlugin.kt:76-121 | the same agreement over the whole table |
| Monitor.MonitorChunksConserve | ResourceMonitor/src/main/java/com/example/resourcemonitor/ResourceMonitorPlugin.kt:109-118 | tree bytes plus `delSize` are conserved and paths stay unique |
| Monitor.MonitorRepacks | ResourceMonitor/src/main/java/com/example/resourcemonitor/ResourceMonitorPlugin.kt:122-132 | a completed table pass rewrites `resources.arsc` and repacks with the recorded methods |
| Monitor.MonitorRunTwice | ResourceMonitor/src/main/java/com/example/resourcemonitor/ResourceMonitorPlugin.kt:39-132 | running the plugin on its own output removes nothing and rewrites the same table |
| Scenarios.IdenticalPair | ResourcesOpt/src/main/java/com/resourcesopt/plugin/tasks/ResourcesOptTask.kt:100-113 | two identical files with one CRC form one set, the first kept and the second removed, whatever the digest |
| Scenarios.PairAgrees | ResourcesOpt/src/main/java/com/resourcesopt/plugin/tasks/ResourcesOptTask.kt:100-110 | on two files with one recorded CRC the two detectors find the same sets |
| Scenarios.IdenticalPairOneSet | ResourcesOpt/src/main/java/com/resourcesopt/plugin/tasks/ResourcesOptTask.kt:98-113 | the same pair listed under `res` beside the `res` directory node gives that one set |
| Scenarios.IdenticalPairPass | ResourcesOpt/src/main/java/com/resourcesopt/plugin/tasks/ResourcesOptTask.kt:95-131 | the pass on that tree points the pool slot of the second file at the first, deletes and backs up the second, and counts its size |
| Scenarios.SameCrcDifferentDigest | ResourcesOpt/src/main/java/com/resourcesopt/plugin/tasks/ResourcesOptTask.kt:100-110 | two files with one CRC but different digests are never merged |
| Scenarios.CrossedPassAsWritten | ResourcesOpt/src/main/java/com/resourcesopt/plugin/tasks/ResourcesOptTask.kt:100-129 | as written, when two CRC pairs collide in MD5 across the pairs, a completed pass deletes the first file of one pair |
| Scenarios.CrossedPassCorrected | ResourcesOpt/src/main/java/com/resourcesopt/plugin/tasks/ResourcesOptTask.kt:100-129 | corrected, the same pass keeps the first file of each pair |
| Scenarios.CollisionPass | ResourcesOpt/src/main/java/com/resourcesopt/plugin/tasks/ResourcesOptTask.kt:100-129 | on a concrete tree and colliding digest the pass as written deletes `res/a.png` or `res/b.png`, whose bytes differ, and the corrected pass keeps both |
| Scenarios.WhitelistRenaming | ResourcesOpt/src/main/java/com/resourcesopt/plugin/tasks/ResourcesOptTask.kt:139-148 | with the whitelist `app_.*` and placeholder `opt`, only `app_name` keeps its name |

## Left out

- Zip extraction and `zipFiles` are not modelled. Extraction is an input (`Extracted`) and repacking is an output value (`Repack`), so extraction failures are not modelled.
- The resources.arsc binary codec is an external library. It is the pair of parameters `decode` and `encode`, and a table is reduced to its string and key pools.
- MD5 is a parameter (`digest`). `getMD5Str` returning `""` on an exception is not modelled, because every candidate is a regular file.
- `toRegex` and `Regex.matches` are parameters.
- Deleting and copying files, `renameTo`, `deleteRecursively`, the log appends, `println` and timing are I/O. Deletion is the tree edit `RemovePaths`. The backup copy is the set of saved names that `copyTo` must not hit.
- The final `delSize / 1024` KB report is left out, and so is 64-bit overflow of the `Long` counter: totals are unbounded naturals.
- The `listFiles` enumeration order is an input, not a choice of the model.
- Bytes are Java's signed `byte` rather than unsigned 8-bit values, because the encoder's `b & 0xFF` acts on signed bytes.
- Gradle task registration (`ResourcesOptPlugin.kt`) and the sample app are not part of this model.
- Cleanup.DedupKeepsTwin: under the as-written detector the kept file is promised the same MD5 string only, not the same CRC, because the code regroups the flattened CRC groups by MD5.
- Cleanup.DupSetsWellFormed: under the as-written detector the members of a set share the MD5 string only, not the CRC, for the same reason.
- Cleanup.OneOfPairDeleted: holds for the corrected detector. As written, two files sharing both keys are covered by Cleanup.AsWrittenOneOfPairDeleted, which needs both to survive the CRC filter.

## Findings

| source | as written | input that shows it | evidently intended | confidence | as-written member | corrected member |
|---|---|---|---|---|---|---|
| ResourcesOpt/src/main/java/com/resourcesopt/plugin/tasks/ResourcesOptTask.kt:100-110 | the CRC groups are flattened into one list and regrouped by MD5 over that union, so files from different CRC groups with equal MD5 strings are merged | `res/a.png` and `res/a2.png` with CRC 1 and bytes `[1]`, `res/b.png` and `res/b2.png` with CRC 2 and bytes `[2]`, under a digest on which `[1]` and `[2]` collide: `res/b.png` is removed in favour of `res/a.png` | files are merged only when both their CRC and their MD5 agree, so the regrouping by MD5 happens inside each CRC group | not executed | Dedup.AsWrittenMergesAcrossChecksums | Dedup.SameSetIffSameKeys |

The older plugin chains the same calls (ResourceMonitorPlugin.kt lines 88-103)
and has the same flaw. Both entry points take the detector as a parameter.
With `AsWritten` they run `Dedup.FindDuplicatesAsWritten`, the chain as
written. With `Corrected` they run `Dedup.FindDuplicates`, which splits by MD5
inside each CRC group. `Scenarios.CollisionPass` shows the difference at the
level of a whole pass: on the tree of the table row, the pass as written
deletes one of two files with different bytes, and the corrected pass keeps
both.

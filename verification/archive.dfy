/** The extracted `.ap_` package as the engine sees it: the zip entry records
    captured by extraction, the tree of extracted files, and the decoded
    resource table reduced to its string pools. */
module Archive {
  import opened Wrappers
  import opened Md5Hex

  /** How a zip entry is stored; repackaging gives each entry its recorded method. */
  datatype Method = Stored | Deflated

  /** What extraction records per entry path: the zip CRC and the compression method. */
  datatype ZipEntry = ZipEntry(crc: int, compression: Method)

  /** A node of the extracted tree. `path` is relative to the extraction root,
      `/`-separated, as `unZipDir.toURI().relativize(..).path` yields it. */
  datatype FileNode = FileNode(path: string, isDirectory: bool, content: seq<Byte>)

  /** `File.length()` of an extracted file. */
  function Size(f: FileNode): nat {
    |f.content|
  }

  /** A package chunk of the resource table, reduced to its key string pool
      (the resource names). */
  datatype Package = Package(keyPool: seq<string>)

  /** A top-level chunk of the resource table: a table chunk owns the shared
      string pool (which holds resource file paths) and its packages; other
      chunks are carried through untouched. */
  datatype Chunk =
    | TableChunk(stringPool: seq<string>, packages: seq<Package>)
    | OtherChunk(payload: seq<Byte>)

  /** The decoded `resources.arsc`: its chunks in file order. */
  type ResourceTable = seq<Chunk>

  /** `path` names an entry directly inside the top-level `res` directory. */
  predicate IsResChild(path: string) {
    |path| > 4 && path[..4] == "res/" && forall i :: 4 <= i < |path| ==> path[i] != '/'
  }

  /** `resFile.listFiles { !it.isDirectory }`: the non-directory direct children
      of `res`, in the enumeration order of the tree. */
  function ResCandidates(files: seq<FileNode>): (r: seq<FileNode>)
    ensures forall f :: f in r <==> f in files && Listed(f)
    ensures |r| <= |files|
  {
    if |files| == 0 then []
    else
      (if Listed(files[0]) then [files[0]] else [])
      + ResCandidates(files[1..])
  }

  /** A node of the tree that `listFiles` keeps: a non-directory child of `res`. */
  predicate Listed(f: FileNode) {
    !f.isDirectory && IsResChild(f.path)
  }

  /** The listing keeps the tree's order and leaves nothing out: its `k`-th file
      is the node at position `pos[k]`, the positions increase, and every position
      of a non-directory child of `res` is among them. This order decides which
      file of a duplicate set is retained. */
  lemma {:induction false} CandidatesInOrder(files: seq<FileNode>) returns (pos: seq<nat>)
    ensures |pos| == |ResCandidates(files)|
    ensures forall k :: 0 <= k < |pos| ==> pos[k] < |files| && files[pos[k]] == ResCandidates(files)[k]
    ensures forall k, l :: 0 <= k < l < |pos| ==> pos[k] < pos[l]
    ensures forall i :: 0 <= i < |files| && Listed(files[i]) ==> i in pos
  {
    if |files| == 0 {
      pos := [];
    } else {
      var p := CandidatesInOrder(files[1..]);
      var head := Listed(files[0]);
      var h: seq<nat> := if head then [0] else [];
      pos := h + Shift(p);
      assert ResCandidates(files) == (if head then [files[0]] else []) + ResCandidates(files[1..]);
      ShiftedAt(files, p, h, pos);
      ShiftIncreasing(p);
      ShiftedOrder(Shift(p), h, pos);
      ShiftedComplete(files, p, h, pos);
    }
  }

  /** Every position one further on. */
  function Shift(p: seq<nat>): (r: seq<nat>)
    ensures |r| == |p| && forall k :: 0 <= k < |p| ==> r[k] == p[k] + 1
  {
    seq(|p|, k requires 0 <= k < |p| => p[k] + 1)
  }

  /** The shifted positions of the rest of the tree point at the same files. */
  lemma ShiftedAt(files: seq<FileNode>, p: seq<nat>, h: seq<nat>, pos: seq<nat>)
    requires |files| > 0 && h == (if Listed(files[0]) then [0] else [])
    requires |p| == |ResCandidates(files[1..])|
    requires forall k :: 0 <= k < |p| ==> p[k] < |files| - 1 && files[1..][p[k]] == ResCandidates(files[1..])[k]
    requires pos == h + Shift(p)
    requires ResCandidates(files) == (if Listed(files[0]) then [files[0]] else []) + ResCandidates(files[1..])
    ensures |pos| == |ResCandidates(files)|
    ensures forall k :: 0 <= k < |pos| ==> pos[k] < |files| && files[pos[k]] == ResCandidates(files)[k]
  {
    var rest := ResCandidates(files[1..]);
    var r := ResCandidates(files);
    var sh := Shift(p);
    forall k | |h| <= k < |pos| ensures pos[k] < |files| && files[pos[k]] == r[k] {
      assert pos[k] == sh[k - |h|] == p[k - |h|] + 1 && r[k] == rest[k - |h|];
      assert files[pos[k]] == files[1..][p[k - |h|]];
    }
  }

  /** Shifting increasing positions keeps them increasing. */
  lemma ShiftIncreasing(p: seq<nat>)
    requires forall k, l :: 0 <= k < l < |p| ==> p[k] < p[l]
    ensures forall k, l :: 0 <= k < l < |Shift(p)| ==> Shift(p)[k] < Shift(p)[l]
  {
  }

  /** Increasing positions after an optional first position 0 stay increasing when
      none of them is 0. */
  lemma ShiftedOrder(sh: seq<nat>, h: seq<nat>, pos: seq<nat>)
    requires h == [] || h == [0]
    requires forall k :: 0 <= k < |sh| ==> sh[k] > 0
    requires forall k, l :: 0 <= k < l < |sh| ==> sh[k] < sh[l]
    requires pos == h + sh
    ensures forall k, l :: 0 <= k < l < |pos| ==> pos[k] < pos[l]
  {
    if h == [0] {
      forall k, l | 0 <= k < l < |pos| ensures pos[k] < pos[l] {
        assert pos[l] == sh[l - 1];
        if k > 0 {
          assert pos[k] == sh[k - 1];
        }
      }
    } else {
      assert pos == sh;
    }
  }

  /** Every listed node of the tree has its position among the shifted ones or is first. */
  lemma ShiftedComplete(files: seq<FileNode>, p: seq<nat>, h: seq<nat>, pos: seq<nat>)
    requires |files| > 0 && h == (if Listed(files[0]) then [0] else [])
    requires forall i :: 0 <= i < |files| - 1 && Listed(files[1..][i]) ==> i in p
    requires pos == h + Shift(p)
    ensures forall i :: 0 <= i < |files| && Listed(files[i]) ==> i in pos
  {
    var sh := Shift(p);
    forall i | 0 <= i < |files| && Listed(files[i]) ensures i in pos {
      if i > 0 {
        assert files[1..][i - 1] == files[i];
        var k :| 0 <= k < |p| && p[k] == i - 1;
        assert pos[k + |h|] == sh[k];
      }
    }
  }

  /** `listFilesFirst { it.name == name }` for a top-level name: the first node of
      the tree with that path, or `None` where `ResourcesOptTask`'s `first` throws. */
  function FindTop(files: seq<FileNode>, name: string): (r: Option<FileNode>)
    ensures r.None? <==> forall f :: f in files ==> f.path != name
    ensures r.Some? ==> r.value in files && r.value.path == name
  {
    if |files| == 0 then None
    else if files[0].path == name then Some(files[0])
    else FindTop(files[1..], name)
  }

  /** No two nodes of the tree share a path, as in any directory tree. */
  predicate UniquePaths(files: seq<FileNode>) {
    forall i, j :: 0 <= i < j < |files| ==> files[i].path != files[j].path
  }

  /** The tree after deleting every node whose path is in `paths`. */
  function RemovePaths(files: seq<FileNode>, paths: set<string>): (r: seq<FileNode>)
    ensures forall f :: f in r <==> f in files && f.path !in paths
    ensures |r| <= |files|
  {
    if |files| == 0 then []
    else (if files[0].path in paths then [] else [files[0]]) + RemovePaths(files[1..], paths)
  }

  /** The tree after `File.write` replaced the content of the node at `path`. */
  function WriteFile(files: seq<FileNode>, path: string, content: seq<Byte>): (r: seq<FileNode>)
    ensures |r| == |files|
    ensures forall i :: 0 <= i < |files| ==>
              r[i] == if files[i].path == path then files[i].(content := content) else files[i]
  {
    if |files| == 0 then []
    else
      [if files[0].path == path then files[0].(content := content) else files[0]]
      + WriteFile(files[1..], path, content)
  }

  /** Total bytes held by the tree. */
  function TreeSize(files: seq<FileNode>): nat {
    if |files| == 0 then 0 else Size(files[0]) + TreeSize(files[1..])
  }

  /** Deleting from a tree with a known first node. */
  lemma RemoveCons(x: FileNode, xs: seq<FileNode>, paths: set<string>)
    ensures RemovePaths([x] + xs, paths) == (if x.path in paths then [] else [x]) + RemovePaths(xs, paths)
  {
    assert ([x] + xs)[1..] == xs;
  }

  /** Listing `res` in a tree with a known first node. */
  lemma CandidatesCons(x: FileNode, xs: seq<FileNode>)
    ensures ResCandidates([x] + xs) == (if Listed(x) then [x] else []) + ResCandidates(xs)
  {
    assert ([x] + xs)[1..] == xs;
  }

  /** Deleting two path sets one after the other deletes their union. */
  lemma {:induction false} RemoveTwice(files: seq<FileNode>, a: set<string>, b: set<string>)
    ensures RemovePaths(RemovePaths(files, a), b) == RemovePaths(files, a + b)
  {
    if |files| > 0 {
      RemoveTwice(files[1..], a, b);
      var rest := RemovePaths(files[1..], a);
      if files[0].path !in a {
        assert RemovePaths(files, a) == [files[0]] + rest;
        RemoveCons(files[0], rest, b);
        assert (files[0].path in a + b) == (files[0].path in b);
      } else {
        assert RemovePaths(files, a) == rest;
        assert RemovePaths(files, a + b) == RemovePaths(files[1..], a + b);
      }
    }
  }

  /** Deleting preserves unique paths. */
  lemma {:induction false} RemoveKeepsUnique(files: seq<FileNode>, paths: set<string>)
    requires UniquePaths(files)
    ensures UniquePaths(RemovePaths(files, paths))
  {
    if |files| > 0 {
      RemoveKeepsUnique(files[1..], paths);
      var rest := RemovePaths(files[1..], paths);
      var r := RemovePaths(files, paths);
      if files[0].path !in paths {
        assert r == [files[0]] + rest;
        forall j | 0 < j < |r| ensures r[0].path != r[j].path {
          assert r[j] in rest;
          assert r[j] in files[1..];
        }
      }
    }
  }

  /** Deleting the one node at a file's path takes exactly that file's bytes out of the tree. */
  lemma {:induction false} RemoveOneSize(files: seq<FileNode>, f: FileNode)
    requires UniquePaths(files)
    requires f in files
    ensures TreeSize(RemovePaths(files, {f.path})) + Size(f) == TreeSize(files)
  {
    var r := RemovePaths(files, {f.path});
    if files[0] == f {
      assert forall g :: g in files[1..] ==> g.path != f.path by {
        forall g | g in files[1..] ensures g.path != f.path {
          var j :| 0 <= j < |files[1..]| && files[1..][j] == g;
          assert files[j + 1] == g;
        }
      }
      RemoveNothing(files[1..], {f.path});
      assert r == RemovePaths(files[1..], {f.path});
    } else {
      assert files[0].path != f.path by {
        var j :| 0 <= j < |files| && files[j] == f;
        assert j != 0;
      }
      assert f in files[1..];
      RemoveOneSize(files[1..], f);
      assert r == [files[0]] + RemovePaths(files[1..], {f.path});
      assert ([files[0]] + RemovePaths(files[1..], {f.path}))[1..] == RemovePaths(files[1..], {f.path});
    }
  }

  /** Deleting paths no node has changes nothing. */
  lemma RemoveNothing(files: seq<FileNode>, paths: set<string>)
    requires forall g :: g in files ==> g.path !in paths
    ensures RemovePaths(files, paths) == files
  {
    if |files| > 0 {
      assert files[0] in files;
      RemoveNothing(files[1..], paths);
    }
  }

  /** Listing `res` after a deletion lists the old candidates minus the deleted ones. */
  lemma {:induction false} CandidatesAfterRemove(files: seq<FileNode>, paths: set<string>)
    ensures ResCandidates(RemovePaths(files, paths)) == RemovePaths(ResCandidates(files), paths)
  {
    if |files| > 0 {
      CandidatesAfterRemove(files[1..], paths);
      var x := files[0];
      var rest := RemovePaths(files[1..], paths);
      var crest := ResCandidates(files[1..]);
      var isCand := Listed(x);
      if isCand {
        assert ResCandidates(files) == [x] + crest;
        RemoveCons(x, crest, paths);
      } else {
        assert ResCandidates(files) == crest;
      }
      if x.path in paths {
        assert RemovePaths(files, paths) == rest;
      } else {
        assert RemovePaths(files, paths) == [x] + rest;
        CandidatesCons(x, rest);
      }
    }
  }

  /** Listing `res` keeps paths unique. */
  lemma {:induction false} CandidatesUnique(files: seq<FileNode>)
    requires UniquePaths(files)
    ensures UniquePaths(ResCandidates(files))
  {
    if |files| > 0 {
      CandidatesUnique(files[1..]);
      var rest := ResCandidates(files[1..]);
      var r := ResCandidates(files);
      if Listed(files[0]) {
        assert r == [files[0]] + rest;
        forall j | 0 < j < |r| ensures r[0].path != r[j].path {
          assert r[j] in rest;
          assert r[j] in files[1..];
        }
      }
    }
  }

  /** Java's `lastIndexOf(c)`: the last position holding `c`, or -1. */
  function LastIndexOf(s: string, c: char): (i: int)
    ensures -1 <= i < |s|
    ensures i == -1 <==> c !in s
    ensures 0 <= i ==> s[i] == c && forall j :: i < j < |s| ==> s[j] != c
  {
    if |s| == 0 then -1
    else if s[|s| - 1] == c then |s| - 1
    else
      var i := LastIndexOf(s[..|s| - 1], c);
      assert s == s[..|s| - 1] + [s[|s| - 1]];
      i
  }

  /** Kotlin's `File.extension`: the text after the last `.` of the name, or "" without one. */
  function FileExtension(name: string): string {
    var i := LastIndexOf(name, '.');
    if i < 0 then "" else name[i + 1..]
  }

  /** A name ending in `.ap_` has the `ap_` extension. */
  lemma ApSuffixExtension(name: string)
    requires |name| >= 4 && name[|name| - 4..] == ".ap_"
    ensures FileExtension(name) == "ap_"
  {
    var n := |name| - 4;
    assert name[n] == '.';
    assert forall j :: n < j < |name| ==> name[j] != '.' by {
      forall j | n < j < |name| ensures name[j] != '.' {
        assert name[j] == name[n..][j - n];
      }
    }
    assert LastIndexOf(name, '.') == n;
    assert name[n + 1..] == name[n..][1..];
  }

  /** A name with the `ap_` extension ends in `.ap_`. */
  lemma ExtensionApSuffix(name: string)
    requires FileExtension(name) == "ap_"
    ensures |name| >= 4 && name[|name| - 4..] == ".ap_"
  {
    var i := LastIndexOf(name, '.');
    assert i >= 0 && name[i + 1..] == "ap_";
    assert name[|name| - 4..] == [name[i]] + name[i + 1..];
  }

  /** A name has the `ap_` extension exactly when it ends with `.ap_`. */
  lemma ApExtension(name: string)
    ensures FileExtension(name) == "ap_" <==> |name| >= 4 && name[|name| - 4..] == ".ap_"
  {
    if |name| >= 4 && name[|name| - 4..] == ".ap_" {
      ApSuffixExtension(name);
    }
    if FileExtension(name) == "ap_" {
      ExtensionApSuffix(name);
    }
  }

  /** Writing a file that is not listed in `res` leaves the listing of `res` as it was. */
  lemma {:induction false} CandidatesAfterWrite(files: seq<FileNode>, path: string, content: seq<Byte>)
    requires !IsResChild(path)
    ensures ResCandidates(WriteFile(files, path, content)) == ResCandidates(files)
  {
    if |files| > 0 {
      var w := WriteFile(files, path, content);
      assert w[1..] == WriteFile(files[1..], path, content);
      CandidatesAfterWrite(files[1..], path, content);
      assert w[0].path == files[0].path && w[0].isDirectory == files[0].isDirectory;
      assert Listed(w[0]) ==> w[0] == files[0];
    }
  }

  /** Writing the same content twice is writing it once, and no path changes. */
  lemma WriteAgain(files: seq<FileNode>, path: string, content: seq<Byte>)
    ensures WriteFile(WriteFile(files, path, content), path, content) == WriteFile(files, path, content)
    ensures UniquePaths(files) ==> UniquePaths(WriteFile(files, path, content))
  {
    var w := WriteFile(files, path, content);
    assert forall i :: 0 <= i < |w| ==> w[i].path == files[i].path;
  }

  /** In a tree with unique paths, the lookup by path finds the one node with that path. */
  lemma FindTopUnique(files: seq<FileNode>, f: FileNode)
    requires UniquePaths(files) && f in files
    ensures FindTop(files, f.path) == Some(f)
  {
    var g := FindTop(files, f.path).value;
    var i :| 0 <= i < |files| && files[i] == f;
    var j :| 0 <= j < |files| && files[j] == g;
    assert i == j;
  }

  /** `listFiles().find { it.extension == "ap_" }` over the names of the input
      directory, in listing order. */
  function FindArchive(names: seq<string>): (r: Option<string>)
    ensures r.None? <==> forall n :: n in names ==> FileExtension(n) != "ap_"
    ensures r.Some? ==> r.value in names && FileExtension(r.value) == "ap_"
  {
    if |names| == 0 then None
    else if FileExtension(names[0]) == "ap_" then Some(names[0])
    else FindArchive(names[1..])
  }
}

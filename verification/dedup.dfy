/** Duplicate detection over the non-directory children of `res`: group by the
    recorded zip CRC, keep groups with more than one member, regroup by MD5
    string, keep groups with more than one member again, and in each group retain
    the first file and remove the rest. */
module Dedup {
  import opened Wrappers
  import opened Grouping
  import opened Archive
  import opened Md5Hex

  /** One duplicate set, as `Pair(it.value.first(), it.value.drop(1))`. */
  datatype DupGroup = DupGroup(retained: FileNode, removed: seq<FileNode>)

  /** Why detection stopped: `unZipEntryMap[path]!!` found no entry for a listed file. */
  datatype DedupError = NoZipEntry(path: string)

  /** The files of a duplicate set, retained one first. */
  function Members(d: DupGroup): seq<FileNode> {
    [d.retained] + d.removed
  }

  /** The recorded CRC of a file; consulted only once every candidate has an entry. */
  function CrcKey(entries: map<string, ZipEntry>): FileNode -> int {
    (f: FileNode) => if f.path in entries then entries[f.path].crc else 0
  }

  /** `Md5Util.getMD5Str(file)`: the hexadecimal string of the file's MD5 digest,
      the digest itself being a parameter. */
  function Md5Key(digest: seq<Byte> -> seq<Byte>): FileNode -> string {
    (f: FileNode) => BytesToHex(digest(f.content))
  }

  /** The pair of keys two files must share to be duplicates. */
  function DupKey(entries: map<string, ZipEntry>, digest: seq<Byte> -> seq<Byte>): FileNode -> (int, string) {
    (f: FileNode) => (CrcKey(entries)(f), Md5Key(digest)(f))
  }

  /** Two files have the same MD5 string exactly when their digests are equal. */
  lemma {:induction false} Md5KeyMeansDigest(digest: seq<Byte> -> seq<Byte>, a: FileNode, b: FileNode)
    ensures Md5Key(digest)(a) == Md5Key(digest)(b) <==> digest(a.content) == digest(b.content)
  {
    HexInjective(digest(a.content), digest(b.content));
  }

  /** The first listed candidate without a zip entry, if any. */
  function MissingEntry(cands: seq<FileNode>, entries: map<string, ZipEntry>): (r: Option<string>)
    ensures r.None? <==> forall f :: f in cands ==> f.path in entries
    ensures r.Some? ==> r.value !in entries && exists f :: f in cands && f.path == r.value
  {
    if |cands| == 0 then None
    else if cands[0].path !in entries then Some(cands[0].path)
    else MissingEntry(cands[1..], entries)
  }

  /** A group of at least one file split into its first member and the rest. */
  function Split<K>(g: Group<K, FileNode>): (d: DupGroup)
    requires |g.members| > 0
    ensures Members(d) == g.members
  {
    DupGroup(g.members[0], g.members[1..])
  }

  /** `map { Pair(it.value.first(), it.value.drop(1)) }` over groups that all have members. */
  function SplitAll<K>(gs: seq<Group<K, FileNode>>): (ds: seq<DupGroup>)
    requires forall i :: 0 <= i < |gs| ==> |gs[i].members| > 0
    ensures |ds| == |gs|
    ensures forall i :: 0 <= i < |gs| ==> ds[i] == Split(gs[i])
  {
    if |gs| == 0 then [] else [Split(gs[0])] + SplitAll(gs[1..])
  }

  /** `groupBy(key).filter { it.value.size > 1 }.map { Pair(it.value.first(),
      it.value.drop(1)) }`: the duplicate sets of `xs` under one key. */
  function DupSetsBy<K(==,!new)>(xs: seq<FileNode>, key: FileNode -> K): (ds: seq<DupGroup>)
    ensures forall d :: d in ds ==> |d.removed| >= 1 && Members(d) == Select(xs, key, key(d.retained))
    ensures forall i, j :: 0 <= i < j < |ds| ==> key(ds[i].retained) != key(ds[j].retained)
  {
    var kept := KeepRepeated(GroupBy(xs, key));
    RepeatedGroups(xs, key);
    SplitKept(xs, key, kept);
    SplitAll(kept)
  }

  /** Splitting repeated groups with distinct keys gives sets that each hold the
      elements of one key, with distinct keys. */
  lemma SplitKept<K(!new)>(xs: seq<FileNode>, key: FileNode -> K, kept: seq<Group<K, FileNode>>)
    requires forall g :: g in kept ==> |g.members| > 1 && g.members == Select(xs, key, g.key)
    requires Distinct(Keys(kept))
    ensures forall i :: 0 <= i < |kept| ==> |kept[i].members| > 1
    ensures forall d :: d in SplitAll(kept) ==> |d.removed| >= 1 && Members(d) == Select(xs, key, key(d.retained))
    ensures forall i, j :: 0 <= i < j < |SplitAll(kept)| ==>
              key(SplitAll(kept)[i].retained) != key(SplitAll(kept)[j].retained)
  {
    forall i | 0 <= i < |kept| ensures |kept[i].members| > 1 {
      assert kept[i] in kept;
    }
    var ds := SplitAll(kept);
    forall i | 0 <= i < |ds|
      ensures key(ds[i].retained) == kept[i].key
      ensures Members(ds[i]) == Select(xs, key, kept[i].key)
    {
      assert kept[i] in kept;
      assert ds[i].retained in Select(xs, key, kept[i].key);
    }
    forall i, j | 0 <= i < j < |ds| ensures key(ds[i].retained) != key(ds[j].retained) {
      assert Keys(kept)[i] != Keys(kept)[j];
    }
  }

  /** Two different files with one key are together in one of the duplicate sets. */
  lemma {:induction false} DupSetsCover<K(!new)>(xs: seq<FileNode>, key: FileNode -> K, a: FileNode, b: FileNode)
    returns (d: DupGroup)
    requires a in xs && b in xs && a != b && key(a) == key(b)
    ensures d in DupSetsBy(xs, key) && a in Members(d) && b in Members(d)
  {
    var kept := KeepRepeated(GroupBy(xs, key));
    RepeatedGroups(xs, key);
    var g := InRepeatedGroup(xs, key, a, b);
    var i :| 0 <= i < |kept| && kept[i] == g;
    assert forall j :: 0 <= j < |kept| ==> |kept[j].members| > 1 by {
      forall j | 0 <= j < |kept| ensures |kept[j].members| > 1 {
        assert kept[j] in kept;
      }
    }
    var ds := SplitAll(kept);
    assert DupSetsBy(xs, key) == ds;
    d := ds[i];
    assert Members(d) == g.members;
  }

  // ----- As written: MD5 regrouping over the union of all CRC groups -----

  /** The files of the CRC groups with more than one member, group after group. */
  function CrcRepeated(cands: seq<FileNode>, crc: FileNode -> int): (flat: seq<FileNode>)
    ensures forall x :: x in flat ==> x in cands
  {
    var byCrc := KeepRepeated(GroupBy(cands, crc));
    var flat := Flatten(byCrc);
    assert forall x :: x in flat ==> x in cands by {
      forall x | x in flat ensures x in cands {
        var g :| g in byCrc && x in g.members;
        var i :| 0 <= i < |GroupBy(cands, crc)| && GroupBy(cands, crc)[i] == g;
      }
    }
    flat
  }

  /** The pipeline as `ResourcesOptTask` chains it: `groupBy(crc).filter(size > 1)
      .values.flatten().groupBy(md5).filter(size > 1).map(first, drop(1))`. */
  function FindDuplicatesAsWritten(cands: seq<FileNode>, entries: map<string, ZipEntry>,
                                   digest: seq<Byte> -> seq<Byte>): (r: Result<seq<DupGroup>, DedupError>)
    ensures r.Err? <==> exists f :: f in cands && f.path !in entries
    ensures r.Ok? ==> forall d :: d in r.value ==>
              |d.removed| >= 1 &&
              forall f :: f in Members(d) ==> f in cands && Md5Key(digest)(f) == Md5Key(digest)(d.retained)
    ensures r.Ok? ==> forall d :: d in r.value ==>
              Members(d) == Select(CrcRepeated(cands, CrcKey(entries)), Md5Key(digest), Md5Key(digest)(d.retained))
    ensures r.Ok? ==> Apart(r.value, Md5Key(digest))
  {
    match MissingEntry(cands, entries)
    case Some(p) => Err(NoZipEntry(p))
    case None => Ok(DupSetsBy(CrcRepeated(cands, CrcKey(entries)), Md5Key(digest)))
  }

  /** As written, any two different files that each have a CRC partner and that
      share an MD5 string end up in one group. */
  lemma {:induction false} AsWrittenMergesEqualDigests(cands: seq<FileNode>, entries: map<string, ZipEntry>,
                                    digest: seq<Byte> -> seq<Byte>, a: FileNode, a2: FileNode, b: FileNode, b2: FileNode)
    requires forall f :: f in cands ==> f.path in entries
    requires a in cands && a2 in cands && a != a2 && CrcKey(entries)(a) == CrcKey(entries)(a2)
    requires b in cands && b2 in cands && b != b2 && CrcKey(entries)(b) == CrcKey(entries)(b2)
    requires a != b && Md5Key(digest)(a) == Md5Key(digest)(b)
    ensures FindDuplicatesAsWritten(cands, entries, digest).Ok?
    ensures exists d :: d in FindDuplicatesAsWritten(cands, entries, digest).value && a in Members(d) && b in Members(d)
  {
    var crc := CrcKey(entries);
    var byCrc := KeepRepeated(GroupBy(cands, crc));
    var ga := InRepeatedGroup(cands, crc, a, a2);
    var gb := InRepeatedGroup(cands, crc, b, b2);
    var flat := CrcRepeated(cands, crc);
    assert flat == Flatten(byCrc);
    assert a in flat && b in flat;
    var d := DupSetsCover(flat, Md5Key(digest), a, b);
    assert FindDuplicatesAsWritten(cands, entries, digest) == Ok(DupSetsBy(flat, Md5Key(digest)));
  }

  /** The four files of the counterexample: two with CRC 1 and content [1], two
      with CRC 2 and content [2]. */
  const fileA := FileNode("res/a.png", false, [1])
  const fileA2 := FileNode("res/a2.png", false, [1])
  const fileB := FileNode("res/b.png", false, [2])
  const fileB2 := FileNode("res/b2.png", false, [2])

  /** Recorded entries for the counterexample: a different CRC for each content. */
  function CollisionEntries(): map<string, ZipEntry> {
    map["res/a.png" := ZipEntry(1, Stored), "res/a2.png" := ZipEntry(1, Stored),
        "res/b.png" := ZipEntry(2, Stored), "res/b2.png" := ZipEntry(2, Stored)]
  }

  /** A digest under which the two different contents collide. */
  function CollidingDigest(): seq<Byte> -> seq<Byte> {
    _ => [0]
  }

  /** As written, an MD5 collision between files of different CRC merges them:
      `res/b.png` would be redirected to `res/a.png` although their bytes differ. */
  lemma {:induction false} AsWrittenMergesAcrossChecksums()
    ensures var r := FindDuplicatesAsWritten([fileA, fileA2, fileB, fileB2], CollisionEntries(), CollidingDigest());
            r.Ok? && exists d :: d in r.value && fileA in Members(d) && fileB in Members(d)
    ensures CrcKey(CollisionEntries())(fileA) != CrcKey(CollisionEntries())(fileB)
    ensures fileA.content != fileB.content
  {
    var cands := [fileA, fileA2, fileB, fileB2];
    AsWrittenMergesEqualDigests(cands, CollisionEntries(), CollidingDigest(), fileA, fileA2, fileB, fileB2);
  }

  // ----- Corrected: MD5 regrouping inside each CRC group -----

  /** No two duplicate sets have retained files with one key. */
  predicate Apart<K(==)>(ds: seq<DupGroup>, key: FileNode -> K) {
    forall i, j :: 0 <= i < j < |ds| ==> key(ds[i].retained) != key(ds[j].retained)
  }

  /** For every CRC group, in order, the duplicate sets of its members by MD5. */
  function Regroup(gs: seq<Group<int, FileNode>>, md5: FileNode -> string): (ds: seq<DupGroup>)
    ensures forall d :: d in ds ==> |d.removed| >= 1 && exists i :: 0 <= i < |gs| && d in DupSetsBy(gs[i].members, md5)
  {
    if |gs| == 0 then []
    else
      var part := DupSetsBy(gs[0].members, md5);
      var rest := Regroup(gs[1..], md5);
      assert forall d :: d in rest ==> exists i :: 0 <= i < |gs| && d in DupSetsBy(gs[i].members, md5) by {
        forall d | d in rest ensures exists i :: 0 <= i < |gs| && d in DupSetsBy(gs[i].members, md5) {
          var i :| 0 <= i < |gs| - 1 && d in DupSetsBy(gs[1..][i].members, md5);
          assert gs[1..][i] == gs[i + 1];
        }
      }
      part + rest
  }

  /** The duplicate sets of one CRC group share its CRC and are exactly the
      candidates with their pair of keys. */
  lemma {:induction false} PartSound(g: Group<int, FileNode>, cands: seq<FileNode>, crc: FileNode -> int,
                                     md5: FileNode -> string, key: FileNode -> (int, string), d: DupGroup)
    requires g.members == Select(cands, crc, g.key)
    requires forall x :: key(x) == (crc(x), md5(x))
    requires d in DupSetsBy(g.members, md5)
    ensures crc(d.retained) == g.key
    ensures Members(d) == Select(cands, key, key(d.retained))
  {
    assert d.retained in Members(d);
    SelectSelect(cands, crc, md5, key, g.key, md5(d.retained));
  }

  /** Every regrouped set is exactly the candidates sharing its pair of keys, and
      its CRC is the key of one of the CRC groups. */
  lemma {:induction false} RegroupSound(gs: seq<Group<int, FileNode>>, cands: seq<FileNode>, crc: FileNode -> int,
                                        md5: FileNode -> string, key: FileNode -> (int, string), d: DupGroup)
    requires forall i :: 0 <= i < |gs| ==> gs[i].members == Select(cands, crc, gs[i].key)
    requires forall x :: key(x) == (crc(x), md5(x))
    requires d in Regroup(gs, md5)
    ensures |d.removed| >= 1 && crc(d.retained) in Keys(gs)
    ensures Members(d) == Select(cands, key, key(d.retained))
  {
    var i :| 0 <= i < |gs| && d in DupSetsBy(gs[i].members, md5);
    PartSound(gs[i], cands, crc, md5, key, d);
    assert Keys(gs)[i] == gs[i].key;
  }

  /** Regrouping CRC groups with distinct keys yields sets with distinct key pairs. */
  lemma {:induction false} RegroupApart(gs: seq<Group<int, FileNode>>, cands: seq<FileNode>, crc: FileNode -> int,
                                        md5: FileNode -> string, key: FileNode -> (int, string))
    requires Distinct(Keys(gs))
    requires forall i :: 0 <= i < |gs| ==> gs[i].members == Select(cands, crc, gs[i].key)
    requires forall x :: key(x) == (crc(x), md5(x))
    ensures Apart(Regroup(gs, md5), key)
  {
    if |gs| > 0 {
      var part := DupSetsBy(gs[0].members, md5);
      var tail := gs[1..];
      var rest := Regroup(tail, md5);
      TailDistinct(gs);
      RegroupApart(tail, cands, crc, md5, key);
      forall x, y | x in part && y in rest ensures key(x.retained) != key(y.retained) {
        PartSound(gs[0], cands, crc, md5, key, x);
        RegroupSound(tail, cands, crc, md5, key, y);
        var k :| 0 <= k < |tail| && Keys(tail)[k] == crc(y.retained);
        assert tail[k] in tail;
      }
      assert Apart(part, key) by {
        forall i, j | 0 <= i < j < |part| ensures key(part[i].retained) != key(part[j].retained) {
          assert md5(part[i].retained) != md5(part[j].retained);
        }
      }
      ApartConcat(part, rest, key);
    }
  }

  /** Two lists of sets with distinct keys and no key in common join into one. */
  lemma ApartConcat<K>(a: seq<DupGroup>, b: seq<DupGroup>, key: FileNode -> K)
    requires Apart(a, key) && Apart(b, key)
    requires forall x, y :: x in a && y in b ==> key(x.retained) != key(y.retained)
    ensures Apart(a + b, key)
  {
    var ds := a + b;
    forall i, j | 0 <= i < j < |ds| ensures key(ds[i].retained) != key(ds[j].retained) {
      if j < |a| {
        assert ds[i] == a[i] && ds[j] == a[j];
      } else if i >= |a| {
        assert ds[i] == b[i - |a|] && ds[j] == b[j - |a|];
      } else {
        assert ds[i] == a[i] && ds[i] in a;
        assert ds[j] == b[j - |a|] && ds[j] in b;
      }
    }
  }

  /** The duplicate sets of a CRC group are part of the regrouped output. */
  lemma {:induction false} RegroupCovers(gs: seq<Group<int, FileNode>>, md5: FileNode -> string, k: nat, d: DupGroup)
    requires k < |gs| && d in DupSetsBy(gs[k].members, md5)
    ensures d in Regroup(gs, md5)
  {
    if k > 0 {
      assert gs[1..][k - 1] == gs[k];
      RegroupCovers(gs[1..], md5, k - 1, d);
    }
  }

  /** The CRC groups with more than one member: each is the candidates with its CRC,
      and no two share a CRC. */
  lemma CrcGroups(cands: seq<FileNode>, crc: FileNode -> int)
    ensures var kept := KeepRepeated(GroupBy(cands, crc));
            Distinct(Keys(kept)) && forall i :: 0 <= i < |kept| ==> kept[i].members == Select(cands, crc, kept[i].key)
  {
    var kept := KeepRepeated(GroupBy(cands, crc));
    RepeatedGroups(cands, crc);
    forall i | 0 <= i < |kept| ensures kept[i].members == Select(cands, crc, kept[i].key) {
      assert kept[i] in kept;
    }
  }

  /** The corrected pipeline: files are regrouped by MD5 only inside their own
      CRC group, so a duplicate set is exactly the candidates sharing both keys. */
  function FindDuplicates(cands: seq<FileNode>, entries: map<string, ZipEntry>,
                          digest: seq<Byte> -> seq<Byte>): (r: Result<seq<DupGroup>, DedupError>)
    ensures r.Err? <==> exists f :: f in cands && f.path !in entries
    ensures r.Ok? ==> forall d :: d in r.value ==>
              |d.removed| >= 1 && Members(d) == Select(cands, DupKey(entries, digest), DupKey(entries, digest)(d.retained))
    ensures r.Ok? ==> Apart(r.value, DupKey(entries, digest))
  {
    match MissingEntry(cands, entries)
    case Some(p) => Err(NoZipEntry(p))
    case None =>
      var crc := CrcKey(entries);
      var md5 := Md5Key(digest);
      var key := DupKey(entries, digest);
      var kept := KeepRepeated(GroupBy(cands, crc));
      CrcGroups(cands, crc);
      var ds := Regroup(kept, md5);
      assert forall d :: d in ds ==> |d.removed| >= 1 && Members(d) == Select(cands, key, key(d.retained)) by {
        forall d | d in ds ensures |d.removed| >= 1 && Members(d) == Select(cands, key, key(d.retained)) {
          RegroupSound(kept, cands, crc, md5, key, d);
        }
      }
      RegroupApart(kept, cands, crc, md5, key);
      Ok(ds)
  }

  /** Two different candidates are in one duplicate set exactly when they share
      both the recorded CRC and the MD5 string. */
  lemma {:induction false} SameSetIffSameKeys(cands: seq<FileNode>, entries: map<string, ZipEntry>,
                           digest: seq<Byte> -> seq<Byte>, a: FileNode, b: FileNode)
    requires FindDuplicates(cands, entries, digest).Ok?
    requires a in cands && b in cands && a != b
    ensures (exists d :: d in FindDuplicates(cands, entries, digest).value && a in Members(d) && b in Members(d))
            <==> CrcKey(entries)(a) == CrcKey(entries)(b) && Md5Key(digest)(a) == Md5Key(digest)(b)
  {
    var key := DupKey(entries, digest);
    if key(a) == key(b) {
      var d := Covering(cands, entries, digest, a, b);
    }
  }

  /** A candidate sharing both keys with another one is covered by a duplicate set. */
  lemma {:induction false} Covering(cands: seq<FileNode>, entries: map<string, ZipEntry>,
                 digest: seq<Byte> -> seq<Byte>, a: FileNode, b: FileNode) returns (d: DupGroup)
    requires FindDuplicates(cands, entries, digest).Ok?
    requires a in cands && b in cands && a != b
    requires DupKey(entries, digest)(a) == DupKey(entries, digest)(b)
    ensures d in FindDuplicates(cands, entries, digest).value && a in Members(d) && b in Members(d)
  {
    var crc := CrcKey(entries);
    var md5 := Md5Key(digest);
    var kept := KeepRepeated(GroupBy(cands, crc));
    CrcGroups(cands, crc);
    var g := InRepeatedGroup(cands, crc, a, b);
    var k :| 0 <= k < |kept| && kept[k] == g;
    d := DupSetsCover(g.members, md5, a, b);
    RegroupCovers(kept, md5, k, d);
    assert FindDuplicates(cands, entries, digest).value == Regroup(kept, md5);
  }
  // ----- How the two pipelines relate -----

  /** The CRC groups with more than one member, flattened, hold no file twice when
      the candidates hold none. */
  lemma CrcRepeatedDistinct(cands: seq<FileNode>, crc: FileNode -> int)
    requires Distinct(cands)
    ensures Distinct(CrcRepeated(cands, crc))
  {
    CrcGroups(cands, crc);
    FlattenDistinct(KeepRepeated(GroupBy(cands, crc)), cands, crc);
  }

  /** Two different candidates with one CRC are both among the flattened CRC groups. */
  lemma PartnersRepeated(cands: seq<FileNode>, crc: FileNode -> int, x: FileNode, y: FileNode)
    requires x in cands && y in cands && x != y && crc(x) == crc(y)
    ensures x in CrcRepeated(cands, crc) && y in CrcRepeated(cands, crc)
  {
    var g := InRepeatedGroup(cands, crc, x, y);
    assert CrcRepeated(cands, crc) == Flatten(KeepRepeated(GroupBy(cands, crc)));
  }

  /** A file among the flattened CRC groups of candidates without repeats has a
      different candidate with its CRC. */
  lemma CrcPartner(cands: seq<FileNode>, crc: FileNode -> int, x: FileNode) returns (y: FileNode)
    requires Distinct(cands) && x in CrcRepeated(cands, crc)
    ensures y in cands && y != x && crc(y) == crc(x)
  {
    var kept := KeepRepeated(GroupBy(cands, crc));
    assert CrcRepeated(cands, crc) == Flatten(kept);
    var g :| g in kept && x in g.members;
    RepeatedGroups(cands, crc);
    SelectDistinct(cands, crc, g.key);
    assert g.members[0] != g.members[1];
    if g.members[0] == x {
      y := g.members[1];
    } else {
      y := g.members[0];
    }
  }

  /** No two candidates with the same MD5 string have different recorded CRCs:
      equal contents always have equal checksums, so only an MD5 collision between
      different contents breaks this. */
  predicate NoCrossCollision(cands: seq<FileNode>, entries: map<string, ZipEntry>, digest: seq<Byte> -> seq<Byte>) {
    forall x, y :: x in cands && y in cands && Md5Key(digest)(x) == Md5Key(digest)(y) ==> CrcKey(entries)(x) == CrcKey(entries)(y)
  }

  /** Splitting two joined group lists splits each. */
  lemma {:induction false} SplitAllAppend<K>(a: seq<Group<K, FileNode>>, b: seq<Group<K, FileNode>>)
    requires forall i :: 0 <= i < |a| ==> |a[i].members| > 0
    requires forall i :: 0 <= i < |b| ==> |b[i].members| > 0
    ensures forall i :: 0 <= i < |a + b| ==> |(a + b)[i].members| > 0
    ensures SplitAll(a + b) == SplitAll(a) + SplitAll(b)
  {
    if |a| == 0 {
      assert a + b == b;
    } else {
      assert (a + b)[0] == a[0] && (a + b)[1..] == a[1..] + b;
      SplitAllAppend(a[1..], b);
    }
  }

  /** The duplicate sets of two joined lists that share no key are those of each. */
  lemma DupSetsByAppend<K(!new)>(a: seq<FileNode>, b: seq<FileNode>, key: FileNode -> K)
    requires forall x, y :: x in a && y in b ==> key(x) != key(y)
    ensures DupSetsBy(a + b, key) == DupSetsBy(a, key) + DupSetsBy(b, key)
  {
    GroupByAppend(a, b, key);
    var ka := KeepRepeated(GroupBy(a, key));
    var kb := KeepRepeated(GroupBy(b, key));
    KeepRepeatedAppend(GroupBy(a, key), GroupBy(b, key));
    assert forall i :: 0 <= i < |ka| ==> ka[i] in ka;
    assert forall i :: 0 <= i < |kb| ==> kb[i] in kb;
    SplitAllAppend(ka, kb);
  }

  /** When no MD5 string is shared across CRC groups, regrouping inside each CRC
      group is regrouping their union. */
  lemma {:induction false} RegroupFlat(gs: seq<Group<int, FileNode>>, cands: seq<FileNode>, crc: FileNode -> int,
                                       md5: FileNode -> string)
    requires Distinct(Keys(gs))
    requires forall i :: 0 <= i < |gs| ==> gs[i].members == Select(cands, crc, gs[i].key)
    requires forall x, y :: x in cands && y in cands && md5(x) == md5(y) ==> crc(x) == crc(y)
    ensures Regroup(gs, md5) == DupSetsBy(Flatten(gs), md5)
  {
    if |gs| == 0 {
      assert GroupBy(Flatten(gs), md5) == [];
    } else {
      var tail := gs[1..];
      TailDistinct(gs);
      assert forall i :: 0 <= i < |tail| ==> tail[i] == gs[i + 1];
      RegroupFlat(tail, cands, crc, md5);
      var rest := Flatten(tail);
      forall x, y | x in gs[0].members && y in rest ensures md5(x) != md5(y) {
        var h :| h in tail && y in h.members;
        var i :| 0 <= i < |tail| && tail[i] == h;
        assert crc(x) != crc(y);
      }
      DupSetsByAppend(gs[0].members, rest, md5);
    }
  }

  /** Without an MD5 collision across CRCs, the pipeline as written finds exactly
      the duplicate sets of the corrected one, in the same order. */
  lemma AsWrittenAgrees(cands: seq<FileNode>, entries: map<string, ZipEntry>, digest: seq<Byte> -> seq<Byte>)
    requires NoCrossCollision(cands, entries, digest)
    ensures FindDuplicatesAsWritten(cands, entries, digest) == FindDuplicates(cands, entries, digest)
  {
    if MissingEntry(cands, entries).None? {
      var crc := CrcKey(entries);
      var kept := KeepRepeated(GroupBy(cands, crc));
      CrcGroups(cands, crc);
      RegroupFlat(kept, cands, crc, Md5Key(digest));
    }
  }

  /** The retained file of a set holding exactly the elements of a list with its
      key is the first element of that list with that key. */
  lemma RetainedIsFirst<K>(xs: seq<FileNode>, key: FileNode -> K, d: DupGroup) returns (i: nat)
    requires Members(d) == Select(xs, key, key(d.retained))
    ensures i < |xs| && xs[i] == d.retained
    ensures forall j :: 0 <= j < i ==> key(xs[j]) != key(d.retained)
  {
    i := SelectFirst(xs, key, key(d.retained));
  }

  // ----- The detector a pass runs -----

  /** Which duplicate detector a dedup pass runs: the chain as `ResourcesOptTask`
      and `ResourceMonitorPlugin` write it, or the corrected one. */
  datatype Detector = AsWritten | Corrected

  /** The duplicate sets the chosen detector finds. */
  function Detect(det: Detector, cands: seq<FileNode>, entries: map<string, ZipEntry>,
                  digest: seq<Byte> -> seq<Byte>): (r: Result<seq<DupGroup>, DedupError>)
    ensures r.Err? <==> exists f :: f in cands && f.path !in entries
    ensures r.Ok? ==> forall d :: d in r.value ==> |d.removed| >= 1 && forall f :: f in Members(d) ==> f in cands
  {
    match det
    case AsWritten => FindDuplicatesAsWritten(cands, entries, digest)
    case Corrected => FindDuplicates(cands, entries, digest)
  }

  /** The key every file of one duplicate set shares under a detector: the recorded
      CRC and the MD5 string for the corrected one; for the chain as written only
      the MD5 string, paired with a constant so both keys have one type. */
  function SetKey(det: Detector, entries: map<string, ZipEntry>, digest: seq<Byte> -> seq<Byte>): FileNode -> (int, string) {
    match det
    case AsWritten => (f: FileNode) => (0, Md5Key(digest)(f))
    case Corrected => DupKey(entries, digest)
  }
  /** The files a detector regroups by MD5, in the order it sees them: every
      candidate for the corrected one, the flattened CRC groups as written. */
  function Regrouped(det: Detector, cands: seq<FileNode>, entries: map<string, ZipEntry>): (xs: seq<FileNode>)
    ensures forall x :: x in xs ==> x in cands
  {
    match det
    case AsWritten => CrcRepeated(cands, CrcKey(entries))
    case Corrected => cands
  }

  /** `xs[i]` comes after an element of `xs` with its key. */
  predicate HasEarlier<K(==)>(xs: seq<FileNode>, key: FileNode -> K, f: FileNode) {
    exists i, j :: 0 <= j < i < |xs| && xs[i] == f && key(xs[j]) == key(f)
  }

  /** Selecting by a key paired with a constant is selecting by the key. */
  lemma {:induction false} SelectPaired<K, T(!new)>(xs: seq<T>, f: T -> K, g: T -> (int, K), k: K)
    requires forall x :: g(x) == (0, f(x))
    ensures Select(xs, g, (0, k)) == Select(xs, f, k)
  {
    if |xs| > 0 {
      SelectPaired(xs[..|xs| - 1], f, g, k);
    }
  }

  /** Sets that each hold exactly the elements of a list without repeats that have
      their key, and that together cover every pair of elements with one key,
      remove exactly the elements that come after another with their key. */
  lemma RemovedIffEarlier<K>(xs: seq<FileNode>, key: FileNode -> K, ds: seq<DupGroup>, f: FileNode)
    requires Distinct(xs)
    requires forall d :: d in ds ==> Members(d) == Select(xs, key, key(d.retained))
    requires forall a, b :: a in xs && b in xs && a != b && key(a) == key(b) ==>
               exists d :: d in ds && a in Members(d) && b in Members(d)
    ensures (exists d :: d in ds && f in d.removed) <==> HasEarlier(xs, key, f)
  {
    if d :| d in ds && f in d.removed {
      RemovedHasEarlier(xs, key, d, f);
    }
    if HasEarlier(xs, key, f) {
      var i, j :| 0 <= j < i < |xs| && xs[i] == f && key(xs[j]) == key(f);
      assert xs[j] != xs[i];
      var d :| d in ds && xs[j] in Members(d) && f in Members(d);
      EarlierIsRemoved(xs, key, d, i, j);
    }
  }

  /** A removed file of a set holding exactly the elements of `xs` with its key
      comes after the retained file in `xs`. */
  lemma RemovedHasEarlier<K>(xs: seq<FileNode>, key: FileNode -> K, d: DupGroup, f: FileNode)
    requires Distinct(xs)
    requires Members(d) == Select(xs, key, key(d.retained))
    requires f in d.removed
    ensures HasEarlier(xs, key, f)
  {
    var i0 := RetainedIsFirst(xs, key, d);
    assert f in Members(d);
    var i :| 0 <= i < |xs| && xs[i] == f;
    SelectDistinct(xs, key, key(d.retained));
    RetainedNotMember(d, f);
    assert key(xs[i]) == key(d.retained);
    assert i0 < i;
    assert 0 <= i0 < i < |xs| && key(xs[i0]) == key(f);
  }

  /** An element of a set holding exactly the elements of `xs` with its key that
      comes after another member is one of its removed files. */
  lemma EarlierIsRemoved<K>(xs: seq<FileNode>, key: FileNode -> K, d: DupGroup, i: nat, j: nat)
    requires Distinct(xs)
    requires Members(d) == Select(xs, key, key(d.retained))
    requires j < i < |xs| && xs[j] in Members(d) && xs[i] in Members(d)
    ensures xs[i] in d.removed
  {
    var i0 := RetainedIsFirst(xs, key, d);
    assert key(xs[j]) == key(d.retained);
    assert i0 <= j;
    assert xs[i0] != xs[i];
    MemberSplit(d, xs[i]);
  }

  /** The retained file of a set without repeats is none of its removed files. */
  lemma RetainedNotMember(d: DupGroup, f: FileNode)
    requires Distinct(Members(d)) && f in d.removed
    ensures d.retained != f
  {
    var k :| 0 <= k < |d.removed| && d.removed[k] == f;
    assert Members(d)[0] == d.retained && Members(d)[k + 1] == f;
  }

  /** Members other than the retained file are removed files. */
  lemma MemberSplit(d: DupGroup, f: FileNode)
    requires f in Members(d) && f != d.retained
    ensures f in d.removed
  {
    var i :| 0 <= i < |Members(d)| && Members(d)[i] == f;
    assert i > 0 && d.removed[i - 1] == f;
  }

  /** Among candidates without repeats, a detector removes exactly the files it
      regroups that come after another of them with the same key: the recorded CRC
      and MD5 string for the corrected detector, the MD5 string alone as written. */
  lemma DetectRemovesLater(det: Detector, cands: seq<FileNode>, entries: map<string, ZipEntry>,
                           digest: seq<Byte> -> seq<Byte>, f: FileNode)
    requires Distinct(cands)
    requires Detect(det, cands, entries, digest).Ok?
    ensures (exists d :: d in Detect(det, cands, entries, digest).value && f in d.removed)
            <==> HasEarlier(Regrouped(det, cands, entries), SetKey(det, entries, digest), f)
  {
    var ds := Detect(det, cands, entries, digest).value;
    var xs := Regrouped(det, cands, entries);
    var key := SetKey(det, entries, digest);
    match det
    case Corrected =>
      forall a, b | a in xs && b in xs && a != b && key(a) == key(b)
        ensures exists d :: d in ds && a in Members(d) && b in Members(d)
      {
        var d := Covering(cands, entries, digest, a, b);
      }
      RemovedIffEarlier(xs, key, ds, f);
    case AsWritten =>
      var md5 := Md5Key(digest);
      CrcRepeatedDistinct(cands, CrcKey(entries));
      assert ds == DupSetsBy(xs, md5);
      forall d | d in ds ensures Members(d) == Select(xs, key, key(d.retained)) {
        SelectPaired(xs, md5, key, md5(d.retained));
      }
      forall a, b | a in xs && b in xs && a != b && key(a) == key(b)
        ensures exists d :: d in ds && a in Members(d) && b in Members(d)
      {
        var d := DupSetsCover(xs, md5, a, b);
      }
      RemovedIffEarlier(xs, key, ds, f);
  }
}

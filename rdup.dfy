/**
 rdup: find duplicate files under a directory.

 `main` walks the tree and files every non-directory entry's path under its file
 name. With `--name-only` it reports every name shared by more than one path.
 Otherwise it drains the name table, files every path under the SHA-1 digest of
 its content, and reports every digest shared by more than one path.

 The outside world is given as parameters. `rootExists` answers whether a
 path exists. `walk` is the sequence of items the directory walk yields under
 a root. `fileName` is the last component of a path, as a string. `hash` is the lowercase hex digest of a file's content. Reports are data: one
 (key, paths) pair per printed line. HashMap iteration order is unspecified, so
 every loop over a table takes its keys in an arbitrary order.
 */
module Rdup {
  import opened Multimap

  type Path = string
  type Digest = string

  datatype Option<T> = None | Some(value: T)

  /** The command line: `--name-only` and the optional root. */
  datatype Args = Args(nameOnly: bool, root: Option<Path>)

  /** One item of the directory walk: an entry, or an error the walk reports. An
      entry's file name is not stored: it is always `fileName(path)`. */
  datatype WalkItem = Found(path: Path, isDir: bool) | WalkError

  /** One printed line: a key (file name or digest) and the paths filed under it. */
  type Group = (string, seq<Path>)

  /** How `main` ends: the panic on a missing root, or the printed groups. */
  datatype Outcome = RootMissing(root: Path) | Reported(groups: seq<Group>)

  /** The root to walk: the one given, or the current directory. */
  function RootOf(args: Args): Path
  {
    match args.root
    case Some(p) => p
    case None => "."
  }

  /** The (file name, path) of every walk item the name loop keeps, in walk order:
      walk errors and directories are dropped. */
  function Kept(walk: seq<WalkItem>, fileName: Path -> string): seq<(string, Path)>
  {
    if walk == [] then []
    else
      Kept(walk[..|walk| - 1], fileName) +
      match walk[|walk| - 1]
      case Found(path, isDir) => if isDir then [] else [(fileName(path), path)]
      case WalkError => []
  }

  /** The paths of the kept items, in walk order. */
  function KeptPaths(walk: seq<WalkItem>, fileName: Path -> string): seq<Path>
  {
    Values(Kept(walk, fileName))
  }

  /** The keys of a report. */
  function KeysOf(report: seq<Group>): set<string>
  {
    set i | 0 <= i < |report| :: report[i].0
  }

  /** One more walk item adds its pair to the kept pairs when it is a non-directory entry. */
  lemma KeptPrefix(walk: seq<WalkItem>, fileName: Path -> string, i: nat)
    requires i < |walk|
    ensures Kept(walk[..i + 1], fileName) == Kept(walk[..i], fileName) +
      match walk[i]
      case Found(path, isDir) => if isDir then [] else [(fileName(path), path)]
      case WalkError => []
  {
    assert walk[..i + 1][..i] == walk[..i];
  }

  /** A kept pair is exactly a non-directory entry of the walk, paired with its own
      file name. */
  lemma {:induction false} KeptIsFiles(walk: seq<WalkItem>, fileName: Path -> string, name: string, path: Path)
    ensures (name, path) in Kept(walk, fileName) <==> Found(path, false) in walk && name == fileName(path)
  {
    if walk != [] {
      var init := walk[..|walk| - 1];
      KeptIsFiles(init, fileName, name, path);
      assert walk == init + [walk[|walk| - 1]];
    }
  }

  /** `report` lists, once each and in any order, exactly the buckets of `t` that
      hold more than one path. */
  ghost predicate ReportsDuplicates(report: seq<Group>, t: Table<string, Path>)
  {
    && (forall i :: 0 <= i < |report| ==>
          report[i].0 in t && report[i].1 == t[report[i].0] && |report[i].1| > 1)
    && (forall k :: k in t && |t[k]| > 1 ==> k in KeysOf(report))
    && (forall i, j :: 0 <= i < j < |report| ==> report[i].0 != report[j].0)
  }

  /** The name loop (src/main.rs:33-44): file the path of every kept entry under its
      file name. */
  method GroupByName(walk: seq<WalkItem>, fileName: Path -> string) returns (fnPaths: Table<string, Path>)
    ensures fnPaths == Grouped(Kept(walk, fileName))
  {
    fnPaths := map[];
    var i := 0;
    while i < |walk|
      invariant 0 <= i <= |walk|
      invariant fnPaths == Grouped(Kept(walk[..i], fileName))
    {
      KeptPrefix(walk, fileName, i);
      if walk[i].Found? && !walk[i].isDir {
        var path := walk[i].path;
        var name := fileName(path);
        GroupedSnoc(Kept(walk[..i], fileName), name, path);
        fnPaths := Insert(fnPaths, name, path);
      } else {
        assert Kept(walk[..i + 1], fileName) == Kept(walk[..i], fileName);
      }
      i := i + 1;
    }
    assert walk[..i] == walk;
  }

  /** A path is in the name table under `name` exactly when the walk found a
      non-directory entry at that path and `name` is its file name: directories and
      walk errors never reach the table, and a path sits under one name only. */
  lemma NameTableFiles(walk: seq<WalkItem>, fileName: Path -> string, name: string, path: Path)
    ensures name in Grouped(Kept(walk, fileName)) && path in Grouped(Kept(walk, fileName))[name]
        <==> Found(path, false) in walk && name == fileName(path)
  {
    KeptIsFiles(walk, fileName, name, path);
    SelectMembership(Kept(walk, fileName), name, path);
    GroupedIsSelect(Kept(walk, fileName), name);
  }

  /** A path in the reference bucket of `name` has `name` as its file name, so it is
      in no other name's bucket. */
  lemma NameOfFiled(walk: seq<WalkItem>, fileName: Path -> string, name: string, path: Path)
    ensures path in Select(Kept(walk, fileName), name) ==> name == fileName(path)
  {
    SelectMembership(Kept(walk, fileName), name, path);
    KeptIsFiles(walk, fileName, name, path);
  }

  /** The name table holds the path of every kept entry once: as many paths as the
      walk yielded entries that are neither errors nor directories. */
  lemma NameTableMembers(walk: seq<WalkItem>, fileName: Path -> string)
    ensures Members(Grouped(Kept(walk, fileName))) == multiset(KeptPaths(walk, fileName))
    ensures |Members(Grouped(Kept(walk, fileName)))| == |Kept(walk, fileName)|
  {
    GroupedMembers(Kept(walk, fileName));
  }

  /** The report loops (src/main.rs:46-51 and 68-72): drain the table and keep the
      buckets holding more than one path. */
  method ReportDuplicates(t: Table<string, Path>) returns (report: seq<Group>)
    ensures ReportsDuplicates(report, t)
  {
    var rest := t;
    report := [];
    while rest != map[]
      invariant forall k :: k in rest ==> k in t && rest[k] == t[k]
      invariant forall i :: 0 <= i < |report| ==>
        report[i].0 in t && report[i].0 !in rest && report[i].1 == t[report[i].0] && |report[i].1| > 1
      invariant forall k :: k in t && k !in rest && |t[k]| > 1 ==> k in KeysOf(report)
      invariant forall i, j :: 0 <= i < j < |report| ==> report[i].0 != report[j].0
      decreases rest.Keys
    {
      var name :| name in rest;
      if |rest[name]| > 1 {
        ghost var prev := report;
        report := report + [(name, rest[name])];
        assert report[|prev|].0 == name;
        assert forall i :: 0 <= i < |prev| ==> report[i] == prev[i];
      }
      rest := rest - {name};
    }
  }

  /** Filing the next path of a bucket is one `Insert` under its digest. */
  lemma FileStep(r: Table<Digest, Path>, done: seq<Path>, paths: seq<Path>, j: nat, hash: Path -> Digest)
    requires j < |paths|
    requires r == Grouped(Keyed(done + paths[..j], hash))
    ensures Grouped(Keyed(done + paths[..j + 1], hash)) == Insert(r, hash(paths[j]), paths[j])
  {
    assert paths[..j + 1] == paths[..j] + [paths[j]];
    assert done + paths[..j + 1] == (done + paths[..j]) + [paths[j]];
    KeyedSnoc(done + paths[..j], paths[j], hash);
    GroupedSnoc(Keyed(done + paths[..j], hash), hash(paths[j]), paths[j]);
  }

  /** Every path of `fnHashes` sits under its own digest only, and every path of
      `fnPaths` is in `fnHashes` under its digest. */
  ghost predicate KeyedByDigest(fnHashes: Table<Digest, Path>, fnPaths: Table<string, Path>, hash: Path -> Digest)
  {
    && (forall h, p :: h in fnHashes && p in fnHashes[h] ==> hash(p) == h)
    && (forall name, p :: name in fnPaths && p in fnPaths[name] ==> hash(p) in fnHashes && p in fnHashes[hash(p)])
  }

  /** The inner digest loop (src/main.rs:55-65): file every path of one name bucket,
      in order, under its digest. `done` is what the table was built from so far. */
  method FileByDigest(fnHashes: Table<Digest, Path>, paths: seq<Path>, hash: Path -> Digest, ghost done: seq<Path>)
    returns (r: Table<Digest, Path>)
    requires fnHashes == Grouped(Keyed(done, hash))
    ensures r == Grouped(Keyed(done + paths, hash))
  {
    r := fnHashes;
    var j := 0;
    assert done + paths[..0] == done;
    while j < |paths|
      invariant 0 <= j <= |paths|
      invariant r == Grouped(Keyed(done + paths[..j], hash))
    {
      var path := paths[j];
      var h := hash(path);
      FileStep(r, done, paths, j, hash);
      r := Insert(r, h, path);
      j := j + 1;
    }
    assert paths[..j] == paths;
  }

  /** The digest loop (src/main.rs:53-66): drain the name table in some order
      `order`, and file every path of every bucket, singletons included, under the
      digest of its content. */
  method RegroupByDigest(fnPaths: Table<string, Path>, hash: Path -> Digest)
    returns (fnHashes: Table<Digest, Path>, ghost order: seq<string>)
    ensures Enumerates(order, fnPaths)
    ensures fnHashes == Grouped(Keyed(Flatten(fnPaths, order), hash))
    ensures NonEmptyBuckets(fnHashes)
    ensures KeyedByDigest(fnHashes, fnPaths, hash)
  {
    var rest := fnPaths;
    fnHashes := map[];
    order := [];
    while rest != map[]
      invariant Drained(fnPaths, rest, order)
      invariant forall k :: k in order ==> k in fnPaths
      invariant fnHashes == Grouped(Keyed(Flatten(fnPaths, order), hash))
      decreases rest.Keys
    {
      var name :| name in rest;
      assert rest[name] == fnPaths[name] && name in fnPaths;
      fnHashes := FileByDigest(fnHashes, rest[name], hash, Flatten(fnPaths, order));
      FlattenSnoc(fnPaths, order, name);
      DrainStep(fnPaths, rest, order, name);
      order := order + [name];
      rest := rest - {name};
    }
    DrainDone(fnPaths, order);
    assert NonEmptyBuckets(fnHashes) && KeyedByDigest(fnHashes, fnPaths, hash) by {
      DigestTable(fnPaths, order, hash);
    }
  }

  /** The digest table built in a drain order has no empty bucket and keeps every
      path under its own digest. */
  lemma DigestTable(fnPaths: Table<string, Path>, order: seq<string>, hash: Path -> Digest)
    requires Enumerates(order, fnPaths)
    ensures NonEmptyBuckets(Grouped(Keyed(Flatten(fnPaths, order), hash)))
    ensures KeyedByDigest(Grouped(Keyed(Flatten(fnPaths, order), hash)), fnPaths, hash)
  {
    DigestMembers(fnPaths, order, hash);
    DigestKeys(fnPaths, order, hash);
  }

  /** Whatever order the name table is drained in, the digest table holds exactly
      the paths of the name table, with multiplicity, and no empty bucket. */
  lemma DigestMembers(fnPaths: Table<string, Path>, order: seq<string>, hash: Path -> Digest)
    requires Enumerates(order, fnPaths)
    ensures Members(Grouped(Keyed(Flatten(fnPaths, order), hash))) == Members(fnPaths)
    ensures NonEmptyBuckets(Grouped(Keyed(Flatten(fnPaths, order), hash)))
  {
    var flat := Flatten(fnPaths, order);
    MembersFlatten(fnPaths, order);
    GroupedMembers(Keyed(flat, hash));
    ValuesKeyed(flat, hash);
    GroupedNonEmpty(Keyed(flat, hash));
  }

  /** Whatever order the name table is drained in, every path of the digest table
      sits under its own digest only, and every path of the name table is filed under
      its digest: two paths with equal digests share a bucket whatever their names. */
  lemma DigestKeys(fnPaths: Table<string, Path>, order: seq<string>, hash: Path -> Digest)
    requires Enumerates(order, fnPaths)
    ensures KeyedByDigest(Grouped(Keyed(Flatten(fnPaths, order), hash)), fnPaths, hash)
  {
    GroupedByKey(Flatten(fnPaths, order), hash);
    forall name, p | name in fnPaths && p in fnPaths[name] ensures p in Flatten(fnPaths, order) {
      FlattenContains(fnPaths, order, name, p);
    }
  }

  /** The digest bucket of `h` holds, with multiplicity, exactly the kept paths whose
      content has digest `h`, whatever order the name table was drained in. */
  lemma DigestBucket(walk: seq<WalkItem>, fileName: Path -> string, order: seq<string>, hash: Path -> Digest, h: Digest)
    requires Enumerates(order, Grouped(Kept(walk, fileName)))
    ensures var g := Grouped(Keyed(Flatten(Grouped(Kept(walk, fileName)), order), hash));
      && (h in g <==> WithKey(KeptPaths(walk, fileName), hash, h) != [])
      && (h in g ==> multiset(g[h]) == multiset(WithKey(KeptPaths(walk, fileName), hash, h)))
  {
    var flat := Flatten(Grouped(Kept(walk, fileName)), order);
    MembersFlatten(Grouped(Kept(walk, fileName)), order);
    NameTableMembers(walk, fileName);
    WithKeyPermutation(flat, KeptPaths(walk, fileName), hash, h);
    GroupedIsSelect(Keyed(flat, hash), h);
    SelectKeyed(flat, hash, h);
    if WithKey(KeptPaths(walk, fileName), hash, h) != [] {
      assert |multiset(WithKey(flat, hash, h))| > 0;
    }
  }

  /** No path is in two groups of a report. */
  ghost predicate Disjoint(report: seq<Group>)
  {
    forall i, j, p :: 0 <= i < j < |report| && p in report[i].1 ==> p !in report[j].1
  }

  /** The `--name-only` report over the kept (name, path) pairs: each group is the
      whole walk-ordered list of paths with one name, every name shared by more than
      one path is reported once, and no path is in two groups. */
  ghost predicate NameReport(groups: seq<Group>, kept: seq<(string, Path)>)
  {
    && (forall i :: 0 <= i < |groups| ==> |groups[i].1| > 1 && groups[i].1 == Select(kept, groups[i].0))
    && (forall name :: |Select(kept, name)| > 1 ==> name in KeysOf(groups))
    && (forall i, j :: 0 <= i < j < |groups| ==> groups[i].0 != groups[j].0)
    && Disjoint(groups)
  }

  /** The digest report over the kept paths: each group holds, with multiplicity,
      exactly the paths with one digest, every digest shared by more than one path is
      reported once, and no path is in two groups. */
  ghost predicate DigestReport(groups: seq<Group>, paths: seq<Path>, hash: Path -> Digest)
  {
    && (forall i :: 0 <= i < |groups| ==>
          |groups[i].1| > 1 && multiset(groups[i].1) == multiset(WithKey(paths, hash, groups[i].0)))
    && (forall h :: |WithKey(paths, hash, h)| > 1 ==> h in KeysOf(groups))
    && (forall i, j :: 0 <= i < j < |groups| ==> groups[i].0 != groups[j].0)
    && Disjoint(groups)
  }

  /** Reporting the duplicates of the name table is the `--name-only` report of the walk. */
  lemma NameReportOfTable(walk: seq<WalkItem>, fileName: Path -> string, report: seq<Group>)
    requires ReportsDuplicates(report, Grouped(Kept(walk, fileName)))
    ensures NameReport(report, Kept(walk, fileName))
  {
    var kept := Kept(walk, fileName);
    var t := Grouped(kept);
    forall name ensures name in t <==> Select(kept, name) != []
      ensures name in t ==> t[name] == Select(kept, name)
    {
      GroupedIsSelect(kept, name);
    }
    forall i, j, p | 0 <= i < j < |report| && p in report[i].1 ensures p !in report[j].1 {
      NameOfFiled(walk, fileName, report[i].0, p);
      NameOfFiled(walk, fileName, report[j].0, p);
    }
  }

  /** Reporting the duplicates of the digest table, whatever order the name table
      was drained in, is the digest report of the walk's kept paths. */
  lemma DigestReportOfTable(walk: seq<WalkItem>, fileName: Path -> string, order: seq<string>,
                            hash: Path -> Digest, report: seq<Group>)
    requires Enumerates(order, Grouped(Kept(walk, fileName)))
    requires ReportsDuplicates(report, Grouped(Keyed(Flatten(Grouped(Kept(walk, fileName)), order), hash)))
    ensures DigestReport(report, KeptPaths(walk, fileName), hash)
  {
    var t := Grouped(Keyed(Flatten(Grouped(Kept(walk, fileName)), order), hash));
    var paths := KeptPaths(walk, fileName);
    assert forall h :: h in t ==> multiset(t[h]) == multiset(WithKey(paths, hash, h)) by {
      forall h ensures h in t ==> multiset(t[h]) == multiset(WithKey(paths, hash, h)) {
        DigestBucket(walk, fileName, order, hash, h);
      }
    }
    assert forall h :: |WithKey(paths, hash, h)| > 1 ==> h in KeysOf(report) by {
      forall h | |WithKey(paths, hash, h)| > 1 ensures h in KeysOf(report) {
        DigestBucket(walk, fileName, order, hash, h);
        assert |t[h]| == |multiset(t[h])|;
      }
    }
    assert Disjoint(report) by {
      DigestKeys(Grouped(Kept(walk, fileName)), order, hash);
      ReportDisjoint(report, t, hash);
    }
  }

  /** When every path of a table sits under its own digest only, its report puts
      no path in two groups. */
  lemma ReportDisjoint(report: seq<Group>, t: Table<Digest, Path>, hash: Path -> Digest)
    requires ReportsDuplicates(report, t)
    requires forall h, p :: h in t && p in t[h] ==> hash(p) == h
    ensures Disjoint(report)
  {
    forall i, j, p | 0 <= i < j < |report| && p in report[i].1 ensures p !in report[j].1 {
      assert report[i].0 in t && p in t[report[i].0];
      assert hash(p) == report[i].0 != report[j].0;
      assert report[j].0 in t && report[j].1 == t[report[j].0];
    }
  }

  /** `main` (src/main.rs:18-74). */
  method Run(args: Args, rootExists: Path -> bool, walk: Path -> seq<WalkItem>, fileName: Path -> string,
             hash: Path -> Digest)
    returns (out: Outcome)
    ensures out.RootMissing? <==> !rootExists(RootOf(args))
    ensures out.RootMissing? ==> out.root == RootOf(args)
    ensures out.Reported? && args.nameOnly ==> NameReport(out.groups, Kept(walk(RootOf(args)), fileName))
    ensures out.Reported? && !args.nameOnly ==>
      DigestReport(out.groups, KeptPaths(walk(RootOf(args)), fileName), hash)
  {
    var root := RootOf(args);
    if !rootExists(root) {
      return RootMissing(root);
    }
    var items := walk(root);
    var fnPaths := GroupByName(items, fileName);
    if args.nameOnly {
      var report := ReportDuplicates(fnPaths);
      NameReportOfTable(items, fileName, report);
      out := Reported(report);
    } else {
      var fnHashes, order := RegroupByDigest(fnPaths, hash);
      var report := ReportDuplicates(fnHashes);
      DigestReportOfTable(items, fileName, order, hash, report);
      out := Reported(report);
    }
  }
}

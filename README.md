# rdup: duplicate-file grouping, modelled in Dafny

rdup walks a directory tree and reports files that look like duplicates. Its
whole logic sits in `main` and is a pipeline of four stages:

1. the walk loop files the path of every non-directory entry under its file
   name in a `HashMap<String, Vec<PathBuf>>`;
2. with `--name-only`, it prints every name bucket holding more than one path;
3. otherwise it drains the name table (singletons included), computes the SHA-1
   digest of every path's content and files the path under the digest in a
   second table;
4. it prints every digest bucket holding more than one path.

The model has two modules.

- `Multimap` (`multimap.dfy`) is the theory of the append-only tables. `Insert`
  is one `entry(k).and_modify(push).or_insert(vec![v])` call. `Grouped` is the
  table built by filing a sequence of (key, value) pairs in order. `Select` is
  an independent reference definition of one bucket: the values of the pairs
  with that key, in order. `Members` is the multiset of all values in all
  buckets. `Flatten` is the concatenation of the buckets in a drain order.
- `Rdup` (`rdup.dfy`) holds the pipeline. The walk is an input sequence of
  `WalkItem`s (`Found(path, isDir)` or `WalkError`). An entry's file name is
  `fileName(path)`, a parameter, so a path always has exactly one name. The
  digest is a parameter `hash: Path -> Digest`, and the root check is a
  parameter `rootExists`. The tables are local `map` variables that the loops update in
  place, as `main` does. Each report is data: a sequence of (key, paths)
  groups, one per printed line. The loops over a table pick their next key
  with `:|`, so the model fixes no iteration order; the digest loop returns
  the order it used as a ghost value.

rdup groups by file name alone. It has no size key, no minimum size, no
separate list of empty files, no CSV output and no hash-only-duplicate-names
option. Empty files are hashed like any other file.

## Model

| member | source | states |
|---|---|---|
| `Multimap.Insert` | src/main.rs:40-43 | Filing `v` under `k` adds key `k`, makes `v` the last element of its bucket, keeps the earlier bucket (or nothing, for a new key) before it, and leaves every other key and bucket unchanged. |
| `Multimap.GroupedIsSelect` | src/main.rs:40-43 | A key has a bucket in the grouped table exactly when some filed pair carries it, and that bucket is the reference bucket: the values with that key, in filing order. |
| `Multimap.GroupedNonEmpty` | src/main.rs:40-43 | No bucket of a table built by filing is ever empty. |
| `Multimap.SelectMembership` | src/main.rs:40-43 | A value is in the reference bucket of `k` exactly when the pair `(k, v)` was filed. |
| `Multimap.SelectAppend` | src/main.rs:42 | Filing preserves order: the bucket built from `a + b` is the bucket from `a` followed by the values of `b` with that key. |
| `Multimap.MembersRemove` | src/main.rs:54 | The members of a table are the bucket of any one key plus the members of the rest, so they do not depend on the order the buckets are visited in. |
| `Multimap.MembersInsert` | src/main.rs:40-43 | Filing one value adds exactly that value to the multiset of members. |
| `Multimap.GroupedMembers` | src/main.rs:33-44 | The members of a grouped table are exactly the filed values, with multiplicity: grouping loses and invents nothing. |
| `Multimap.MembersFlatten` | src/main.rs:54-55 | Draining the buckets in any order that lists every key once yields every member exactly once. |
| `Multimap.GroupedByKey` | src/main.rs:61-64 | When values are filed under their own key, every value sits in the bucket of its key, and every bucket holds exactly the values with that key, in order. |
| `Multimap.WithKeyCount` | src/main.rs:61-64 | The values with key `k` contain `v` as often as the input does if `v` has key `k`, and never otherwise. |
| `Multimap.WithKeyPermutation` | src/main.rs:54-55 | Which values carry a key depends only on the multiset of the input, not on its order. |
| `Rdup.KeptIsFiles` | src/main.rs:33-39 | The walk loop keeps the pair (name, path) exactly when the walk yielded a non-directory entry at that path and `name` is the path's file name. |
| `Rdup.GroupByName` | src/main.rs:33-44 | The walk loop builds the name table `Grouped(Kept(walk))`: every kept entry filed under its file name, in walk order. |
| `Rdup.NameTableFiles` | src/main.rs:33-44 | A path is in the name table under `name` exactly when the walk found a non-directory entry at that path and `name` is its file name; directories and walk errors never reach the table. |
| `Rdup.NameOfFiled` | src/main.rs:38-43 | A path filed under `name` has `name` as its file name, so it sits under no other name. |
| `Rdup.NameTableMembers` | src/main.rs:33-44 | The name table holds every kept path once, so it holds as many paths as the walk yielded entries that are neither errors nor directories. |
| `Rdup.ReportDuplicates` | src/main.rs:46-51 | The report lists each key at most once, lists a key exactly when its bucket holds more than one path, and carries that key's whole bucket. The digest report at lines 68-72 is the same loop. |
| `Rdup.FileByDigest` | src/main.rs:55-65 | Filing one name bucket's paths, in order, under their digests extends the digest table as if those paths had been filed after the earlier ones. |
| `Multimap.DrainStep` | src/main.rs:54 | Taking one more key out of the part of a table not yet visited keeps every visited key listed once and every key either visited or still to come. |
| `Multimap.DrainDone` | src/main.rs:54 | A drain with nothing left has listed every key of the table exactly once. |
| `Rdup.RegroupByDigest` | src/main.rs:53-66 | The digest loop drains the name table in some order that lists every name once, and builds the table obtained by filing every path of every bucket, singletons included, under its digest in that order. The result has no empty bucket, holds each path under its own digest only, and holds every path of every name bucket under its digest. |
| `Rdup.DigestTable` | src/main.rs:53-66 | Whatever the drain order, the digest table has no empty bucket, holds each path under its own digest only, and holds every name-table path under its digest. |
| `Rdup.DigestMembers` | src/main.rs:53-66 | Whatever the drain order, the digest table holds the same multiset of paths as the name table and has no empty bucket. |
| `Rdup.DigestKeys` | src/main.rs:61-64 | Whatever the drain order, every path of the digest table sits under its own digest only, and every path of the name table is filed under its digest, so two paths with equal digests share one bucket whatever their names. |
| `Rdup.DigestBucket` | src/main.rs:53-66 | The bucket of a digest exists exactly when some kept path has that digest, and holds, with multiplicity, exactly the kept paths with that digest. |
| `Rdup.ReportDisjoint` | src/main.rs:68-72 | When every path of a table sits under its own digest only, no path is in two groups of its report. |
| `Rdup.NameReportOfTable` | src/main.rs:46-51 | Reporting the duplicates of the name table gives the `--name-only` report: each group is the full, walk-ordered list of paths sharing one name, every name shared by more than one kept path is reported once, and no path is in two groups. |
| `Rdup.DigestReportOfTable` | src/main.rs:53-72 | Whatever the drain order, reporting the duplicates of the digest table gives the digest report: each group holds exactly the kept paths with one digest, every digest shared by more than one kept path is reported once, and no path is in two groups. |
| `Rdup.Run` | src/main.rs:18-74 | `main` stops with the missing-root panic exactly when the root (given, or `.`) does not exist. Otherwise, with `--name-only` it prints the name report of the walk, and without it the digest report: each group is every kept path sharing one name (in walk order) or one digest, every key shared by more than one path is reported once, and no path appears in two groups. |

## Left out

- The directory walk (`WalkDir`): filesystem I/O. It is the input sequence of `WalkItem`s; which entries it yields and in what order is not modelled.
- The existence check of the root: a filesystem query, given as the parameter `rootExists`. The panic is the `RootMissing` outcome; its message text is not modelled.
- SHA-1 and its hex formatting: a foreign library, given as the parameter `hash`. Collisions are not modelled: equal digests are taken to mean a shared bucket, nothing more.
- Opening and reading files for hashing, with their `unwrap` panics: I/O. The model treats `hash` as total, so a file that cannot be read is not modelled.
- Command-line parsing with `clap`: a library. It is the `Args` value.
- `file_name()` and `to_string_lossy` on file names, and `PathBuf` paths: paths are plain strings, and taking an entry's file name is the parameter `fileName`.
- Printing with `println!` and `{:?}`: the output text is library-defined. Each report is the sequence of groups the loop would print.
- HashMap iteration order: unspecified in Rust. The loops take keys in an arbitrary order and no property depends on it.
- Rdup.Run: in hash mode, a group is stated as a multiset of paths, not a sequence, because the order inside a digest bucket follows the unspecified drain order (`RegroupByDigest` gives the exact order relative to that drain order).

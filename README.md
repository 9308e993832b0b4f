# GrobiSplitter partitioning engine, in Dafny

GrobiSplitter (`splitter.py`) splits a modular RPM repository into one
sub-repository per module stream plus one for the packages that belong to no
module. This project models the engine that decides which package file goes
where, and proves what that decision guarantees:

- `_get_filelist` builds a dictionary from each package's
  `name-epoch:version-release.arch` key to its file location (`Packages`).
- `_parse_repository_modular` checks what reading the module document
  reported (the `failures` list and the `res` flag). It then fills one bucket
  per stream NSVCA with the locations of the stream's RPM artifacts that the
  file list knows (`Partition.ParseModular`).
- `_get_modular_pkgset` collects every location held by a module bucket.
  `_parse_repository_non_modular` keeps every package location that no
  module bucket holds.
- `parse_repository` assembles the two into the final dictionary, with the
  non-modular set under the key `"non_modular"` (`Partition.ParseRepository`,
  with its laws in `PartitionLaws`).
- `validate_filenames` reports every location that is missing from the
  repository directory (`Validation`).
- `perform_split` makes one directory per bucket under the target. It
  copies, hard-links or symlinks each location into that directory under its
  file name (`Placement`, with its laws in `PlacementLaws`).

Modelling choices:

- Python dictionaries keep the order in which keys were first inserted.
  `Dicts.Dict` models them as a key order plus a map. Assigning to a present
  key keeps its place; a new key goes last.
- Module buckets are lists (`Bucket.Listed`). The non-modular bucket is a set
  (`Bucket.Pooled`).
- Python does not fix the order in which it walks a set. Those loops take an
  arbitrary member at each step, so their results are stated up to
  reordering: as a multiset for the validation reports, and through a
  visiting order for the split.
- The module index is given as its parse outcome (`Modulemd.ParseOutcome`):
  the `res` flag, the failures, and the modules with their streams in
  enumeration order.
- The package sack is a sequence of `Packages.Package` records in query
  order. The epoch is a natural number rendered in decimal, as `%s` does.
- `os.path.join` and `os.path.split` are modelled exactly on strings
  (`PosixPath`). The file system of the validation is the set of paths that
  exist. The split's file-system effects are the sequence of calls it makes
  (`Placement.FsCall`).

In three places the code behaves differently from what its docstrings
suggest a user would expect. The model follows the code:

- The docstring of `_parse_repository_non_modular` (splitter.py:71-75) says
  it finds "which packages are not in any module". The code compares file
  locations against the union of module buckets (splitter.py:80-83). When two
  packages of the sack share a key, the file list keeps only the last one.
  An earlier package whose location no other package has is then
  non-modular, even though a stream declares its key
  (`PartitionLaws.ShadowedPackageIsNonModular`).
- One would expect every indexed package to land in "non_modular" or in some
  module bucket. The code stores the non-modular set under the literal key
  `"non_modular"` after the stream buckets (splitter.py:248). So a stream
  whose NSVCA were `"non_modular"` would lose its bucket. That is why
  `PartitionLaws.NonModularIffUnclaimed` assumes no stream has that NSVCA
  (real NSVCAs contain `:`), and `PartitionLaws.CollidingKeyDropsPackage`
  shows a package vanishing without that assumption.
- The docstring of `_parse_repository_modular` (splitter.py:87-89) speaks of
  "a dictionary of packages indexed by the modules they are contained in".
  Its buckets are lists in artifact order, keyed by stream NSVCA, not by
  module. A later stream with the same NSVCA replaces an earlier one's bucket
  (splitter.py:112).

## Model

| member | source | states |
|---|---|---|
| Dicts.Put | splitter.py:112 | `d[k] = v` keeps the dictionary well formed. The key maps to `v` and other keys keep their values. A present key keeps its place; a new key is appended last. |
| Dicts.Empty | splitter.py:91 | `{}` is a well-formed dictionary with no keys. |
| Modulemd.AllStreams | splitter.py:103-105 | A stream is enumerated iff it belongs to one of the index's modules. |
| Packages.DecimalDigits | splitter.py:66 | The `%s` rendering of the epoch is its standard decimal text: a nonempty string of digits whose value is the epoch, with no leading zero, one digit exactly when the epoch is below ten. |
| Packages.GetFilelist | splitter.py:58-68 | The loop builds exactly the file list of the sack, where each package in query order assigns its location under its key. |
| Packages.FilelistKeys | splitter.py:64-67 | The file list's keys are exactly the keys of the sack's packages. |
| Packages.FilelistLastWins | splitter.py:65-67 | When keys collide, the last package in the sack owns the entry. |
| Packages.FilelistFromSack | splitter.py:65-67 | Every entry of the file list is the location of the last package in the sack with that key. |
| Partition.CollectBucket | splitter.py:106-111 | The inner loop yields, in artifact order, the locations of exactly those artifacts the file list knows. |
| Partition.LookupBound | splitter.py:107-111 | A stream's bucket is never longer than its artifact list. |
| Partition.LookupAppend | splitter.py:107-111 | Looking up a concatenation of artifact lists concatenates the two lookups. |
| Partition.LookupMembers | splitter.py:107-111 | A location is in a stream's bucket iff one of the stream's artifacts is a file-list key mapped to it. |
| Partition.StreamTableKeys | splitter.py:103-112 | The stream table's keys are exactly the NSVCAs of the enumerated streams. |
| Partition.StreamTableLastWins | splitter.py:112 | The bucket under an NSVCA is the lookup of the last enumerated stream with that NSVCA. |
| Partition.StreamTableFrom | splitter.py:112 | Every bucket comes from the last enumerated stream with its NSVCA. |
| Partition.ParseModular | splitter.py:86-114 | Failures raise the "FAILURES" error. Otherwise a false `res` raises the "res != True" error. Otherwise the result is the stream table over all streams of all modules and the sack's file list. |
| Partition.ModularPkgset | splitter.py:117-129 | A location is returned iff some bucket of the dictionary holds it. |
| Partition.NonModular | splitter.py:70-84 | A location is returned iff some package of the sack has it and it is not in the modular set. |
| Partition.ParseRepository | splitter.py:242-250 | The result is an error iff reading the module document failed. Otherwise it is the stream table with the non-modular set put under "non_modular". |
| PartitionLaws.PartitionKeys | splitter.py:244-250 | The partition's keys are the stream NSVCAs plus "non_modular", which holds a set. Unless a stream used that key, "non_modular" is the last key. |
| PartitionLaws.PartitionStreamBucket | splitter.py:103-112 | The bucket of an NSVCA is the lookup of its last stream's artifacts and is no longer than that artifact list. |
| PartitionLaws.PartitionProvenance | splitter.py:101-112 | Every location in a module bucket is a sack package's location, and a stream with that bucket's NSVCA declares that package's key. |
| PartitionLaws.NonModularDisjoint | splitter.py:80-83 | No location is both in a module bucket and in "non_modular". |
| PartitionLaws.NonModularIffUnclaimed | splitter.py:80-83 | When no stream is named "non_modular", a sack package's location is non-modular iff no module bucket holds it. |
| PartitionLaws.DeclaredIsModular | splitter.py:101-112 | A package that no later package shadows in the file list, and whose key the last stream of an NSVCA declares, lies in that NSVCA's bucket and not in "non_modular". |
| PartitionLaws.CollidingKeyDropsPackage | splitter.py:248 | A stream named "non_modular" has its bucket replaced, and its package ends up in no bucket at all. |
| PartitionLaws.ShadowedPackageIsNonModular | splitter.py:64-67 | A package shadowed in the file list by a later package with the same key, and whose location no other package shares, is non-modular. |
| PosixPath.JoinShape | splitter.py:169 | `os.path.join` ends with its second argument. Unless that argument is absolute, the result starts with the first argument, with a separator between when needed. |
| PosixPath.BasenameShape | splitter.py:173 | The file name of `os.path.split` is the longest suffix without a separator. |
| PosixPath.SplitJoin | splitter.py:173-176 | Splitting a directory joined with a separator-free name gives back the directory and the name. |
| Validation.CheckListed | splitter.py:141-144 | For a listed bucket, the reports are its missing locations, in list order. |
| Validation.CheckPooled | splitter.py:141-144 | For a set bucket, the reports are its missing locations, each once, in some order. |
| Validation.CheckBucket | splitter.py:141-144 | A bucket's reports are its missing locations. |
| Validation.ListedReportsEmpty | splitter.py:141-144 | A listed bucket yields no report iff all its locations exist. |
| Validation.BucketReportsEmpty | splitter.py:141-144 | A bucket yields no report iff all its locations exist. |
| Validation.AllReportsEmpty | splitter.py:139-145 | The first `n` buckets yield no report iff all their locations exist. |
| Validation.ValidateFilenames | splitter.py:132-145 | The result is true iff every location of every bucket exists under the directory, and iff nothing was reported. The reports are exactly the missing locations of all buckets, tagged with their bucket, up to reordering. |
| Placement.BucketCallsAt | splitter.py:172-177 | The `t`-th call for a bucket places its `t`-th visited location from the repository into the bucket directory under its file name. |
| Placement.PlaceListed | splitter.py:172-177 | A listed bucket's locations are placed in list order. |
| Placement.PlacePooled | splitter.py:172-177 | A set bucket's locations are each placed once, in some order. |
| Placement.PlaceBucket | splitter.py:172-177 | A bucket's locations are placed in one of its visiting orders. |
| Placement.PerformSplit | splitter.py:167-177 | Buckets are handled in key order. Each gets `mkdir` of the target joined with its key, followed by the placement of its locations in one of its visiting orders. |
| PlacementLaws.SplitCallsMembers | splitter.py:167-177 | The calls for the first `n` buckets are exactly their directories and the placements of their locations. |
| PlacementLaws.SplitPlaces | splitter.py:172-177 | A split places `src` at `dst` iff some bucket has a location that comes from `src` in the repository and goes to `dst`, its file name in that bucket's directory. |
| PlacementLaws.SplitMakesDirs | splitter.py:168-170 | A split makes a directory iff it is the target joined with some key of the partition. |
| PlacementLaws.PlacementInBucketDir | splitter.py:169-176 | With an absolute target and a plain relative key, every destination lies directly inside the bucket directory, named after the location's file name. |
| PlacementLaws.DestinationsCollide | splitter.py:173-176 | Two locations placed into one directory get the same destination iff their file names are equal. |

## Left out

- `_get_repoinfo` and `_get_hawkey_sack` (librepo and hawkey loading) are foreign calls. The sack is a parameter, given as its packages in query order.
- Reading the gzip-compressed module document and `update_from_string` are foreign calls. Only their outcome (`res`, `failures` and the modules) is modelled. `upgrade_streams(2)` is folded into the modules of the outcome, and its own failure is not modelled.
- The `_get_filelist(package_sack)` call at splitter.py:243 discards its result and is not modelled.
- `parse_repository` exits cleanly when the repository has no modules (splitter.py:237-240). That is a foreign lookup plus process exit, and is not modelled.
- The `print` calls of `validate_filenames` are modelled as `Validation.Report` values. The set bucket is walked in an unspecified order, so the reports are stated as a multiset.
- Partition.ModularPkgset: `_get_modular_pkgset` returns `list(pkgs)` in an unspecified order. The model returns the set.
- `_perform_action`'s effects (`shutil.copy`, `os.link`, `os.symlink`) and `os.mkdir` are file-system calls. The split is modelled as the calls it makes, not their effect or their errors. The model does not capture that a copy of a missing file is ignored, that a second link to an existing destination fails, or that a symbolic link made from a relative repository path dangles.
- `create_repos`, `parse_args`, `setup_target` and `main` are command-line plumbing and the `createrepo_c` subprocess, and are not part of this model. The split takes the target, repository path and action as parameters.

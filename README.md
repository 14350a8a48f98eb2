# Keg relocation, modelled in Dafny

This project models the relocation engine of a Homebrew keg (`Library/Homebrew/keg_relocate.rb`),
the installed file tree of one package. Freezing makes a keg relocatable: every occurrence of
the install prefix, the cellar, the repository (or the library below it) in the keg's text files
becomes a fixed `@@HOMEBREW_…@@` placeholder. Thawing turns the placeholders back into the
locations of the machine the keg is installed on. Absolute symlinks into the cellar or prefix are
rewritten as relative ones.

Modules, leaves first:

- `Wrappers` holds `Option` and `Result`.
- `Lists` holds the order-preserving `Array` operations the code relies on: `select`, `uniq` and `|`.
- `Paths` holds path strings as component sequences: `cleanpath`, `relative_path_from`,
  `parent`, `basename` and `File.extname`.
- `Substitution` holds the one-pass multi-pattern `gsub!`. `Gsub` follows regular-expression
  alternation. `Scan` is the longest-match reference, and the two are proved equal.
- `Relocations` holds the placeholder constants, the eight-field `Relocation` value, the freeze
  and thaw relocations, the three-entry replacement map and the per-file rewrite. It also proves
  the freeze/thaw round trip and the cellar, library and repository scenarios.
- `Disks` holds the file system. A `Disk` value maps path → inode and inode → bytes, keeps a
  symlink map path → target, a directory set and the walk order. `FileSystem` is the mutable
  object over that state, with atomic write, in-place write, forced hard link, unlink and symlink.
- `Selection` holds `text_files`, `libtool_files`, `symlink_files`, symlink relativization and
  `each_unique_file_matching` as functions of a `Disk`.
- `Replace` holds `replace_text_in_files` as a function of a `Disk`: the file list, the grouping
  by inode, and one step per group. Its lemmas state what a run leaves behind.
- `Kegs` holds the `Keg` class. Its methods run the source's loops on the `FileSystem` and are
  proved to compute the functions of `Selection` and `Replace`. The lemmas proved there are
  therefore what these methods guarantee.

The globals `HOMEBREW_PREFIX`, `HOMEBREW_CELLAR`, `HOMEBREW_REPOSITORY` and `HOMEBREW_LIBRARY`
are a `Roots` parameter. The test `HOMEBREW_PREFIX == HOMEBREW_REPOSITORY` is the boolean
`same` (`PrefixIsRepository`). The external tools (`which`, `file`, `text_executable?`) are a
`Tools` parameter. The extension sets `Metafiles::EXTENSIONS` and `Keg::LIBTOOL_EXTENSIONS` are a
`Config` parameter. Which writes raise is a `Faults` parameter.

## Model

| member | source | states |
|---|---|---|
| Relocations.FreezeRelocation | Library/Homebrew/keg_relocate.rb:42-52 | freezing searches for the four global locations and replaces them by four pairwise different placeholders, each starting with '@' |
| Relocations.ThawRelocation | Library/Homebrew/keg_relocate.rb:42-67 | the thaw relocation is the freeze relocation with every old and new field swapped |
| Relocations.Replacements | Library/Homebrew/keg_relocate.rb:79-89 | the map's keys are exactly the old prefix, the old cellar, and the old library when prefix equals repository, otherwise the old repository; each key maps to its new value, a later equal key overriding; three entries when the keys differ; repository and library are never both searched unless they equal another key |
| Relocations.ReplacementKeys | Library/Homebrew/keg_relocate.rb:79-90 | the hash's keys are the map's keys, each exactly once, in insertion order: the prefix first, then the cellar unless it equals the prefix, and the third root last unless it equals one of them |
| Relocations.Alternation | Library/Homebrew/keg_relocate.rb:90 | the union's alternatives are the map's keys sorted by descending length |
| Relocations.RelocateDynamicLinkage | Library/Homebrew/keg_relocate.rb:38-40 | the generic linkage relocation reports no changed file |
| Relocations.RewriteText | Library/Homebrew/keg_relocate.rb:79-90 | a rewrite that found no match leaves the bytes as they were |
| Relocations.RewriteIsLongestMatch | Library/Homebrew/keg_relocate.rb:90 | the per-file rewrite equals the left-to-right, longest-key-first reference substitution |
| Relocations.RewriteChangesIff | Library/Homebrew/keg_relocate.rb:90-91 | `gsub!` reports a change exactly when a search key occurs in the bytes; otherwise the bytes are unchanged |
| Relocations.RewriteAtKey | Library/Homebrew/keg_relocate.rb:90 | at a position where `k` is the longest key, its replacement is written and scanning resumes after `k`, so replaced text is not rescanned |
| Relocations.PlaceholdersDistinct | Library/Homebrew/keg_relocate.rb:5-11 | the four placeholder tokens are pairwise different |
| Relocations.PlaceholdersPrefixFree | Library/Homebrew/keg_relocate.rb:5-11 | the three thaw search keys start with '@' and none is a prefix of another |
| Relocations.FreezeThawInverse | Library/Homebrew/keg_relocate.rb:42-67 | with distinct roots, the thaw map sends each placeholder back to the root that freezing replaced by it |
| Relocations.FreezeThawRoundTrip | Library/Homebrew/keg_relocate.rb:42-70 | thawing frozen text gives back the original text, for distinct non-empty roots and text without '@' |
| Relocations.FreezeRootPath | Library/Homebrew/keg_relocate.rb:79-90 | for any pairwise distinct roots, a text that starts with one of the search keys, where no longer key also matches and the rest holds no key, freezes to that key's placeholder followed by the unchanged rest |
| Relocations.FreezeCellarPath | Library/Homebrew/keg_relocate.rb:79-90 | instance of `Relocations.FreezeRootPath` for prefix and repository `/opt/pkg`, cellar `/opt/pkg/Cellar`: a cellar path freezes to the cellar token, not to the prefix token it also starts with |
| Relocations.FreezeLibraryPath | Library/Homebrew/keg_relocate.rb:83-90 | instance of `Relocations.FreezeRootPath` for the same layout, where prefix equals repository: a path under the library freezes to the library token, never to the repository or prefix token |
| Relocations.SeparateRootsKeys | Library/Homebrew/keg_relocate.rb:79-89 | when the repository `/opt/repo` differs from the prefix `/opt/pkg`, the search keys are the prefix, the cellar and the repository; the library is not searched |
| Relocations.FreezeRepositoryPath | Library/Homebrew/keg_relocate.rb:84-90 | in that separate-repository layout, a path under the repository freezes to the repository token followed by the unchanged rest |
| Substitution.SortByLengthDesc | Library/Homebrew/keg_relocate.rb:90 | `sort_by(&:length).reverse` yields a permutation of the keys in descending length |
| Substitution.FirstMatch | Library/Homebrew/keg_relocate.rb:90 | alternation picks a listed key that matches here, or none matches here |
| Substitution.FirstMatchIsLongest | Library/Homebrew/keg_relocate.rb:90 | over keys sorted by descending length, the first matching alternative is a longest matching key |
| Substitution.Gsub | Library/Homebrew/keg_relocate.rb:90 | a substitution that matched nothing returns the text unchanged |
| Substitution.GsubIsScan | Library/Homebrew/keg_relocate.rb:90 | the regular-expression substitution over length-sorted keys equals the longest-match reference substitution on every text |
| Substitution.ScanAtKey | Library/Homebrew/keg_relocate.rb:90 | a longest key at the front is replaced whole, so a shorter key it contains never splits it |
| Substitution.ScanMatchesIff | Library/Homebrew/keg_relocate.rb:90-91 | a pass counts a match exactly when some key occurs somewhere in the text |
| Substitution.ScanWithoutKeys | Library/Homebrew/keg_relocate.rb:90-91 | text in which no key occurs comes back unchanged with no match |
| Substitution.ScanRoundTrip | Library/Homebrew/keg_relocate.rb:42-70 | substituting with a map and then with its inverse restores the text when the replacements are marked, prefix-free and absent from the text |
| Paths.ExtOfMeaning | Library/Homebrew/keg_relocate.rb:188 | on a name with its leading dots skipped, the extension is "" exactly when there is no dot or the last character is one; otherwise it is a suffix of the name that starts at a dot, has no other dot and is shorter than the name when the name does not start with a dot |
| Paths.ExtnameMeaning | Library/Homebrew/keg_relocate.rb:153 | `File.extname` (leading dots skipped, via `Paths.ExtOf`) is "" exactly when the name has no dot or ends in one, and otherwise the suffix from the last dot: a dot, at least one more character, no further dot |
| Paths.SkipDotsMeaning | Library/Homebrew/keg_relocate.rb:153 | the name that `File.extname` inspects is the given name minus a run of leading dots: a suffix of it, not starting with a dot, with only dots before it |
| Paths.RelativeFromResolves | Library/Homebrew/keg_relocate.rb:31 | the relative path from the link's directory, walked from that directory, leads back to the target |
| Selection.Classify | Library/Homebrew/keg_relocate.rb:148-160 | a symlink or a directory is always skipped; only a text executable other than `orig-prefix.txt` goes straight to the result; a regular `orig-prefix.txt` is always probed |
| Selection.ClassifyMeaning | Library/Homebrew/keg_relocate.rb:148-160 | an entry is a probe candidate or a text executable only if it is a regular file and either `orig-prefix.txt` or neither the formula copy nor a metafile; it is taken directly exactly when `text_executable?` holds; it is a probe candidate exactly when it is a regular `orig-prefix.txt`, or a regular file that is neither the formula copy nor a metafile nor a text executable |
| Selection.SplitNul | Library/Homebrew/keg_relocate.rb:167 | a line yields a path and a description exactly when it contains a NUL; it is split at the first NUL |
| Selection.LinesConcat | Library/Homebrew/keg_relocate.rb:166 | the lines read one by one concatenate back to the tool's output |
| Selection.LinesShape | Library/Homebrew/keg_relocate.rb:166 | every line is non-empty, every line but the last ends at its only newline, and the last has no newline before its end |
| Selection.AcceptedMeaning | Library/Homebrew/keg_relocate.rb:166-178 | every accepted path is a candidate, and a candidate is accepted when some line holds its path, a NUL and a description containing "text" |
| Selection.AcceptedSound | Library/Homebrew/keg_relocate.rb:166-178 | a path is accepted only when a line holds its path, a NUL and a description containing "text" |
| Selection.TextFiles | Library/Homebrew/keg_relocate.rb:139-147 | without `file` or `xargs` on the path, `text_files` is empty |
| Selection.TextFilesComplete | Library/Homebrew/keg_relocate.rb:139-180 | `text_files` is empty without `file` or `xargs`; otherwise it holds every text executable of the walk and every probe candidate for which the probe printed a line of its path, a NUL and a description mentioning "text" |
| Selection.TextFilesSound | Library/Homebrew/keg_relocate.rb:139-178 | everything in `text_files` is a walked regular file that the candidate filter did not skip |
| Selection.LibtoolFiles | Library/Homebrew/keg_relocate.rb:184-193 | `libtool_files` is exactly the walked non-symlink, non-directory files with a libtool extension |
| Selection.SymlinkFiles | Library/Homebrew/keg_relocate.rb:195-202 | `symlink_files` is exactly the walked symlinks, each once |
| Selection.DefaultFiles | Library/Homebrew/keg_relocate.rb:73 | `text_files \| libtool_files` has no duplicates |
| Selection.FixTarget | Library/Homebrew/keg_relocate.rb:22-33 | a relative target, or an absolute one starting with neither the cellar nor the prefix string, is kept; any other becomes a relative target that resolves from the link's directory to the same cleaned path |
| Selection.FixTargetIdempotent | Library/Homebrew/keg_relocate.rb:22-33 | fixing an already fixed target changes nothing |
| Selection.FixLinks | Library/Homebrew/keg_relocate.rb:21-35 | relativizing keeps the set of symlink paths, the inodes' bytes, the directories, the walk order and the next inode |
| Selection.FixLinksEffect | Library/Homebrew/keg_relocate.rb:21-35 | only the listed symlinks change, each to its fixed target; files, inodes, directories and other links are kept |
| Selection.FixLinksIdempotent | Library/Homebrew/keg_relocate.rb:21-35 | relativizing a keg twice leaves the same disk as relativizing it once |
| Selection.Chomp | Library/Homebrew/keg_relocate.rb:123 | `chomp` drops at most one trailing line terminator |
| Selection.UniqueFrom | Library/Homebrew/keg_relocate.rb:118-129 | every yielded path is a regular non-symlink file of an inode not seen before, and no two yielded paths share an inode |
| Selection.UniquePathsDistinct | Library/Homebrew/keg_relocate.rb:124-126 | the skip-and-yield loop yields only regular non-symlink files whose inode was not seen, with pairwise different inodes |
| Selection.UniquePathsSound | Library/Homebrew/keg_relocate.rb:122-126 | every yielded path is one of the listed paths |
| Selection.UniquePathsCovers | Library/Homebrew/keg_relocate.rb:122-126 | when no stat raises, every listed regular non-symlink file's inode was seen before or is the inode of a yielded path |
| Selection.UniquePathsAt | Library/Homebrew/keg_relocate.rb:122-126 | the j-th yielded path is the listed path at the j-th recorded position |
| Selection.FirstIndicesIncreasing | Library/Homebrew/keg_relocate.rb:122-126 | those positions strictly increase, so the yields keep the order of the listing |
| Selection.UniquePathsFirst | Library/Homebrew/keg_relocate.rb:124-126 | every recorded position holds a regular non-symlink file whose inode is new and appears at no earlier eligible position |
| Selection.UniquePathsComplete | Library/Homebrew/keg_relocate.rb:122-126 | when no stat raises, every first position of a new inode is recorded |
| Selection.UniqueFromFirst | Library/Homebrew/keg_relocate.rb:118-129 | of the `fgrep` lines, exactly the first line of each new inode is yielded (when no stat raises), and the yields follow the order of the lines |
| Selection.UniqueFromSound | Library/Homebrew/keg_relocate.rb:118-129 | every yielded path is named by one of the `fgrep` lines |
| Selection.UniqueFromCovers | Library/Homebrew/keg_relocate.rb:118-129 | when no stat raises, every listed regular non-symlink file's inode is represented among the yielded paths |
| Replace.JoinKeg | Library/Homebrew/keg_relocate.rb:76 | joining an entry to a normal keg path gives a normal path; an entry without `..` components lies exactly at its components, below the keg when it is relative and at the root when it is absolute |
| Replace.FileList | Library/Homebrew/keg_relocate.rb:73-76 | an explicit list is joined to the keg path entry by entry; otherwise the list is exactly `text_files \| libtool_files` |
| Replace.FirstNonFile | Library/Homebrew/keg_relocate.rb:76 | no path is reported exactly when every listed path is a regular file; a reported path is listed and not a file |
| Replace.GroupByInode | Library/Homebrew/keg_relocate.rb:76 | the groups are non-empty, each group shares one inode, different groups have different inodes, and they hold only listed paths |
| Replace.GroupByInodeMeaning | Library/Homebrew/keg_relocate.rb:76 | each group is exactly the listed paths with its inode, in list order |
| Replace.GroupByInodeCovers | Library/Homebrew/keg_relocate.rb:76 | every listed path is in some group |
| Replace.LinkRest | Library/Homebrew/keg_relocate.rb:102 | re-linking changes no byte, no inode counter and no changed list, and any error it raises is a failed link of one of the other members |
| Replace.LinkRestLayout | Library/Homebrew/keg_relocate.rb:102 | re-linking keeps the disk well formed, its directories and walk order, and its symlinks when every member is a file |
| Replace.LinkRestFiles | Library/Homebrew/keg_relocate.rb:102 | without an error every other member ends on the first member's inode and every other path keeps its own; the only possible error is a failed link of the first path, when it is listed again among the others |
| Replace.LinkRestEffect | Library/Homebrew/keg_relocate.rb:102 | forced re-linking points every other member at the first member's inode and touches no other path, inode or directory, nor the walk order; symlinks are kept when the members were regular files |
| Replace.StepGroup | Library/Homebrew/keg_relocate.rb:77-103 | one group either adds nothing to the changed list or adds the relative paths of all its members, and any error it raises names one of its members |
| Replace.RunGroups | Library/Homebrew/keg_relocate.rb:76-105 | a run that starts after an error does nothing, and the changed list only grows at its end |
| Replace.StepGroupEffect | Library/Homebrew/keg_relocate.rb:77-103 | one group: symlinks, directories and walk order are kept; without a key it is untouched and unrecorded; otherwise all members are recorded and share one inode holding the rewritten bytes, which is fresh after an atomic write and the old one after the in-place fallback |
| Replace.RunGroupsEffect | Library/Homebrew/keg_relocate.rb:76-105 | symlinks, directories and walk order are kept; a run that does not raise finishes every group, keeps every other path and inode, and reports the members of exactly the matching groups; an error means both writes failed or a group repeats its first member |
| Replace.ReplaceRun | Library/Homebrew/keg_relocate.rb:72-106 | when a listed path is not a regular file, the run raises `NotAFile` for such a path, with the disk untouched and nothing reported |
| Replace.ReplaceRunEffect | Library/Homebrew/keg_relocate.rb:72-106 | symlinks, directories and walk order are never changed; a missing listed file aborts with nothing written; otherwise every listed path reads its rewritten bytes, hard links stay hard links, and unlisted paths and inodes are kept |
| Replace.ChangedPathsMembers | Library/Homebrew/keg_relocate.rb:93 | the changed list holds exactly the keg-relative paths of members of matching groups |
| Replace.ReplaceRunChanged | Library/Homebrew/keg_relocate.rb:90-93 | a listed file's relative path is reported exactly when a search key occurs in the bytes it held |
| Disks.Walk | Library/Homebrew/keg_relocate.rb:187 | `find` yields exactly the existing entries at or under the root, each once |
| Disks.FileSystem.Read | Library/Homebrew/keg_relocate.rb:77 | reading gives the bytes of the path's inode, or nothing for a non-file |
| Disks.FileSystem.ReadLink | Library/Homebrew/keg_relocate.rb:23 | `readlink` gives the symlink's target |
| Disks.FileSystem.AtomicWrite | Library/Homebrew/keg_relocate.rb:96 | a successful atomic write gives the path a fresh inode with the new bytes |
| Disks.FileSystem.WriteInPlace | Library/Homebrew/keg_relocate.rb:97-100 | the fallback write overwrites the shared inode, keeping the path's inode |
| Disks.FileSystem.ForceLink | Library/Homebrew/keg_relocate.rb:102 | a forced link removes the destination, then links it to the source's inode when the source still exists |
| Disks.FileSystem.Unlink | Library/Homebrew/keg_relocate.rb:32 | `unlink` removes the path |
| Disks.FileSystem.Symlink | Library/Homebrew/keg_relocate.rb:33 | `ln_s` creates the symlink with the given target |
| Kegs.Keg.Find | Library/Homebrew/keg_relocate.rb:148 | the walk loop computes `Walk` from the keg path |
| Kegs.Keg.TextFiles | Library/Homebrew/keg_relocate.rb:139-182 | the method computes `text_files` as specified by `Selection.TextFiles` |
| Kegs.Keg.RejectWalk | Library/Homebrew/keg_relocate.rb:148-160 | the `reject` block collects the text executables and keeps the probe candidates |
| Kegs.Keg.Partition | Library/Homebrew/keg_relocate.rb:149-159 | the loop sorts each walked entry by its verdict, in walk order |
| Kegs.Keg.ReadProbeOutput | Library/Homebrew/keg_relocate.rb:166-178 | the loop over the probe lines collects exactly the accepted paths |
| Kegs.Keg.ReadProbeLine | Library/Homebrew/keg_relocate.rb:167-177 | one line contributes its path when it has a NUL, a "text" description and a candidate path |
| Kegs.Keg.LibtoolFiles | Library/Homebrew/keg_relocate.rb:184-193 | the method computes `libtool_files` |
| Kegs.Keg.SelectLibtool | Library/Homebrew/keg_relocate.rb:187-191 | the loop keeps exactly the non-symlink, non-directory entries with a libtool extension |
| Kegs.Keg.SymlinkFiles | Library/Homebrew/keg_relocate.rb:195-202 | the method computes `symlink_files` |
| Kegs.Keg.SelectSymlinks | Library/Homebrew/keg_relocate.rb:197-199 | the loop keeps exactly the symlinks |
| Kegs.Keg.FixDynamicLinkage | Library/Homebrew/keg_relocate.rb:21-35 | the file system afterwards is the disk with every walked symlink's target fixed |
| Kegs.Keg.RelativizeLinks | Library/Homebrew/keg_relocate.rb:22-34 | the unlink-and-recreate loop applies the fix to each listed link in order |
| Kegs.Keg.EachUniqueFileMatching | Library/Homebrew/keg_relocate.rb:118-129 | the yielded paths and the raised error are those of `Selection.UniqueFrom` with no inode seen yet |
| Kegs.Keg.UniqueFiles | Library/Homebrew/keg_relocate.rb:120-127 | the loop growing the `hardlinks` set yields the first path of each inode, skipping symlinks |
| Kegs.Keg.ReplaceTextInFiles | Library/Homebrew/keg_relocate.rb:72-106 | the result and the new file system are those of `Replace.ReplaceRun` |
| Kegs.Keg.FileListOf | Library/Homebrew/keg_relocate.rb:73-76 | the method computes the joined file list |
| Kegs.Keg.ReplaceInGroups | Library/Homebrew/keg_relocate.rb:76-105 | the `each_value` loop runs the groups in order and stops at the first error |
| Kegs.Keg.ReplaceInGroup | Library/Homebrew/keg_relocate.rb:77-103 | one group's read, rewrite, record, write and re-link give the state `Replace.StepGroup` specifies |
| Kegs.Keg.Relink | Library/Homebrew/keg_relocate.rb:102 | the `ln` loop re-links the other members in order and stops at the first failure |
| Kegs.Keg.ReplaceLocationsWithPlaceholders | Library/Homebrew/keg_relocate.rb:42-55 | freezing runs the text replacement with the freeze relocation over `text_files \| libtool_files` |
| Kegs.Keg.ReplacePlaceholdersWithLocations | Library/Homebrew/keg_relocate.rb:57-70 | thawing runs the text replacement with the thaw relocation over the given list, with or without the linkage step |

## Left out

- File contents are strings with one character per byte. Ruby's string encodings (`force_encoding`) are not modelled.
- The subprocesses are inputs. `which("file")`, `which("xargs")` and the output of `xargs -0 file --no-dereference --print0` are fields of `Tools`. The output of `fgrep -lr` is a given sequence of lines. `with_custom_locale` is not modelled.
- `text_executable?` and the `file` tool's classification are oracles. `Tools.textExecutable` is a predicate and `Tools.probe` maps the probe's standard input to its output.
- `Metafiles::EXTENSIONS` and `Keg::LIBTOOL_EXTENSIONS` are defined in files that are not part of this model. They are the `Config` parameter.
- `atomic_write` is modelled as "new inode, new bytes" and the fallback as "same inode, new bytes". Which writes raise is given by `Faults`. The internals of `ensure_writable` are not modelled.
- `extend/os/keg_relocate` is not part of this model. Only the generic `fix_dynamic_linkage` and the generic `relocate_dynamic_linkage` are modelled.
- `detect_cxx_stdlibs`, `recursive_fgrep_args`, `lib`, `libexec`, `file_linked_libraries`, `relocation_formulae` and `bottle_dependencies` are stubs or accessors and are left out.
- The block of `each_unique_file_matching` is not modelled. The method returns the paths it would yield, in order.
- Replace.FirstNonFile: every listed path must be a regular file, checked before any group is processed. In Ruby, `stat` follows symlinks and succeeds on directories. So an explicitly listed symlink would be read through its target, and a listed directory would raise only when its group is read. Both cases are reported here as `NotAFile`, up front, with nothing written.
- Replace.JoinKeg: `Pathname#join` is modelled as `cleanpath` of the joined path. A `..` component is therefore resolved lexically.
- Selection.UniquePaths: a line of `fgrep -lr` output names a path as its components, so the model looks up the cleaned path where Ruby's `Pathname.new(line.chomp)` keeps the string as printed; both name the same file. The model's disk gives inodes only to regular files, so a listed directory stops the stream as `NotAFile`, where Ruby's `stat` would succeed and yield it. `fgrep -lr` lists only files, so neither case arises from its output.
- Relocations.FreezeThawRoundTrip: proved only for non-empty, pairwise distinct roots and text containing no '@'. It does not hold in general. For example, text holding `@@HOMEBREW_PREFIX@@` next to a real prefix path thaws both to the prefix.
- Idempotence of a second pass is not proved, because it fails for some roots. Take prefix and repository `/Library/x`, so the library is `/Library/x/Library`. Freezing `/Library/x/Library/x` gives `@@HOMEBREW_REPOSITORY@@/Library/x`, in which a second pass finds the prefix again.
- A file counts as changed when `gsub!` found a match, even if each match's replacement equals the key. The code decides this, not a comparison of the bytes.
- No concurrency: a run owns the keg's file system.
- Disks.FileSystem.Read: reading a regular file never fails. Only a path that is not a regular file yields nothing, which becomes `NotAFile`. I/O errors of `open("rb")` and `read` (EACCES, EIO) are not modelled.
- Disks.FileSystem.ForceLink: the forced link fails only when the source no longer exists after the destination is removed (`Disks.CanLink`). Failures for other reasons, such as EPERM, EMLINK or EXDEV, are not modelled.
- Disks.FileSystem.Unlink: `unlink` never fails. A permission error, or a path that vanished in the meantime, is not modelled.
- Disks.FileSystem.Symlink: `ln_s` never fails. In the source a failure here, after the `unlink`, would lose the link. The model does not have this case.
- Kegs.Keg.RelativizeLinks: because neither `unlink` nor `ln_s` fails in the model, the loop always finishes. It never stops with an exception part-way through the listed links.

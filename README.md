# Magisk build decisions, magic-mount node tree and APK certificate reader in Dafny

This project models three parts of Magisk and proves properties of them.

- **The decision logic of `build.py`** (modules `BuildConfig`, `BuildPlan`,
  `ContentCache`, `PayloadHeader`, `TarGuard`). This covers:
  - the `key=value` property-file parser and the three-layer configuration merge;
  - resolving requested build targets against the supported set, for `binary` and for `clean`;
  - the Rust architecture/triple table;
  - the aggregated ndk-build flag string and the order of the native build passes;
  - the generated `flags.h` text;
  - the C byte-array emitter for embedded payloads;
  - the "write only if the content differs" rule;
  - the path-traversal guard in front of the NDK archive extraction, as written (a character-prefix test) and, separately, with the component-wise test it evidently intends (see "## Findings").

  External tools (cargo, cxxbridge, ndk-build, the ELF cleaner, gradle, git) are not run. They appear as stage values (`BuildPlan.Stage`) or as parameters: the commit hash string, the compressor `xz`, the working directory.
- **The magic-mount node tree of `native/src/core/node.hpp`** (module `MountNode`). A class `Entry` holds the fields of `node_entry` and `dir_node`:
  - the name;
  - the packed file-type byte;
  - the constant node-type bit;
  - the parent;
  - the cached node path;
  - the children map.

  Its methods update these in place: rank-gated `insert_at`, `insert`, `emplace`, `upgrade`, `extract`, `consume`, the flag-bit setters and the lazily cached `node_path`.
- **The APK certificate reader of `native/src/core/cert.cpp`** (module `ApkCert`). The file is a byte sequence, and the file cursor is a position in it. The reader:
  1. scans back from the end of the file for the ZIP end-of-central-directory record (PKWARE APPNOTE.TXT, section 4.3.16);
  2. applies the version gate on the archive comment;
  3. follows the central directory offset back to the APK Signing Block and checks its `"APK Sig Block 42"` magic and its duplicated size field;
  4. walks the ID-value pairs to the APK Signature Scheme v2 block (ID `0x7109871a`);
  5. returns the first certificate of the first signer, or the empty string.

  Each step is a method proved equal to a specification function; the EOCD scan (`ScanEocd`) and the pair walk (`WalkPairs`) are the two with loops, and the other steps are straight-line code. A constructive builder of well-formed signed APKs is proved to round-trip through the reader, and a lemma for each abort path states when the reader returns the empty string.

`common.dfy` holds `Option`, `Result` and the `byte` type.

## Model

| member | source | states |
|---|---|---|
| BuildConfig.Strip | build.py:150 | `strip(' \t\r\n')` returns the slice of the line left after removing only blanks from both ends, and that slice has no blank end |
| BuildConfig.StripStripped | build.py:156 | stripping an already stripped value changes nothing |
| BuildConfig.Split | build.py:153 | `split('=')` gives one part more than there are separators, and no part contains the separator |
| BuildConfig.SplitJoin | build.py:153 | joining the parts of a split with the separator gives the line back |
| BuildConfig.PropEntry | build.py:150-159 | a line that yields an entry has exactly one '=' after stripping; the stored key and value are stripped, contain no '=', and the value is non-empty |
| BuildConfig.SkippedLines | build.py:151-155 | blank lines, lines starting with '#', and lines without exactly one '=' contribute no entry |
| BuildConfig.PropEntryRoundTrip | build.py:153-159 | the line `key=value` written from any storable entry parses back to that key and value |
| BuildConfig.PropsOfLastWins | build.py:147-160 | a key is in the dictionary exactly when some line defines it, and its value is the one from the last line that defines it |
| BuildConfig.ParseProps | build.py:147-160 | the line-by-line loop returns the dictionary characterised by PropsOfLastWins |
| BuildConfig.ParseDecimal | build.py:179 | `int()` accepts a string only when it starts with a digit or a sign; an all-digit string reads as its decimal value |
| BuildConfig.ShowInt | build.py:319 | `str()` of an int is non-empty and made of digits, with an optional leading '-' |
| BuildConfig.ParseShowInt | build.py:319 | the version code printed into flags.h reads back as the same integer |
| BuildConfig.MagiskPropsLookup | build.py:174-176 | key k is in the `magisk.` layer exactly when `magisk.`+k is in gradle.properties, with that value |
| BuildConfig.ConfigPrecedence | build.py:167-176 | each key takes its value from the highest layer that has it: gradle's `magisk.` keys, then the config file, then the `version`/`outdir` defaults |
| BuildConfig.OtherGradleKeysIgnored | build.py:174-176 | gradle.properties keys without the `magisk.` prefix never reach the configuration |
| BuildConfig.MagiskPropsAdd | build.py:175-176 | one more gradle key changes the `magisk.` layer by at most that key, with the prefix removed |
| BuildConfig.ApplyMagiskKeys | build.py:174-176 | the loop over gradle.properties leaves exactly the layers below overridden by the `magisk.` layer |
| BuildConfig.LoadConfig | build.py:163-181 | a missing `versionCode` is an error (KeyError), a non-integer one is the "required to be an integer" error; otherwise the result is the merged map with the parsed integer |
| BuildPlan.NameInjective | build.py:62-63 | distinct targets have distinct command-line names |
| BuildPlan.ResolveTargets | build.py:337-342 | an empty request gives the default targets; a non-empty one gives exactly the supported targets it names, or the early return when it names none |
| BuildPlan.ResolveMagiskOnly | build.py:337-338 | requesting `magisk` alone resolves to exactly {magisk} |
| BuildPlan.CleanTargets | build.py:412-417 | an empty request selects both `native` and `java`; a non-empty one selects exactly the kinds it names |
| BuildPlan.CleanStepsSelection | build.py:419-428 | the four native trees are removed exactly when `native` is selected, the gradle clean runs exactly when `java` is, and a request naming neither does nothing |
| BuildPlan.RustTriple | build.py:268 | the Rust triple differs from the compiler triple exactly when the triple starts with `armv7` |
| BuildPlan.RustTripleTable | build.py:269 | only the `armv7` triple becomes `thumbv7neon-linux-androideabi`; the others stay as they are |
| BuildPlan.BindingStages | build.py:244-248 | two binding files, a source and a header, are generated per module |
| BuildPlan.CompileStages | build.py:267-272 | one cargo build per architecture, in the order of `archs`, each building the same crates |
| BuildPlan.RunCargoBuild | build.py:225-281 | the loops produce exactly the cargo stages: install cxxbridge, generate the bindings, compile each architecture with its zipped triple and `--target=<triple>21` |
| BuildPlan.CargoStagesShape | build.py:227-272 | cxxbridge comes first, every binding precedes every compile, and each compile builds exactly `targets ∩ rust_targets` |
| BuildPlan.Selected | build.py:352-368 | every selected variable is a table variable whose target is requested |
| BuildPlan.SelectedIff | build.py:352-368 | with distinct variables, a variable is selected exactly when its target is requested |
| BuildPlan.FlagStringWords | build.py:350-368 | splitting the flag string on spaces gives "" followed by exactly the selected variables, in table order |
| BuildPlan.FirstPassVariablesDistinct | build.py:353-368 | the six first-pass variables are distinct, non-empty and contain no space |
| BuildPlan.FirstPassFlags | build.py:350-370 | the first-pass flags name exactly the requested first-pass targets, space-separated in the fixed order; they are empty exactly when none is requested and otherwise start with a space |
| BuildPlan.FlagSelectedEmpty | build.py:350-370 | the flag string is empty exactly when no table target is requested |
| BuildPlan.DefaultFlags | build.py:342-368 | the default build's flags are ` B_MAGISK=1 B_POLICY=1 B_PRELOAD=1 B_BOOT=1` |
| BuildPlan.FlagHeader | build.py:310-320 | split on newlines, flags.h is exactly the five dedented lines, the `MAGISK_VERSION`, `MAGISK_VER_CODE` and `MAGISK_DEBUG` lines, and the empty piece after the final newline |
| BuildPlan.FlagFieldsInjective | build.py:319-320 | the version-code and debug lines determine the version code and the build type |
| BuildPlan.FlagHeaderInjective | build.py:310-320 | two flags.h texts are equal exactly when version, version code and build type are, for versions without a double quote |
| BuildPlan.NdkMatches | build.py:327-331 | the NDK check passes only when ONDK_VERSION was read and `ondkVersion` is configured, and then the configured value has no surrounding blanks |
| BuildPlan.NdkIgnoresBlanks | build.py:330 | blanks around the content of ONDK_VERSION never change the outcome of the check |
| BuildPlan.Plan | build.py:326-331 | build_binary's stages are the single fatal "Unmatched NDK" error exactly when the NDK check fails |
| BuildPlan.BuildBinary | build.py:326-381 | build_binary's steps are the plan's: an NDK mismatch is fatal, a request naming no supported target does nothing, otherwise the resolved targets are built |
| BuildPlan.BuildTargets | build.py:344-381 | after resolution: the Rust build, flags.h, the first pass and ELF cleaning when the flags are non-empty, then magiskinit (fatal without the stub), then busybox |
| BuildPlan.PlanEarlyExits | build.py:327-342 | a failed NDK check stops everything, and a request naming no supported target yields no stage at all |
| BuildPlan.HeadPreparatory | build.py:346-348 | the Rust build and the flags header run no ndk-build pass |
| BuildPlan.StagesOrder | build.py:346-381 | the Rust build and flags.h come before every other stage, and a fatal error is always the last stage |
| BuildPlan.StagesPasses | build.py:350-381 | the ndk-build passes are, in order: the first pass if its flags are non-empty, `B_INIT=1` if magiskinit is requested and the stub exists, and `B_BB=1` if busybox is requested and nothing stopped the build |
| BuildPlan.InitAfterStub | build.py:376-378 | the `B_INIT=1` pass always comes directly after the stub is embedded |
| BuildPlan.FirstPassNoInit | build.py:350-372 | the first pass is never the `B_INIT=1` pass |
| BuildPlan.LateInit | build.py:376-381 | in the late stages, `B_INIT=1` is second, right after dump_bin_header |
| BuildPlan.MissingStubFatal | build.py:295-298 | a missing stub APK is fatal exactly when magiskinit is requested |
| BuildPlan.StagesMagiskOnly | build.py:346-381 | building magisk alone runs one ndk-build pass, ` B_MAGISK=1`, followed by the ELF cleaner |
| BuildPlan.StagesDefault | build.py:342-381 | the default build runs the combined first pass, then the magiskinit pass after the stub is embedded, then busybox last |
| ContentCache.FileStore.WriteIfDiff | build.py:284-292 | afterwards the file holds the text; it was written exactly when it was absent or held different text, and only then is the write recorded |
| ContentCache.SkippedWriteUnchanged | build.py:289-292 | a write that is not needed leaves the file system unchanged |
| ContentCache.ApplyWritesUntouched | build.py:284-292 | a path that none of the writes names keeps its content (or stays absent) |
| ContentCache.ApplyWritesLast | build.py:284-292 | a written path holds the text of its last write |
| ContentCache.RewriteWritesNothing | build.py:284-292 | repeating a sequence of writes to distinct paths writes nothing and changes nothing |
| ContentCache.FileStore.DumpFlagHeader | build.py:310-323 | flags.h in the generated directory is written through write_if_diff with the flags header text |
| ContentCache.BinHeaders | build.py:300-307 | dump_bin_header produces one header for the stub and one per architecture |
| ContentCache.BinHeaderAt | build.py:303-307 | the header after the stub's is the i-th architecture's `<arch>_binaries.h` holding the dump of its preload library |
| ContentCache.FileStore.DumpBinHeader | build.py:295-307 | every header goes through write_if_diff, in order |
| ContentCache.BinHeadersRebuild | build.py:295-307 | the headers go to distinct paths, so a rebuild with the same inputs writes none of them |
| PayloadHeader.HexDigit | build.py:207 | `{c:02X}` digits are uppercase hexadecimal digits |
| PayloadHeader.HexValueInverse | build.py:207 | reading a digit accepts exactly the uppercase hexadecimal digits and inverts the digit table |
| PayloadHeader.HexDigitValue | build.py:207 | a written digit reads back as its value |
| PayloadHeader.Literal | build.py:207 | each byte is `0x`, its high and low nibble as uppercase hex digits, and `,` |
| PayloadHeader.DecodeLiteral | build.py:207 | one literal reads back as its byte |
| PayloadHeader.DecodeItem | build.py:205-207 | one emitted item, with or without its line break, reads back as its byte |
| PayloadHeader.BodyRoundTrip | build.py:204-207 | reading the hex literals of the body back, in order, yields exactly the compressed payload |
| PayloadHeader.ItemShape | build.py:205-207 | a line break precedes byte i exactly when i % 16 == 0 |
| PayloadHeader.BodyShape | build.py:204-207 | the body has ⌈n/16⌉ line breaks and 5n + ⌈n/16⌉ characters for n bytes |
| PayloadHeader.BinaryDump | build.py:202-209 | the loop's text is the dump of `xz(src)` |
| PayloadHeader.DumpRoundTrip | build.py:202-209 | the text starts with `constexpr unsigned char NAME[] = {`, ends with `\n};\n`, and the part between reads back as exactly `xz(src)` |
| TarGuard.AbsPath | build.py:442-443 | `os.path.abspath` gives an absolute path, starting with `/` |
| TarGuard.Join | build.py:452 | `os.path.join` gives an absolute member name as it is, and otherwise a string that starts with the path and ends with the name |
| TarGuard.Normalize | build.py:442-443 | normalizing proper components from a proper stack gives proper components |
| TarGuard.AbsComponents | build.py:442-443 | `os.path.abspath` yields proper components only: no "", "." or ".." |
| TarGuard.NormalizeAppend | build.py:442-443 | normalizing a concatenation is normalizing its parts one after the other |
| TarGuard.RenderRoundTrip | build.py:442-443 | `abspath` leaves a normalized absolute path as it is |
| TarGuard.CommonPrefix | build.py:445 | `os.path.commonprefix` is a prefix of both arguments |
| TarGuard.CommonPrefixWhole | build.py:445-447 | the common prefix is the whole first argument exactly when that argument is a prefix of the second |
| TarGuard.IsWithinDirectory | build.py:440-447 | is_within_directory holds exactly when the absolute directory is a character-level prefix of the absolute target |
| TarGuard.FixedIsDescendant | build.py:440-447 | the component-wise check holds exactly when the target's components extend the directory's, so the target is the directory or lies below it |
| TarGuard.FixedImpliesWithin | build.py:440-447 | whatever the component-wise check accepts, the check as written accepts too |
| TarGuard.SiblingMemberComponents | build.py:452 | the member `../<sibling>/<leaf>` joined to a directory resolves into the sibling of that directory |
| TarGuard.SiblingEscapes | build.py:440-453 | the check as written accepts a member that resolves into a sibling directory whose name extends the directory's last component; the component-wise check rejects it |
| TarGuard.CheckMembers | build.py:451-454 | the member loop succeeds, with all members, exactly when every member passes the check; the first failure raises the traversal error |
| TarGuard.SafeExtract | build.py:449-456 | the extraction proceeds, with all members, exactly when every member joined to the path passes is_within_directory; otherwise it raises the traversal error before extracting anything |
| TarGuard.AllInsideIff | build.py:449-456 | safe_extract accepts exactly when the absolute path is a character prefix of every absolute member path |
| TarGuard.SiblingArchiveExtracted | build.py:449-456 | an archive whose member escapes into the sibling directory `<dir><suffix>` passes safe_extract as written and fails the corrected check |
| TarGuard.SafeExtractFixed | build.py:449-456 | with the component-wise check, extraction proceeds exactly when every member joined to the path passes it |
| TarGuard.AllInsideFixedIff | build.py:449-456 | the corrected safe_extract accepts exactly when every member resolves to the path or below it |
| MountNode.TypeId | native/src/core/node.hpp:27-33 | type_id of a class other than dir_node is a single node-type bit, and it shares a bit with TYPE_DIR exactly for dir_node, inter_node, tmpfs_node and root_node |
| MountNode.Isa | native/src/core/node.hpp:303-306 | isa holds only for a non-null node, and always for a node whose type is the class's own type_id |
| MountNode.Ranks | native/src/core/node.hpp:8-14 | MIRROR < INTER < TMPFS < MODULE < ROOT < CUSTOM, and TYPE_DIR = INTER\|TMPFS\|ROOT = 0x16 |
| MountNode.IsaClasses | native/src/core/node.hpp:27-33 | for a node of a concrete class, `isa<dir_node>` means inter, tmpfs or root, `isa<node_entry>` means custom, and every other `isa<T>` means exactly class T |
| MountNode.DynCast | native/src/core/node.hpp:303-310 | dyn_cast returns null exactly when isa fails, and the node itself otherwise |
| MountNode.WithExistOnlyBit7 | native/src/core/node.hpp:73-74 | set_exist(b) makes exist() equal b and changes no other bit |
| MountNode.WithSkipMirrorOnlyBit6 | native/src/core/node.hpp:193-194 | set_skip_mirror(b) makes skip_mirror() equal b and changes no other bit |
| MountNode.Entry.SetExist | native/src/core/node.hpp:74 | the node's exist bit becomes b and bits 0-6 stay |
| MountNode.Entry.SetSkipMirror | native/src/core/node.hpp:194 | the node's skip-mirror bit becomes b and every other bit stays |
| MountNode.Entry.Named | native/src/core/node.hpp:56-58 | a new node keeps only the low four bits of the file type, with no parent and no children |
| MountNode.Entry.Root | native/src/core/node.hpp:262-264 | a new root node is an existing directory with an empty prefix |
| MountNode.Entry.From | native/src/core/node.hpp:265-267 | an upgraded node takes over the name, file type and parent of the node it replaces; a root upgrade also takes over the children, re-parents them, sets exist and uses the `/system` prefix |
| MountNode.MergeInto | native/src/core/node.hpp:184 | after `merge`, the destination has both key sets; its own entries win, and the others move over |
| MountNode.MergeLeftover | native/src/core/node.hpp:184 | `merge` leaves in the source exactly the entries whose keys the destination already had |
| MountNode.Entry.Consume | native/src/core/node.hpp:182-189 | a directory consuming a directory takes over the children it lacks and re-parents all of them; name and other.name are swapped, and file type and parent come from the consumed node |
| MountNode.Build | native/src/core/node.hpp:158 | `new T(args)` gives a node of T's type with the name and file type its constructor sets, no parent, no children and no cached path; a module node carries its module, and the prefix is empty |
| MountNode.Replacement | native/src/core/node.hpp:217-222 | the replacing node has the replaced node's name and parent, the builder's type, module and prefix, and the merged children; merged children point back to it, and otherwise the children keep their parents |
| MountNode.Entry.InsertAt | native/src/core/node.hpp:212-240 | under a taken key, the node is replaced only if the old type ranks strictly lower; the new node sits under that key, and merged children point back to it; under a free key, the built node is added under its own name with this directory as parent, and a handed-over node keeps its file type, cached path and children; a rejection returns null and leaves the map unchanged |
| MountNode.Entry.ReplaceAt | native/src/core/node.hpp:215-228 | the replacing node takes the old node's place under the key, with this directory as parent; merged children point back to it, and otherwise the children keep their parents |
| MountNode.Entry.AddNew | native/src/core/node.hpp:232-238 | under a free key, the new node gets this directory as parent and is filed under its own name; only its parent link changes, so a handed-over node keeps its file type, cached path and children |
| MountNode.Entry.Insert | native/src/core/node.hpp:150-153 | insert is false for null or a rejection; on success the node is filed under its name with this directory as parent and keeps its cached path; over a taken key it takes the replaced node's file type and, when both are directories, its children, which then point back to it; under a free key its file type and children stay |
| MountNode.Entry.Emplace | native/src/core/node.hpp:156-160 | emplace returns null exactly when a node of the same or higher rank holds the key; otherwise a fresh node with the constructor's module is filed as insert_at files it, with the replaced node's file type and, when both are directories, its children, which then point back to it |
| MountNode.Entry.UpgradeChild | native/src/core/node.hpp:163-166 | upgrade of an absent name, or of a child not outranked, is rejected with the map unchanged; otherwise the child is rebuilt under the same key with the new class's module and prefix (`/system` for a root node), and any children it takes over point back to it |
| MountNode.Entry.Extract | native/src/core/node.hpp:139-147 | extract returns the child and removes it, or returns null and leaves the map as it was |
| MountNode.Entry.NodePath | native/src/core/node.hpp:312-316 | the path is '/'+name after each ancestor below the topmost, which contributes nothing; once computed it is cached, and every cache stays sound |
| MountNode.Entry.MirrorPath | native/src/core/node.hpp:48 | mirror_path is the mirror directory followed by the node path |
| MountNode.AncestryUnique | native/src/core/node.hpp:312-316 | the ancestor chain node_path follows is determined by the parent links |
| MountNode.NotOwnAncestor | native/src/core/node.hpp:312-316 | parent links that end at a root form no cycle, so the recursion of node_path ends |
| ApkCert.ReadLE | native/src/core/cert.cpp:106-107 | a read succeeds exactly when it lies inside the file |
| ApkCert.LEOfToLE | native/src/core/cert.cpp:125-130 | a little-endian encoding decodes back to its value when the value fits the width |
| ApkCert.ToLEOfLE | native/src/core/cert.cpp:125-130 | encoding a decoded value gives the bytes back |
| ApkCert.Signed64 | native/src/core/cert.cpp:158 | the off_t cast of a 64-bit value is the signed value congruent to it modulo 2^64 |
| ApkCert.FindEocdFrom | native/src/core/cert.cpp:103-121 | a result of the scan is an offset of at most 0xffff where both the comment size and the magic match |
| ApkCert.FindEocdFromFirst | native/src/core/cert.cpp:103-116 | the scan returns k exactly when k passes the EOCD test and no smaller offset does |
| ApkCert.FindEocdFromNone | native/src/core/cert.cpp:117-120 | the scan finds nothing exactly when no offset up to 0xffff passes the test |
| ApkCert.FindEocdFirst | native/src/core/cert.cpp:103-121 | the record used is the one with the shortest comment; with none within 0xffff bytes, the reader gives up |
| ApkCert.EocdBounds | native/src/core/cert.cpp:108-113 | a record that passes the test lies inside the file, its comment included |
| ApkCert.EocdPos | native/src/core/cert.cpp:103-121 | the EOCD position exists exactly when the scan finds a record, and the record and its comment lie inside the file |
| ApkCert.ScanEocd | native/src/core/cert.cpp:103-121 | the scanning loop returns the record position of EocdPos |
| ApkCert.ReadAfterEocd | native/src/core/cert.cpp:123-143 | the central directory offset is read, a version above the comment's parsed value aborts, and the signing block follows |
| ApkCert.NegativeVersionSkipsGate | native/src/core/cert.cpp:133-143 | with a negative version the comment is never consulted |
| ApkCert.BlockStart | native/src/core/cert.cpp:158 | the seek to `cdo - size8 - 8` lands there whenever that is not negative |
| ApkCert.BlockOffsetIsOffT | native/src/core/cert.cpp:158 | the seek offset is the unsigned 64-bit difference reinterpreted as off_t |
| ApkCert.BlockHeader | native/src/core/cert.cpp:146-163 | the block checks fail only with a bad magic or a size mismatch |
| ApkCert.ReadSigningBlock | native/src/core/cert.cpp:145-165 | the magic check, the size comparison and the walk give the signing block's outcome |
| ApkCert.SkipTarget | native/src/core/cert.cpp:195 | skipping a pair of length len moves the cursor by len-4 whenever that lands within the largest off_t; a forward skip past it fails and leaves the cursor in place, and a cursor within off_t stays within it |
| ApkCert.SkipOffsetIsOffT | native/src/core/cert.cpp:195 | the skip offset is the unsigned 64-bit `len - 4` reinterpreted as off_t |
| ApkCert.WalkPairs | native/src/core/cert.cpp:167-198 | the pair loop gives the walk's outcome: the v2 certificate, or the end of the block, a truncated read or exhausted fuel, with each skip moving the cursor as lseek does |
| ApkCert.ReadV2 | native/src/core/cert.cpp:176-192 | the v2 branch skips the three lengths and the digests and returns exactly the n bytes after the first certificate's length |
| ApkCert.Extract | native/src/core/cert.cpp:98-199 | the reader aborts for want of an EOCD record exactly when the scan finds none |
| ApkCert.ReadCertificate | native/src/core/cert.cpp:98-199 | the reader returns the certificate of the extraction's outcome, or the empty string on every abort |
| ApkCert.FindV2 | native/src/core/cert.cpp:167-198 | the pair loop ends without a v2 pair only by exhausting fuel, a read past the end, or a pair length equal to the block size |
| ApkCert.FindV2Fuel | native/src/core/cert.cpp:167-198 | more fuel never changes a walk that ended for another reason |
| ApkCert.WalkFuel | native/src/core/cert.cpp:167-198 | the outcome of a walk that did not run out of fuel stays the same with more fuel |
| ApkCert.EocdReads | native/src/core/cert.cpp:67-74 | an EOCD record at the end of a file passes the test for its own comment length, and its fields read back |
| ApkCert.BlockFields | native/src/core/cert.cpp:10-23 | the size fields and magic of a written signing block sit where the reader looks for them |
| ApkCert.HeaderPasses | native/src/core/cert.cpp:146-163 | a block with matching size fields and the magic passes the checks, and the walk starts after the leading size |
| ApkCert.BlockReads | native/src/core/cert.cpp:146-165 | a signing block ending at cdo passes the checks, and the walk starts at its first pair |
| ApkCert.PairSkipped | native/src/core/cert.cpp:193-196 | a written pair other than v2 is skipped, and the cursor lands on what follows it |
| ApkCert.PairsSkipped | native/src/core/cert.cpp:167-196 | written pairs other than v2 form a run the loop skips one by one |
| ApkCert.SkipPastOffTStays | native/src/core/cert.cpp:193-196 | a non-v2 pair whose skip would pass the largest off_t leaves the cursor after its ID, and the loop goes on reading there |
| ApkCert.SkipsRun | native/src/core/cert.cpp:167-196 | a run of non-v2 pairs costs one unit of fuel each and leaves the cursor after the run |
| ApkCert.V2Stops | native/src/core/cert.cpp:174-176 | the loop stops at a v2 pair, at its value |
| ApkCert.V2CertReads | native/src/core/cert.cpp:176-192 | the v2 branch reads exactly the first certificate out of a written v2 value |
| ApkCert.V2PairRead | native/src/core/cert.cpp:174-192 | a written v2 pair is one the walk stops at, with its first certificate |
| ApkCert.WalkToV2 | native/src/core/cert.cpp:167-192 | a walk over non-v2 pairs that reaches the v2 pair returns its certificate |
| ApkCert.PairsYieldCert | native/src/core/cert.cpp:165-192 | from the start of the pairs, the walk returns the certificate of the v2 pair |
| ApkCert.EocdGate | native/src/core/cert.cpp:125-143 | an EOCD record whose comment passes the version gate sends the reader to the signing block before its cdo |
| ApkCert.EocdFound | native/src/core/cert.cpp:103-143 | with no shorter comment length passing the test, the reader uses the final EOCD record and goes on to the signing block |
| ApkCert.BlockYieldsCert | native/src/core/cert.cpp:145-192 | a signing block whose pairs are other pairs and then the v2 pair yields the v2 certificate |
| ApkCert.SignedApkYieldsCert | native/src/core/cert.cpp:98-199 | the reader returns exactly the first signer's first certificate from a well-formed v2-signed APK (zip entries, signing block, central directory, EOCD) that passes the version gate |
| ApkCert.NoEocdRejected | native/src/core/cert.cpp:103-120 | when no comment length up to 0xffff passes the EOCD test, the result is empty |
| ApkCert.TooOldRejected | native/src/core/cert.cpp:133-142 | a non-negative version above the number parsed from the comment gives the empty result |
| ApkCert.GatePassed | native/src/core/cert.cpp:125-148 | past the version gate, the outcome is the signing block's before the 32-bit central directory offset |
| ApkCert.BlockHeaderNoMagic | native/src/core/cert.cpp:146-156 | the block check fails with a bad magic when the 16 bytes before the central directory offset are not `APK Sig Block 42` |
| ApkCert.BadMagicRejected | native/src/core/cert.cpp:146-156 | past the gate, a missing or wrong signing-block magic gives the empty result |
| ApkCert.BlockHeaderMagic | native/src/core/cert.cpp:146-163 | with the magic in place, the block check passes exactly when the size field `size8 + 8` bytes before the offset repeats the trailing size |
| ApkCert.SizeMismatchRejected | native/src/core/cert.cpp:157-163 | a leading size field that does not repeat the trailing one gives the empty result |
| ApkCert.BlockEndRejected | native/src/core/cert.cpp:167-171 | a pair length equal to the block size ends the walk with no certificate |
| ApkCert.FirstPairEndsBlock | native/src/core/cert.cpp:145-171 | a block whose first pair length is the block size yields no certificate |

## Left out

- Process launches (`execv`, `system`, `cmd_out`, git, cargo, cxxbridge, ndk-build, gradlew, adb) are not run. They appear as `BuildPlan.Stage` values, and every tool is taken to succeed. The commit hash and the cxxbridge output are parameters.
- The `xz` compressor is a function parameter of `PayloadHeader.BinaryDump` and `ContentCache.FileStore.DumpBinHeader`.
- The best-effort file helpers (`mv`, `cp`, `rm`, `rm_rf`, `mkdir`, `mkdir_p`), `os.chdir`, the moves after each ndk-build pass and after each cargo build, and the ELF cleaner's argument list have no decision logic. Only `CleanElf` and `RemoveTree` steps are recorded.
- The environment checks, the colour output, `header()` printing, `error()`'s exit and the argparse wiring are not modelled. An error is a `Fatal` stage or an error value.
- The network download, `tarfile.extractall`, the NDK static-library patching and the AVD ramdisk patching are device or network I/O. Only the member check of `safe_extract` is modelled; on success it returns the members that would be extracted. `TarGuard.SafeExtract` uses the check as written; `TarGuard.SafeExtractFixed` is the corrected variant of the finding below.
- TarGuard.AbsComponents: the working directory that `os.path.abspath` consults is a parameter. The POSIX special case that keeps a leading `//` is not modelled; such a path normalizes as if it started with one `/`.
- BuildConfig.ParseDecimal: accepts an optional sign and ASCII digits only. Python's `int()` also accepts underscores between digits, surrounding whitespace other than the stripped characters, and non-ASCII digits.
- BuildPlan.CargoStages: the Rust crates are a set. The order in which Python iterates `set(args.target) & set(rust_targets)` for the `-p` arguments is not modelled.
- BuildPlan.BuildTargets: the flag string is computed from the table of the six first-pass targets, in the order the six `if` statements test them. The individual `+=` statements are not spelled out.
- The `-j{cpu_count}`, `-r`/`-q` and `build-std` cargo arguments and the `CARGO_BUILD_RUSTC`/`TARGET_CC`/`RUSTFLAGS` environment are not recorded. Only the architecture, the Rust triple, `TARGET_CFLAGS`, the crates and the build type are.
- ContentCache.FileStore.DumpBinHeader: the existence check of the stub APK is in the plan (`BuildPlan.MissingStubFatal`). The method is called with the bytes of the stub and the preload libraries already read.
- node.hpp's `mount`, `create_and_mount`, `collect_module_files`, `prepare`, the `tmpfs_node` constructor and the `module_mnt`/`mirror_dir` statics are mount syscalls or are declared without a body. The mirror directory is a parameter of `MountNode.Entry.MirrorPath`, and upgrades are to root and module nodes only.
- `delete`, destructors and the `_root` lookup cache of node.hpp are left out. A consumed node stays allocated but is no longer filed in any map. `get_child`, `iterator_to_node` and `is_empty` are thin accessors. The `emplace_hint` optimisation does not change the ordered map's contents.
- MountNode.Entry.InsertAt and the methods built on it require the nodes involved to be separate trees (`CanInsert`) and the directory to satisfy its tree shape (`ValidDir`). Aliasing the C++ code would permit, such as inserting a node into its own subtree, is not covered.
- Custom nodes (`TYPE_CUSTOM`) appear only through `type_id` and `isa`. No class constructs them.
- `parse_int` of cert.cpp comes from a header outside this model. It is a function parameter of the reader.
- ApkCert.ReadCertificate: a read that runs past the end of the file is a failure and yields the empty string. In C, `read` returns the bytes that remain. They fill the low-order bytes of the integer being read, or the start of `cert` at cert.cpp:190. The rest keeps its previous contents, and the code goes on with that value.
- ApkCert.ScanEocd: when a seek would land before the start of the file, the offset counts as no match. In C, the failed `lseek` leaves the cursor where it was and the read happens there.
- ApkCert.ReadSigningBlock: a read of the leading size field that runs past the end of the file counts as a size mismatch. In C, the bytes that remain fill the low-order bytes of `signing_blk_sz`, and the rest stay 0. C still returns the empty string in every such case: the partly read value either differs from `size8`, or the cursor is at the end of the file. In the second case the loop's first `read` leaves `size8` equal to `signing_blk_sz`, and the loop breaks at cert.cpp:169.
- ApkCert.WalkPairs: the pair loop is bounded by a fuel parameter. The C loop need not terminate when a pair length is below 4 (cert.cpp:195); the model returns `OutOfFuel` then.
- ApkCert.SignedApkYieldsCert: the round trip is stated for files under 4 GiB, the range the 32-bit central directory offset can address.

## Findings

| source | as written | input that shows it | evidently intended | confidence | as-written member | corrected member |
|---|---|---|---|---|---|---|
| build.py:440-447 | `is_within_directory` compares `os.path.commonprefix` of the two absolute paths, which works character by character | directory `/sdk/ndk` (the NDK root) and member `../ndk-evil/x`: the target `/sdk/ndk-evil/x` starts with the characters `/sdk/ndk`, so the check accepts a member that lands outside the directory | accept only targets whose path components extend the directory's (what `os.path.commonpath` gives) | not executed | TarGuard.SiblingArchiveExtracted | TarGuard.SafeExtractFixed |

# roots.c: the recovery root layer, in Dafny

The recovery system names its storage volumes by *root paths* such as
`SYSTEM:lib` or `PACKAGE:update.zip`. roots.c holds the static table of roots
(`g_roots`). It resolves a root path to its table entry, and it translates a
root path to a filesystem path (`SYSTEM:lib` becomes `/system/lib`). It also
binds an update package to the `PACKAGE:` root, mounts and unmounts roots, and
formats a root's device. One step is deferred: after `recheck()`, the next
resolution of a path that contains a ':' first runs `check_fs`; a path
without a ':' resolves to nothing and leaves the probe pending. That probe
detects the filesystem
type of the CACHE:, DATA: and SYSTEM: entries by trial mounts, and records
the type and mount options in the table.

The model has these layers:

- `RootTypes` (roots_types.dfy) holds the values:
  - the root descriptor `RootInfo`;
  - the sentinel tags `g_mtd_device`, `g_mmc_device`, `g_raw` and
    `g_package_file`, as `Device.Mtd`/`Mmc` and `Fs.Raw`/`Package`. These tags
    are compared by pointer, and they read as the string `"@"` wherever the C
    code passes them to a string routine;
  - the external calls (`Call`);
  - the environment `Env`, which answers those calls.
- `RootText` (roots_text.dfy) holds the hand-written string scans: the first
  `':'`, the skipping of `'/'`, and the gluing of a mount point to a relative
  path.
- `RootTable` (roots_table.dfy) holds the table as a function of the build
  macros (`BuildConfig`), its well-formedness, and the `strncmp` name search.
- `RootsSpec` (roots_spec.dfy) gives every operation as a function from the
  state before to the state after, plus the returned value. The state `St` is:
  - the table;
  - the statics `check_need` and `already`;
  - `g_package` and `g_package_path`;
  - the kernel's mount table;
  - a trace of every external call issued.
- `Roots` (roots.dfy) holds the class `Recovery`: the same state as fields,
  and methods with the C functions' loops and branches. Most C functions
  are one method. `check_fs` is spread over seven methods (`CheckFs`,
  `ProbeRoot`, `ProbeImage`, `CheckDevice`, `ProbeDevice`, `ProbeExt`,
  `ExtTrials`). `internal_root_mounted` and `mount_internal` have no loop
  and no state change, so they stay the functions `RootMounted` and
  `MountInternal`, which the methods call inline. Each method for an
  operation is proved to produce exactly the state and result that its
  `RootsSpec` function gives, through `ensures (State(), r) ==
  …(old(State()), …)`. The exceptions are `Recheck`, which is specified
  directly on `old(State())`, and the loop helpers. `FindColon` is tied to
  `RootText.RootPrefix`, `FindRoot` to `RootTable.FirstMatch`,
  `SkipLeadingSlashes` to `RootText.SlashRun` and `Glue` to
  `RootText.JoinPath`.
- `RootsProperties` (roots_props.dfy) holds what the operations promise,
  proved as lemmas about the `RootsSpec` functions.

The kernel, the MTD and MMC drivers, `__system`, `scan_mounted_volumes` and the
formatter child are oracles in `Env`:

- every call returns the status `env.status(call)`;
- the scan returns `env.scan`;
- a child ends as `env.child(argv)`;
- the drivers find a partition when `env.mtdHas` or `env.mmcHas` says so.

A successful mount adds its target to the mount table. A successful unmount
removes it.

The `strcpy` steps of `check_fs` write into buffers that the code does not
always have. `filesystem_options` is allocated only on the first run, and it is
set to NULL when the type falls back to "auto". The model makes "the buffer
exists whenever a copy into it is reached" a precondition (`EntrySafe`,
`LoopSafe`, which every resolving operation carries as `ResolveReady`). The
model does not assume this precondition holds. `RootsProperties.InitialProbeSafe`
proves that it holds for the first probe on every board configuration.
`RootsProperties.RerunAfterAutoUnsafe` shows how a later run can break it.

Behaviours of roots.c that a reader may not expect, which the model keeps:

- `is_package_root_path` looks only at the table, and never at the binding. It
  stays true after the package is unbound.
- `translate_package_root_path` succeeds while no package is bound, and hands
  back a NULL package.
- In `format_root_device`, every device that is not MMC takes the `fork`
  branch and returns inside it, and that includes MTD devices. The MTD erase code
  after that branch (roots.c:545-582) cannot be reached, so an MTD root is
  handed to `/sbin/stl.format` with the device text `"@"`.
- A failed `mmc_format_ext3` is only logged. The MMC path then returns the
  status of `format_non_mtd_device`.
- `ensure_root_path_mounted` is not idempotent for an MTD root without a
  mount point (BOOT:, MBM:). Such a root never reads as mounted, so every call
  asks the driver to mount the partition again
  (`RootsProperties.MountRepeatsWithoutMountPoint`, and on the built table
  `RootsProperties.BootMountRepeats`). `RootsProperties.MountIdempotent` is
  therefore stated for roots with a mount point.
- `is_root_path_mounted` answers 0, not an error, for a root with no mount
  point and whenever the mount table cannot be read
  (`RootsProperties.NotMountedWithoutPointOrScan`).
- Rebinding the package root overwrites `g_package_path` without freeing it.
  The model records the dropped path in the ghost `leaked`.

## Model

| member | source | states |
|---|---|---|
| RootTable.Table | roots.c:47-62 | the root table in source order, with DATADATA: inserted after SYSTEM: when the board has it |
| RootTable.TableWellFormed | roots.c:47-62 | every name in the table is a root name: its only ':' is its last character; entries 1 to 3 have a device and a mount point; an MMC entry names a filesystem; the table has 11 entries, or 12 with DATADATA: |
| RootTable.FirstMatchFrom | roots.c:221-228 | the index found is the first one from `i` on whose name starts with the prefix; None means that no name from `i` on starts with it |
| RootTable.FirstMatch | roots.c:221-228 | the strncmp search from the first entry: the index found is the first entry whose name starts with the prefix, and None means no name does; `RootTable.FirstMatchIsFirstNamed` turns this into name equality |
| RootTable.FirstMatchIsFirstNamed | roots.c:221-228 | in a well-formed table the `strncmp` match is name equality, so the entry found is the first one named by the prefix, and None means that no entry has that name |
| RootTable.NameIsOwnPrefix | roots.c:207-221 | a root name is its own root prefix, so a lookup by a root's name uses that whole name |
| RootText.ColonIndex | roots.c:207-213 | the index of the first ':', and None exactly when the string has no ':' |
| RootText.RootPrefix | roots.c:207-221 | the prefix through the first ':', which ends in ':' and has no other ':', and None exactly when there is no ':' |
| RootText.FirstColon | roots.c:207-213 | a ':' with no ':' before it is the one the colon scan stops at |
| RootText.SlashRun | roots.c:297-300 | the index where the run of '/' starting at `i` ends: every character before it from `i` on is '/', and the character at it is not |
| RootText.JoinPath | roots.c:310-316 | the result starts with the mount point, ends with the rest, has a '/' between the two, and is one character longer unless the mount point ends in '/' |
| RootText.JoinPathSplit | roots.c:296-316 | the joined text ends in the remainder after the '/' run, behind a '/', and the text up to the run, the run and that remainder rebuild the path |
| RootTypes.MountEffect | roots.c:333-341 | a failed call leaves the mount table as it is; a successful mount, mount command or MTD mount adds its target (an MTD mount with no target adds nothing); a successful unmount removes it; format and check calls do not change it |
| RootTypes.DeviceText | roots.c:37-41 | a device path reads as itself and a sentinel tag as "@", the string a C routine sees in "@\0g_mtd_device"; `RootsProperties.MtdRootGoesToStlFormat` shows the consequence for formatting |
| RootTypes.FsText | roots.c:37-41 | a filesystem name reads as itself and the raw and package tags as "@"; `RootsSpec.MountReport` and `RootsProperties.FormatReport` use it for the type handed to mount and to the ext3 test |
| RootsSpec.RootMounted | roots.c:67-89 | the result is non-negative exactly when the root has a mount point, the scan succeeds, and that point is mounted; a failed scan's error comes back as it is |
| RootsSpec.UnmountAt | roots.c:401-426 | an unresolved root gives -1 with no call; no mount point gives 0 with no scan and no call; a failed scan gives its error with no call; a root that is not mounted gives 0 with no call; otherwise exactly one unmount of the mount point is issued, its status is the answer, and the answer is 0 exactly when the point is left unmounted; roots and settings are unchanged and the mount table only shrinks |
| RootsSpec.UnmountReport | roots.c:401-426 | the whole outcome of ensure_root_path_unmounted on a resolved root, case by case, as listed for `RootsSpec.UnmountAt`, which ensures it |
| RootsSpec.UnmountPath | roots.c:398-427 | resolution, then `UnmountAt`; its contract is `RootsProperties.UnmountOutcome` |
| RootsSpec.Perform | roots.c:333-341 | a call is appended to the trace and applied to the mount table, and nothing else changes |
| RootsSpec.ProbeEntry | roots.c:144-189 | one probe step changes only entry `i`, and only its filesystem and options; the filesystem is kept or becomes a type name |
| RootsSpec.ValidKept | roots.c:144-186 | a probe step that keeps the layout and only ever records type names keeps the table well-formed |
| RootsSpec.ProbeImage | roots.c:151-159 | an /sdcard/ image changes only the filesystem and options of entry `i`, and records a type name |
| RootsSpec.CheckDevice | roots.c:168-172 | the e2fsck run is in the trace; the table and the settings are unchanged; the mount table only shrinks |
| RootsSpec.ProbeDevice | roots.c:160-166 | the probe of a device changes only the filesystem and options of entry `i`, and records a type name |
| RootsSpec.RfsTrial | roots.c:162-187 | the rfs trial, or else the ext fallback, changes only the filesystem and options of entry `i`, and records a type name |
| RootsSpec.ProbeExt | roots.c:167-186 | the e2fsck run and the ext2/ext4/auto fallback change only the filesystem and options of entry `i`, and record a type name |
| RootsSpec.ExtTrials | roots.c:173-186 | the ext2, then ext4, trial changes only the filesystem and options of entry `i`, and records a type name |
| RootsSpec.ProbeLoop | roots.c:144-189 | the probe loop changes nothing outside entries `i` to 3, keeps names, devices and mount points, and only ever records type names |
| RootsSpec.LoopStep | roots.c:144-189 | a step on entry `i` followed by the steps on `i + 1` to 3 changes nothing outside `i` to 3, keeps the layout, and only records type names |
| RootsSpec.Probe | roots.c:139-198 | check_fs keeps the table's layout, sets `already`, leaves the binding, changes no entry outside 1 to 3, and only records type names |
| RootsSpec.Resolve | roots.c:200-229 | the entry found is the one named by the path's prefix through its first ':' in the table after any pending probe; the probe is cleared once the path has a ':'; the binding and the entries outside 1 to 3 are unchanged |
| RootsSpec.Lookup | roots.c:220-228 | the entry named by the path's prefix through its first ':', by the strncmp search, and None for a path without ':'; its meaning is stated by `RootsProperties.ResolveWithColon` and `RootsProperties.ResolveWithoutColon` |
| RootsSpec.IsMountedPath | roots.c:321-329 | the state is that of the resolution; the answer is -1, 0 or 1; -1 exactly when the root is unresolved; 1 exactly when the root has a mount point, the scan works and that point is in the mount table |
| RootsSpec.MountInternal | roots.c:331-342 | a direct mount happens exactly when the type is not "auto" and no options are set, with the fixed flags and empty data; otherwise it is the mount command with the recorded options, or with the default options when there are none; both target the mount point |
| RootsSpec.MountAt | roots.c:347-395 | an unresolved root gives -1 and a mounted root gives 0, with no call; an MTD root without a partition name, or whose partition the driver lacks, gives -1 with no call, and otherwise one MTD mount is issued and its status is the answer; any other root missing its device, mount point or filesystem, or tagged raw or package, gives -1 with no call; otherwise the first call is the mount built by `MountInternal`, a success gives 0, and a failure tries the device2 mount when device2 is set and gives 0 exactly when that succeeds, else -1; the table and the settings are unchanged |
| RootsSpec.MountReport | roots.c:347-395 | the whole outcome of ensure_root_path_mounted on a resolved root, case by case, as listed for `RootsSpec.MountAt`, which ensures it |
| RootsSpec.MountPath | roots.c:344-396 | resolution, then `MountAt`; its contract is `RootsProperties.MountOutcome`, with `RootsProperties.MountIdempotent` and `RootsProperties.MountRepeatsWithoutMountPoint` |
| RootsSpec.Register | roots.c:234-249 | the answer is -1 exactly when a package is given and its path cannot be copied, and then nothing changes; otherwise the package is bound, with the path when non-NULL and with no path when NULL; the table, the flags and the mount table do not change |
| RootsSpec.IsPackageRootPath | roots.c:251-256 | resolution, then whether the entry carries the package tag; its contract is `RootsProperties.PackageRootIsPackagePrefix` |
| RootsSpec.TranslatePackagePath | roots.c:258-279 | resolution, then the rest after the root name and the bound package when the entry carries the package tag and the rest fits; its contract is `RootsProperties.TranslatePackageOutcome` |
| RootsSpec.TranslatePath | roots.c:285-319 | nothing for an empty buffer, else resolution then `TranslateAt`; its contract is `RootsProperties.TranslateOutcome` and `RootsProperties.TranslateRoundTrip` |
| RootsSpec.TranslateAt | roots.c:293-318 | the mount point joined to the path's rest after its '/' run, when the root has a mount point and the result fits; its contract is `RootsProperties.TranslateOutcome` |
| RootsSpec.FormatterArgv | roots.c:496-531 | a name starting "ext" gives mke2fs with "-T name" and the fixed flags, plus "-O ^huge_file,extent" exactly when the name starts "ext4"; anything else, including no filesystem, gives stl.format; the device is always last |
| RootsSpec.FormatPath | roots.c:447-543 | resolution, then `FormatAt`; its contract is `RootsProperties.FormatOutcome` |
| RootsSpec.FormatAt | roots.c:465-543 | format_root_device on a resolved root; its contract is `RootsProperties.FormatAtOutcome` |
| RootsSpec.FormatUnmounted | roots.c:473-543 | format_root_device after its unmount step; its contract is `RootsProperties.FormatUnmountedOutcome` |
| RootsSpec.WithFs | roots.c:144-186 | entry `i` gets the given filesystem and options, and nothing else changes |
| RootsSpec.Allocated | roots.c:146 | on the first run the entry gets a fresh options buffer with unknown contents; on later runs it keeps its buffer |
| RootsSpec.SetFs | roots.c:156-183 | the two strcpy steps record the type name and the options text |
| RootsSpec.RfsProbe | roots.c:162 | the rfs trial mount: no-dev and no-suid flags and the rfs data string; `RootsProperties.ProbeRecordsFirstAccepted` states what it records |
| RootsSpec.Ext2Probe | roots.c:173 | the ext2 trial mount with the four probe flags and no data; `RootsProperties.ProbeRecordsFirstAccepted` states what it records |
| RootsSpec.Ext4Probe | roots.c:178 | the ext4 trial mount with the four probe flags and no data; `RootsProperties.ProbeRecordsFirstAccepted` states what it records |
| RootsProperties.FirstMatchFromSameNames | roots.c:221-228 | two tables with the same names in the same order give the same match |
| RootsProperties.ResolveWithoutColon | roots.c:207-214 | a path with no ':' resolves to nothing, and the state, with any pending probe, is unchanged |
| RootsProperties.ResolveWithColon | roots.c:214-228 | a pending probe runs exactly once and is cleared; the entry found is the first one named by the prefix, which is the same entry the table named before the probe |
| RootsProperties.TableLookup | roots.c:47-62 | in the built table, a name finds its first entry |
| RootsProperties.SystemEntry | roots.c:51 | SYSTEM: is entry 3 of the built table and is mounted at /system |
| RootsProperties.BootEntry | roots.c:48 | BOOT: is entry 0 of the built table, an MTD partition "boot" tagged raw with no mount point, and it is its own root prefix |
| RootsProperties.ResolveSystem | roots.c:200-229 | every path starting "SYSTEM:" resolves to the first SYSTEM: entry |
| RootsProperties.SystemTranslation | roots.c:296-318 | with SYSTEM: at /system, "SYSTEM:lib" becomes "/system/lib" when 12 bytes fit |
| RootsProperties.TranslateOutcome | roots.c:285-319 | the translation fails when the root is unresolved or has no mount point, or when the mount point, the rest and two more bytes do not fit; otherwise it is the joined path, strictly shorter than the buffer |
| RootsProperties.TranslateRoundTrip | roots.c:285-319 | a translation can be undone: the output starts with the mount point, and its tail after the separating '/' is the rest of the path, which behind the root prefix and the skipped '/' characters gives the path back |
| RootsProperties.TranslateEmptyBuffer | roots.c:288-290 | a zero-length buffer fails at once, without resolving |
| RootsProperties.TranslateSystemLib | roots.c:280-319 | with the built table, "SYSTEM:lib" becomes "/system/lib", whatever the probe does, given room for 12 bytes |
| RootsProperties.TranslateSystemLibOn | roots.c:280-319 | the same for any table whose first SYSTEM: entry is index 3, mounted at /system |
| RootsProperties.TablePackageTagged | roots.c:47-62 | in the built table, the package tag is carried exactly by the PACKAGE: entry, which the probe does not visit |
| RootsProperties.ResolveKeepsPackageTagged | roots.c:200-229 | resolving a path, with any probe it runs, keeps a table package-tagged |
| RootsProperties.PackageTaggedKept | roots.c:139-198 | a change confined to entries 1 to 3 that keeps the layout and records only type names keeps a table package-tagged |
| RootsProperties.ResolvedPackageTag | roots.c:251-256 | the entry resolved carries the package tag exactly when the prefix is "PACKAGE:" |
| RootsProperties.PackageRootIsPackagePrefix | roots.c:251-256 | for any package-tagged table (the built one, and every table reached from it by resolution), a path is the package root exactly when its prefix is "PACKAGE:", whether or not a package is bound |
| RootsProperties.PackageRootIgnoresUnbinding | roots.c:243-256 | for any package-tagged table, unbinding the package does not change whether a path is the package root |
| RootsProperties.TranslatePackageOutcome | roots.c:258-279 | for any package-tagged table, the package translation succeeds exactly for a "PACKAGE:" path whose rest fits with its terminator; it gives that rest and the bound package, which may be None |
| RootsProperties.RegisterFailureKeepsBinding | roots.c:237-241 | when the copy fails, nothing changes and the answer is -1 |
| RootsProperties.RebindLeaksPath | roots.c:237-248 | rebinding installs the new package and path, and the old path is dropped without being freed |
| RootsProperties.MountOutcome | roots.c:344-396 | every case of `MountAt` holds of the root the path resolves to, in the state after resolution: the -1 answers with no call, the MTD status passed back, the first mount built by `MountInternal`, and the device2 retry exactly when the first mount failed and device2 is set |
| RootsProperties.MountedAfterSuccess | roots.c:344-396 | a 0 answer means the root was resolved, and its mount point, if any, is in the mount table |
| RootsProperties.MountedAtAfterSuccess | roots.c:350-395 | the same, once the root is resolved |
| RootsProperties.MountIdempotent | roots.c:344-396 | after a success on a root with a mount point, and while the scan works, mounting again gives 0 and changes nothing |
| RootsProperties.MountRepeatsWithoutMountPoint | roots.c:344-373 | an MTD root with no mount point whose partition the driver finds is mounted again on every call: each call appends the same driver mount |
| RootsProperties.BootMountRepeats | roots.c:344-373 | with the built table, the first mount of BOOT: issues the driver mount of "boot" with no target, and the second issues it again |
| RootsProperties.MountedRootReportsMounted | roots.c:321-396 | after a successful mount of a root with a mount point, and while the scan works, the root reads as mounted (1) |
| RootsProperties.NotMountedWithoutPointOrScan | roots.c:321-329 | a resolved root with no mount point, or any resolved root while the scan fails, reads 0, not an error |
| RootsProperties.UnmountOutcome | roots.c:398-427 | every case of `UnmountAt` holds of the root the path resolves to: -1 unresolved, 0 with no call for no mount point or a root not mounted, a failed scan's error, otherwise one unmount whose status is the answer |
| RootsProperties.UnmountIdempotent | roots.c:398-427 | after a 0 answer, unmounting again gives 0 and changes nothing |
| RootsProperties.UnmountedRootReportsUnmounted | roots.c:321-427 | after a successful unmount the root reads as not mounted (0) |
| RootsProperties.FirstAccepted | roots.c:162-186 | the index of the first trial mount with status 0, and None exactly when every trial fails |
| RootsProperties.ProbeRecordsFirstAccepted | roots.c:160-187 | a device that is not /sdcard/ gets the type and options of the first of rfs, ext2 and ext4 that mounts, which leaves it mounted; when all three fail it gets "auto" with no options, and nothing new is left mounted |
| RootsProperties.ProbeImageIsExt4 | roots.c:151-159 | an /sdcard/ image is checked with e2fsck, then recorded as ext4 with the loop options |
| RootsProperties.CheckDeviceOnlyChecks | roots.c:168-172 | on an entry the probe visits because it is not mounted, and that its own name finds, the check is the e2fsck call alone: the unmount after it issues no call and the mount table is unchanged |
| RootsProperties.ProbeSkipsMounted | roots.c:146-147 | an entry that is already mounted is left as it is, apart from the options buffer of the first run |
| RootsProperties.FirstProbeSafeFrom | roots.c:144-189 | on the first run, every copy of the probe from entry `i` on has its buffer, given that the entries name a filesystem |
| RootsProperties.InitialProbeSafe | roots.c:139-198 | the first probe after start-up is safe on every board configuration |
| RootsProperties.RerunAfterAutoUnsafe | roots.c:146-185 | on a rerun, an entry left at "auto" has no options buffer, so a trial mount that now succeeds would copy its options into NULL |
| RootsProperties.ProbeUnmountsSystemAndData | roots.c:193-197 | when the scan works and both unmounts succeed, check_fs leaves neither the first SYSTEM: entry's mount point nor the first DATA: entry's mount point in the mount table |
| RootsProperties.ProbeLeavesSystemAndDataUnmounted | roots.c:139-198 | with the built table, the first probe is safe, and when the scan works and both unmounts succeed it leaves neither /system nor /data mounted |
| RootsProperties.FormatOutcome | roots.c:447-543 | an unresolved root, or one with no device, gives -1; an unmount error comes back as it is; an MMC root without its partition gives -1, and otherwise issues the ext3 wipe when its filesystem is "ext3", then format_non_mtd_device, whose status is the answer whatever the wipe did; every other device runs the formatter for its filesystem name, and gives 0 exactly when the formatter exits with status 0 |
| RootsProperties.FormatAtOutcome | roots.c:465-543 | the same calls and answers, once the root is resolved |
| RootsProperties.FormatReport | roots.c:465-543 | the whole outcome of format_root_device on a resolved root: -1 with nothing changed for an unresolved root or one without a device, otherwise `UnmountedFormatReport` after the unmount step; `RootsProperties.FormatAtOutcome` proves it |
| RootsProperties.UnmountedFormatReport | roots.c:473-543 | after the unmount step: its error as it is; for MMC, -1 without the partition, else the ext3 wipe when the type is "ext3" and then format_non_mtd_device, whose status is the answer; for every other device the formatter child, and 0 exactly when it exited with status 0 |
| RootsProperties.FormatUnmountedOutcome | roots.c:473-543 | `FormatUnmounted` meets every case of `UnmountedFormatReport`, with the exact calls issued |
| RootsProperties.MtdRootGoesToStlFormat | roots.c:496-543 | a raw MTD root is handed to stl.format with the device text "@" and is never erased through its driver |
| RootsProperties.Ext4Formatter | roots.c:496-531 | the exact command lines for ext4, ext2, rfs and no filesystem |
| Roots.Recovery.constructor | roots.c:38-62 | the initial state: the built table, both flags clear, nothing bound |
| Roots.Recovery.Recheck | roots.c:92-94 | sets `check_need` and changes nothing else |
| Roots.Recovery.Issue | roots.c:333-341 | one external call: its status, recorded and applied to the mount table |
| Roots.Recovery.Spawn | roots.c:496-535 | runs the formatter child, records it, and reports how it ended |
| Roots.Recovery.GetRootInfo | roots.c:200-229 | the colon scan, the pending probe, and the table scan, with the same state and result as `Resolve` |
| Roots.Recovery.RunPendingProbe | roots.c:215-218 | a pending probe is cleared and run once; with none pending nothing changes |
| Roots.Recovery.FindColon | roots.c:207-213 | the colon scan stops at the first ':', and reaches the end exactly when there is none |
| Roots.Recovery.FindRoot | roots.c:221-228 | the table scan finds the first entry whose name starts with the prefix |
| Roots.Recovery.RegisterPackageRoot | roots.c:234-249 | the same as `Register` |
| Roots.Recovery.IsPackageRoot | roots.c:251-256 | the same as `IsPackageRootPath` |
| Roots.Recovery.TranslatePackageRootPath | roots.c:258-279 | the same as `TranslatePackagePath` |
| Roots.Recovery.TranslateRootPath | roots.c:285-319 | the same as `TranslatePath` |
| Roots.Recovery.TranslateResolved | roots.c:293-318 | changes nothing and gives `TranslateAt`, the part of `TranslatePath` after resolution |
| Roots.Recovery.SkipLeadingSlashes | roots.c:297-300 | the slash loop stops at `SlashRun`, the end of the run of '/' after the root name |
| Roots.Recovery.Glue | roots.c:310-316 | the memcpy steps build `JoinPath` of the mount point and the rest |
| Roots.Recovery.IsRootPathMounted | roots.c:321-329 | the state and result of `IsMountedPath`: -1 exactly when the root is unresolved, 1 exactly when it has a mount point, the scan works and that point is in the mount table, and 0 otherwise |
| Roots.Recovery.EnsureRootPathMounted | roots.c:344-396 | the same as `MountPath` |
| Roots.Recovery.EnsureRootPathUnmounted | roots.c:398-427 | the same as `UnmountPath` |
| Roots.Recovery.CopyFs | roots.c:156-183 | the same as `SetFs` |
| Roots.Recovery.CheckFs | roots.c:139-198 | the loop over entries 1 to 3, keeping the state equal to `ProbeLoop` of the start; then `already`, and the SYSTEM: and DATA: unmounts; the same as `Probe` |
| Roots.Recovery.ProbeRoot | roots.c:144-189 | the same as `ProbeEntry` |
| Roots.Recovery.ProbeImage | roots.c:151-159 | the same as `RootsSpec.ProbeImage` |
| Roots.Recovery.CheckDevice | roots.c:168-172 | the same as `RootsSpec.CheckDevice`, with the nested unmount running the real method |
| Roots.Recovery.ProbeDevice | roots.c:160-166 | the same as `RootsSpec.ProbeDevice` |
| Roots.Recovery.ProbeExt | roots.c:167-186 | the same as `RootsSpec.ProbeExt` |
| Roots.Recovery.ExtTrials | roots.c:173-186 | the same as `RootsSpec.ExtTrials` |
| Roots.Recovery.FormatRootDevice | roots.c:447-543 | the same as `FormatPath` |
| Roots.Recovery.FormatResolved | roots.c:465-543 | the same as `FormatAt`, the part of `FormatPath` after resolution |

## Left out

- `create_mtab` and `create_mknods` are left out. `create_mtab` makes sure /etc/mtab exists, and recreates /etc first when it is not a directory. `create_mknods` probes /dev/loopN and creates the missing nodes with mknod. Nothing in the modeled functions reads either result.
- The `mkdir`, `chdir` and `unlink` calls in `check_fs` and `ensure_root_path_mounted` are left out: their results are ignored.
- `fork`, `execv` and `_exit` become one `Spawn` call that yields the child's end. The `waitpid(WNOHANG)`/`sleep` polling loop, `ui_print` and the LOG macros are left out.
- A failed `fork` is not modeled. On that path the parent still polls `waitpid` and then reads a `status` that was never set (roots.c:496-538). `Spawn` always yields some end of a child.
- The MTD and MMC drivers, `scan_mounted_volumes`, `__system`, `mount`/`umount` and `format_non_mtd_device` are oracles in `Env`, and their workings are not modeled. extendedcommands is not part of this model. Each oracle gives one fixed answer per call value.
- `e2fsck` checks a filesystem without mounting it, so the shell call that runs it leaves the mount table as it is. The defensive unmount after each check (roots.c:156 and roots.c:172) therefore finds the entry unmounted and issues no call (`RootsProperties.CheckDeviceOnlyChecks`). A check that did leave the entry mounted is not modeled, and "nothing new is left mounted" in `ProbeRecordsFirstAccepted` rests on this.
- `get_root_mtd_partition` is not modeled. It is a thin wrapper over the MTD driver lookup. Under `BOARD_HAS_MTD_CACHE` its guard lets "CACHE:" through even when that entry's device is not the MTD tag or it has no partition name, and the entry's partition name then goes to the MTD driver.
- The MTD erase branch (roots.c:545-582) is not modeled, since no input reaches it.
- The `format_root_device` check of the root name is commented out in the source, and the leading colon loop that remains has no effect, so both are left out.
- Memory is not modeled: neither a failed `malloc` or `calloc` nor the leak of the `calloc`'d filesystem string. `strdup` failure is the `dupOk` parameter.
- The `strcpy` into a filesystem string that a macro supplies, and the aliasing of one buffer by two entries, are not modeled. A written string is recorded as the entry's new value.
- Strings are modeled without their terminating NUL, and lengths count characters without it. A path with an embedded NUL, where the C scans would stop early, is outside the model. The `fst[10]` buffer of `format_root_device` overflows for a filesystem name longer than 6 characters, and this is not modeled.
- The build macros (`HAS_DATADATA`, the `*_DEVICE`, `*_FILESYSTEM` and `*_FILESYSTEM_OPTIONS` values) are parameters (`BuildConfig`). Their values on each board are not modeled.

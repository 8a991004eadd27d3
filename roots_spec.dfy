/**
 * What each operation of roots.c does, as a function from the state before
 * the call to the state after it and the value returned. The state is the
 * root table, the static flags check_need and already, the package binding,
 * the kernel's mount table and a trace of every external call issued.
 * The class in roots.dfy is proved to implement exactly these functions.
 */
module RootsSpec {

  import opened RootTypes
  import opened RootText
  import opened RootTable

  datatype St = St(
    roots: seq<RootInfo>,
    checkNeed: bool,            // static check_need
    already: bool,              // check_fs's static already
    package: Option<Archive>,   // g_package
    packagePath: Option<string>, // g_package_path
    leaked: seq<string>,        // package paths dropped without free
    mounted: set<string>,       // mount points in the kernel's mount table
    calls: seq<Call>)           // external calls, in the order issued

  predicate Valid(st: St) {
    WellFormedTable(st.roots)
  }

  /** Nothing but an entry's filesystem and options ever changes. */
  predicate SameLayout(a: seq<RootInfo>, b: seq<RootInfo>) {
    && |a| == |b|
    && forall i :: 0 <= i < |a| ==>
         && a[i].name == b[i].name && a[i].device == b[i].device && a[i].device2 == b[i].device2
         && a[i].partitionName == b[i].partitionName && a[i].mountPoint == b[i].mountPoint
  }

  /** `b` is `a` with at most the filesystem and the options of entry `i` changed. */
  predicate OnlyFsAt(a: seq<RootInfo>, b: seq<RootInfo>, i: nat)
    requires i < |a|
  {
    |b| == |a| && b == a[i := a[i].(filesystem := b[i].filesystem, options := b[i].options)]
  }

  lemma OnlyFsAtFrame(a: seq<RootInfo>, b: seq<RootInfo>, i: nat)
    requires i < |a| && OnlyFsAt(a, b, i)
    ensures SameLayout(a, b)
    ensures forall j :: 0 <= j < |a| && j != i ==> b[j] == a[j]
  {
  }

  /** The flags and the package binding are the same in `a` and `b`. */
  predicate SameSettings(a: St, b: St) {
    && a.checkNeed == b.checkNeed && a.already == b.already
    && a.package == b.package && a.packagePath == b.packagePath && a.leaked == b.leaked
  }

  /** The probe keeps an entry's filesystem or records a type name in it. */
  predicate FsKept(before: RootInfo, after: RootInfo) {
    after.filesystem == before.filesystem || (after.filesystem.Some? && after.filesystem.value.Named?)
  }

  /** A table stays well formed when only filesystems and options change, and only as the probe changes them. */
  lemma ValidKept(a: St, b: St)
    requires Valid(a) && SameLayout(a.roots, b.roots)
    requires forall j :: 0 <= j < |a.roots| ==> FsKept(a.roots[j], b.roots[j])
    ensures Valid(b)
  {
    forall j | 0 <= j < |b.roots| ensures WellFormedEntry(b.roots[j]) {
      assert FsKept(a.roots[j], b.roots[j]);
    }
  }

  /** Entry `i` is one the probe visits, with the device and mount point it reads. */
  predicate Probeable(st: St, i: nat) {
    1 <= i < 4 && i < |st.roots| && st.roots[i].device.Some? && st.roots[i].mountPoint.Some?
  }

  /** Issue `c`: record it and apply its effect on the mount table. */
  function Perform(st: St, c: Call, env: Env): (r: St)
    ensures r.roots == st.roots && SameSettings(st, r)
    ensures r.calls == st.calls + [c]
    ensures r.mounted == MountEffect(st.mounted, c, env.status(c))
  {
    st.(mounted := MountEffect(st.mounted, c, env.status(c)), calls := st.calls + [c])
  }

  /**
   * internal_root_mounted (roots.c:67-89): 0 when the root's mount point is
   * in the mount table, the scan's error when the scan fails, -1 otherwise.
   */
  function RootMounted(mounted: set<string>, info: RootInfo, env: Env): (r: int)
    ensures r >= 0 <==> info.mountPoint.Some? && env.scan >= 0 && info.mountPoint.value in mounted
    ensures r >= 0 ==> r == 0
    ensures info.mountPoint.Some? && env.scan < 0 ==> r == env.scan
  {
    if info.mountPoint.None? then -1
    else if env.scan < 0 then env.scan
    else if info.mountPoint.value in mounted then 0
    else -1
  }

  /** The entry a path names, leaving the deferred probe aside. */
  function Lookup(st: St, path: string): (r: Option<nat>)
    ensures r.Some? ==> r.value < |st.roots|
  {
    match RootPrefix(path)
    case None => None
    case Some(p) => FirstMatch(st.roots, p)
  }

  /**
   * What ensure_root_path_unmounted answers once the root is resolved to `i`:
   * -1 unresolved; 0 with no call for a root without a mount point or one
   * that is not mounted; the scan's error; otherwise one unmount, whose
   * status comes back as it is and is 0 exactly when the point is gone.
   */
  predicate UnmountReport(st: St, i: Option<nat>, env: Env, out: (St, int))
    requires i.Some? ==> i.value < |st.roots|
  {
    && (i.None? ==> out == (st, -1))
    && (i.Some? ==>
          var mp := st.roots[i.value].mountPoint;
          && (mp.None? ==> out == (st, 0))
          && (mp.Some? && env.scan < 0 ==> out == (st, env.scan))
          && (mp.Some? && env.scan >= 0 && mp.value !in st.mounted ==> out == (st, 0))
          && (mp.Some? && env.scan >= 0 && mp.value in st.mounted ==>
                && out.0.calls == st.calls + [Unmount(mp.value)]
                && out.1 == env.status(Unmount(mp.value))
                && (out.1 == 0 <==> mp.value !in out.0.mounted)))
  }

  /** ensure_root_path_unmounted (roots.c:401-426) once the root is resolved to `r`. */
  function UnmountAt(st: St, r: Option<nat>, env: Env): (res: (St, int))
    requires r.Some? ==> r.value < |st.roots|
    ensures res.0.roots == st.roots && SameSettings(st, res.0)
    ensures res.1 == 0 && r.Some? && st.roots[r.value].mountPoint.Some? ==>
              st.roots[r.value].mountPoint.value !in res.0.mounted
    ensures res.0.mounted <= st.mounted
    ensures UnmountReport(st, r, env, res)
  {
    if r.None? then (st, -1)
    else
      var mp := st.roots[r.value].mountPoint;
      if mp.None? then (st, 0)
      else if env.scan < 0 then (st, env.scan)
      else if mp.value !in st.mounted then (st, 0)
      else
        var c := Unmount(mp.value);
        (Perform(st, c, env), env.status(c))
  }

  // ---------------------------------------------------------------------
  // check_fs (roots.c:139-198)

  const SdcardPrefix := "/sdcard/"
  const LoopOptions := "loop,nodev,nosuid,noatime,nodiratime,data=ordered"
  const RfsData := "codepage=utf8,xattr,check=no"
  const RfsOptions := "nodev,nosuid,codepage=utf8,xattr,check=no"
  const Ext2Options := "nodev,nosuid,noatime,nodiratime"
  const Ext4Options := "nodev,nosuid,noatime,nodiratime,data=ordered"
  const ProbeFlags: set<MountFlag> := {NoDev, NoSuid, NoAtime, NoDirAtime}

  function RfsProbe(dev: string, mp: string): Call {
    Mount(dev, mp, "rfs", {NoDev, NoSuid}, Some(RfsData))
  }

  function Ext2Probe(dev: string, mp: string): Call {
    Mount(dev, mp, "ext2", ProbeFlags, None)
  }

  function Ext4Probe(dev: string, mp: string): Call {
    Mount(dev, mp, "ext4", ProbeFlags, None)
  }

  /** Entry `i` with a new filesystem and options; nothing else changes. */
  function WithFs(st: St, i: nat, fs: Option<Fs>, opts: Option<OptBuf>): (r: St)
    requires i < |st.roots|
    ensures OnlyFsAt(st.roots, r.roots, i) && SameSettings(st, r)
    ensures r.mounted == st.mounted && r.calls == st.calls
    ensures r.roots[i].filesystem == fs && r.roots[i].options == opts
  {
    st.(roots := st.roots[i := st.roots[i].(filesystem := fs, options := opts)])
  }

  /** On the first run every visited entry gets a fresh, unwritten options buffer. */
  function Allocated(st: St, i: nat): (r: St)
    requires i < |st.roots|
    ensures OnlyFsAt(st.roots, r.roots, i) && SameSettings(st, r)
    ensures r.mounted == st.mounted && r.calls == st.calls
    ensures r.roots[i].filesystem == st.roots[i].filesystem
    ensures r.roots[i].options == if st.already then st.roots[i].options else Some(Uninitialized)
  {
    if st.already then st
    else WithFs(st, i, st.roots[i].filesystem, Some(Uninitialized))
  }

  /** strcpy of a filesystem name and of an options string into the entry's buffers. */
  function SetFs(st: St, i: nat, fs: string, opts: string): (r: St)
    requires i < |st.roots| && st.roots[i].options.Some?
    ensures OnlyFsAt(st.roots, r.roots, i) && SameSettings(st, r)
    ensures r.mounted == st.mounted && r.calls == st.calls
    ensures r.roots[i].filesystem == Some(Named(fs)) && r.roots[i].options == Some(Text(opts))
  {
    WithFs(st, i, Some(Named(fs)), Some(Text(opts)))
  }

  /**
   * The strcpy steps of visiting entry `i` write into buffers that exist:
   * the options buffer whenever a type is recorded, and also the
   * filesystem string on the /sdcard/ image path.
   */
  predicate EntrySafe(st: St, i: nat, env: Env)
    requires Valid(st) && 1 <= i < 4
  {
    var s0 := Allocated(st, i);
    var info := s0.roots[i];
    var dev := DeviceText(info.device.value);
    var mp := info.mountPoint.value;
    RootMounted(s0.mounted, info, env) < 0 ==>
      if StartsWith(dev, SdcardPrefix) then info.filesystem.Some? && info.options.Some?
      else
        (env.status(RfsProbe(dev, mp)) == 0 || env.status(Ext2Probe(dev, mp)) == 0
         || env.status(Ext4Probe(dev, mp)) == 0) ==> info.options.Some?
  }

  /** One iteration of check_fs's loop, on table index `i`. */
  function ProbeEntry(st: St, i: nat, env: Env): (r: St)
    requires Valid(st) && 1 <= i < 4 && EntrySafe(st, i, env)
    ensures Valid(r) && SameLayout(st.roots, r.roots) && SameSettings(st, r)
    ensures forall j :: 0 <= j < |st.roots| && j != i ==> r.roots[j] == st.roots[j]
    ensures FsKept(st.roots[i], r.roots[i])
  {
    var s0 := Allocated(st, i);
    var info := s0.roots[i];
    var r := if RootMounted(s0.mounted, info, env) >= 0 then s0
      else if StartsWith(DeviceText(info.device.value), SdcardPrefix) then ProbeImage(s0, i, env)
      else ProbeDevice(s0, i, env);
    OnlyFsAtFrame(st.roots, r.roots, i);
    ValidKept(st, r);
    r
  }

  /** A loop-mounted image under /sdcard/: checked, then recorded as ext4. */
  function ProbeImage(s0: St, i: nat, env: Env): (r: St)
    requires Probeable(s0, i) && s0.roots[i].filesystem.Some? && s0.roots[i].options.Some?
    ensures OnlyFsAt(s0.roots, r.roots, i) && SameSettings(s0, r)
    ensures r.roots[i].filesystem.Some? && r.roots[i].filesystem.value.Named?
  {
    SetFs(CheckDevice(s0, i, env), i, "ext4", LoopOptions)
  }

  /** e2fsck on the entry's device, then its root unmounted in case the check mounted it. */
  function CheckDevice(s: St, i: nat, env: Env): (r: St)
    requires i < |s.roots| && s.roots[i].device.Some?
    ensures r.roots == s.roots && SameSettings(s, r) && r.mounted <= s.mounted
    ensures Shell(Fsck(DeviceText(s.roots[i].device.value))) in r.calls
  {
    var s1 := Perform(s, Shell(Fsck(DeviceText(s.roots[i].device.value))), env);
    var r := UnmountAt(s1, Lookup(s1, s.roots[i].name), env).0;
    assert r.calls[|s.calls|] == Shell(Fsck(DeviceText(s.roots[i].device.value)));
    r
  }

  /** Any other device: a fresh filesystem string, then the rfs trial mount. */
  function ProbeDevice(s0: St, i: nat, env: Env): (r: St)
    requires Probeable(s0, i)
    requires var dev := DeviceText(s0.roots[i].device.value);
      var mp := s0.roots[i].mountPoint.value;
      (env.status(RfsProbe(dev, mp)) == 0 || env.status(Ext2Probe(dev, mp)) == 0
       || env.status(Ext4Probe(dev, mp)) == 0) ==> s0.roots[i].options.Some?
    ensures OnlyFsAt(s0.roots, r.roots, i) && SameSettings(s0, r)
    ensures r.roots[i].filesystem.Some? && r.roots[i].filesystem.value.Named?
  {
    RfsTrial(WithFs(s0, i, Some(Named("")), s0.roots[i].options), i, env)
  }

  /** The rfs trial mount on the fresh filesystem string, else the ext fallback (roots.c:162-187). */
  function RfsTrial(s1: St, i: nat, env: Env): (r: St)
    requires Probeable(s1, i) && s1.roots[i].filesystem.Some?
    requires var dev := DeviceText(s1.roots[i].device.value);
      var mp := s1.roots[i].mountPoint.value;
      (env.status(RfsProbe(dev, mp)) == 0 || env.status(Ext2Probe(dev, mp)) == 0
       || env.status(Ext4Probe(dev, mp)) == 0) ==> s1.roots[i].options.Some?
    ensures OnlyFsAt(s1.roots, r.roots, i) && SameSettings(s1, r)
    ensures r.roots[i].filesystem.Some? && r.roots[i].filesystem.value.Named?
  {
    var dev := DeviceText(s1.roots[i].device.value);
    var mp := s1.roots[i].mountPoint.value;
    var s2 := Perform(s1, RfsProbe(dev, mp), env);
    if env.status(RfsProbe(dev, mp)) == 0 then SetFs(s2, i, "rfs", RfsOptions)
    else ProbeExt(s2, i, env)
  }

  /** After rfs failed: check, then ext2, then ext4, else "auto" without options. */
  function ProbeExt(s2: St, i: nat, env: Env): (r: St)
    requires Probeable(s2, i) && s2.roots[i].filesystem.Some?
    requires var dev := DeviceText(s2.roots[i].device.value);
      var mp := s2.roots[i].mountPoint.value;
      (env.status(Ext2Probe(dev, mp)) == 0 || env.status(Ext4Probe(dev, mp)) == 0) ==> s2.roots[i].options.Some?
    ensures OnlyFsAt(s2.roots, r.roots, i) && SameSettings(s2, r)
    ensures r.roots[i].filesystem.Some? && r.roots[i].filesystem.value.Named?
  {
    ExtTrials(CheckDevice(s2, i, env), i, env)
  }

  /** The ext2 trial mount, then the ext4 one, else "auto" with no options (roots.c:173-186). */
  function ExtTrials(s: St, i: nat, env: Env): (r: St)
    requires Probeable(s, i)
    requires var dev := DeviceText(s.roots[i].device.value);
      var mp := s.roots[i].mountPoint.value;
      (env.status(Ext2Probe(dev, mp)) == 0 || env.status(Ext4Probe(dev, mp)) == 0) ==> s.roots[i].options.Some?
    ensures OnlyFsAt(s.roots, r.roots, i) && SameSettings(s, r)
    ensures r.roots[i].filesystem.Some? && r.roots[i].filesystem.value.Named?
  {
    var info := s.roots[i];
    var dev := DeviceText(info.device.value);
    var mp := info.mountPoint.value;
    var s5 := Perform(s, Ext2Probe(dev, mp), env);
    if env.status(Ext2Probe(dev, mp)) == 0 then SetFs(s5, i, "ext2", Ext2Options)
    else
      var s6 := Perform(s5, Ext4Probe(dev, mp), env);
      if env.status(Ext4Probe(dev, mp)) == 0 then SetFs(s6, i, "ext4", Ext4Options)
      else WithFs(s6, i, Some(Named("auto")), None)
  }

  /** Visiting entries i..3 in order keeps every strcpy in bounds. */
  predicate LoopSafe(st: St, i: nat, env: Env)
    requires Valid(st) && 1 <= i <= 4
    decreases 4 - i
  {
    i == 4 || (EntrySafe(st, i, env) && LoopSafe(ProbeEntry(st, i, env), i + 1, env))
  }

  /** The loop of check_fs from index `i` on. */
  function ProbeLoop(st: St, i: nat, env: Env): (r: St)
    requires Valid(st) && 1 <= i <= 4 && LoopSafe(st, i, env)
    decreases 4 - i
    ensures Valid(r) && SameLayout(st.roots, r.roots) && SameSettings(st, r)
    ensures forall j :: 0 <= j < |st.roots| && !(i <= j < 4) ==> r.roots[j] == st.roots[j]
    ensures forall j :: 0 <= j < |st.roots| ==> FsKept(st.roots[j], r.roots[j])
  {
    if i == 4 then st
    else
      var s1 := ProbeEntry(st, i, env);
      var r := ProbeLoop(s1, i + 1, env);
      LoopStep(st, s1, r, i);
      r
  }

  /** One probe step on entry `i` followed by the steps on `i + 1` to 3 only change entries `i` to 3. */
  lemma LoopStep(a: St, b: St, c: St, i: nat)
    requires i < 4
    requires SameLayout(a.roots, b.roots) && SameSettings(a, b)
    requires forall j :: 0 <= j < |a.roots| && j != i ==> b.roots[j] == a.roots[j]
    requires forall j :: 0 <= j < |a.roots| ==> FsKept(a.roots[j], b.roots[j])
    requires SameLayout(b.roots, c.roots) && SameSettings(b, c)
    requires forall j :: 0 <= j < |b.roots| && !(i + 1 <= j < 4) ==> c.roots[j] == b.roots[j]
    requires forall j :: 0 <= j < |b.roots| ==> FsKept(b.roots[j], c.roots[j])
    ensures SameLayout(a.roots, c.roots) && SameSettings(a, c)
    ensures forall j :: 0 <= j < |a.roots| && !(i <= j < 4) ==> c.roots[j] == a.roots[j]
    ensures forall j :: 0 <= j < |a.roots| ==> FsKept(a.roots[j], c.roots[j])
  {
    forall j | 0 <= j < |a.roots| ensures FsKept(a.roots[j], c.roots[j]) {
      assert FsKept(a.roots[j], b.roots[j]) && FsKept(b.roots[j], c.roots[j]);
    }
    forall j | 0 <= j < |a.roots| && !(i <= j < 4) ensures c.roots[j] == a.roots[j] {
      assert j != i && !(i + 1 <= j < 4);
    }
  }

  /** check_fs: the loop, `already` set, then SYSTEM: and DATA: unmounted. */
  function Probe(st: St, env: Env): (r: St)
    requires Valid(st) && LoopSafe(st, 1, env)
    ensures Valid(r) && SameLayout(st.roots, r.roots)
    ensures r.already && r.checkNeed == st.checkNeed
    ensures r.package == st.package && r.packagePath == st.packagePath && r.leaked == st.leaked
    ensures forall j :: 0 <= j < |st.roots| && !(1 <= j < 4) ==> r.roots[j] == st.roots[j]
    ensures forall j :: 0 <= j < |st.roots| ==> FsKept(st.roots[j], r.roots[j])
  {
    var s1 := ProbeLoop(st, 1, env).(already := true);
    var s2 := UnmountAt(s1, Lookup(s1, "SYSTEM:"), env).0;
    UnmountAt(s2, Lookup(s2, "DATA:"), env).0
  }

  // ---------------------------------------------------------------------
  // get_root_info_for_path (roots.c:200-229)

  /** What a resolution needs: if it is going to run the probe, the probe is safe. */
  predicate ResolveReady(st: St, path: string, env: Env) {
    Valid(st) && (st.checkNeed && ':' in path ==> LoopSafe(st.(checkNeed := false), 1, env))
  }

  function Resolve(st: St, path: string, env: Env): (r: (St, Option<nat>))
    requires ResolveReady(st, path, env)
    ensures Valid(r.0) && SameLayout(st.roots, r.0.roots)
    ensures r.1 == Lookup(r.0, path)
    ensures r.1.Some? ==> r.1.value < |r.0.roots| && r.0.roots[r.1.value].name == RootPrefix(path).value
    ensures ':' in path ==> !r.0.checkNeed
    ensures r.0.package == st.package && r.0.packagePath == st.packagePath && r.0.leaked == st.leaked
    ensures forall j :: 0 <= j < |st.roots| && !(1 <= j < 4) ==> r.0.roots[j] == st.roots[j]
    ensures forall j :: 0 <= j < |st.roots| ==> FsKept(st.roots[j], r.0.roots[j])
  {
    if RootPrefix(path).None? then (st, None)
    else
      var s1 := if st.checkNeed then Probe(st.(checkNeed := false), env) else st;
      FirstMatchIsFirstNamed(s1.roots, path);
      (s1, Lookup(s1, path))
  }

  /** ensure_root_path_unmounted (roots.c:398-427). */
  function UnmountPath(st: St, path: string, env: Env): (r: (St, int))
    requires ResolveReady(st, path, env)
  {
    var (s1, r) := Resolve(st, path, env);
    UnmountAt(s1, r, env)
  }

  /** is_root_path_mounted (roots.c:321-329): -1 unresolved, else 1 or 0. */
  function IsMountedPath(st: St, path: string, env: Env): (r: (St, int))
    requires ResolveReady(st, path, env)
    ensures r.0 == Resolve(st, path, env).0
    ensures r.1 == -1 || r.1 == 0 || r.1 == 1
    ensures r.1 == -1 <==> Resolve(st, path, env).1.None?
    ensures r.1 == 1 <==>
      var (s1, i) := Resolve(st, path, env);
      && i.Some? && s1.roots[i.value].mountPoint.Some? && env.scan >= 0
      && s1.roots[i.value].mountPoint.value in s1.mounted
  {
    var (s1, r) := Resolve(st, path, env);
    if r.None? then (s1, -1)
    else (s1, if RootMounted(s1.mounted, s1.roots[r.value], env) >= 0 then 1 else 0)
  }

  // ---------------------------------------------------------------------
  // mount_internal and ensure_root_path_mounted (roots.c:331-396)

  const DefaultMountOptions := "noatime,nodiratime,nodev,nosuid"
  const MountFlags: set<MountFlag> := {NoAtime, NoDev, NoDirAtime}

  /** The mount point a mounting call targets. */
  function Target(c: Call): Option<string> {
    match c
    case Mount(_, t, _, _, _) => Some(t)
    case MtdMount(_, t, _) => t
    case Shell(MountCmd(_, _, _, mp)) => Some(mp)
    case _ => None
  }

  /**
   * mount_internal: a direct mount(2) with the fixed flags for a named type
   * without recorded options, the mount command otherwise.
   */
  function MountInternal(device: string, mountPoint: string, fs: string, options: Option<OptBuf>): (c: Call)
    ensures c.Mount? <==> fs != "auto" && options.None?
    ensures c.Mount? || (c.Shell? && c.command.MountCmd?)
    ensures Target(c) == Some(mountPoint)
    ensures c.Mount? ==> c.source == device && c.fstype == fs && c.flags == MountFlags && c.data == Some("")
    ensures c.Shell? ==> c.command.device == device && c.command.fstype == fs
    ensures c.Shell? && options.Some? ==> c.command.options == options.value
    ensures c.Shell? && options.None? ==> c.command.options == Text(DefaultMountOptions)
  {
    if fs != "auto" && options.None? then Mount(device, mountPoint, fs, MountFlags, Some(""))
    else Shell(MountCmd(fs, if options.None? then Text(DefaultMountOptions) else options.value, device, mountPoint))
  }

  function FsName(f: Option<Fs>): Option<string> {
    match f
    case None => None
    case Some(x) => Some(FsText(x))
  }

  /**
   * What ensure_root_path_mounted answers once the root is resolved to `i`:
   * -1 unresolved; 0 with no call when already mounted; for MTD, -1 with no
   * call without a partition name or a partition the driver finds, else the
   * driver's status; otherwise -1 with no call when the device, the mount
   * point or the filesystem is missing or the filesystem is a tag, else the
   * mount of the recorded type and options, and when that fails the plain
   * mount of `device2` if there is one; 0 exactly when one of them succeeds.
   */
  predicate MountReport(st: St, i: Option<nat>, env: Env, out: (St, int))
    requires i.Some? ==> i.value < |st.roots|
  {
    var (s2, r) := out;
    && (i.None? ==> out == (st, -1))
    && (i.Some? ==>
          var info := st.roots[i.value];
          var mounted := RootMounted(st.mounted, info, env) >= 0;
          && (mounted ==> out == (st, 0))
          && (!mounted && info.device == Some(Mtd) ==>
                if info.partitionName.None? || !env.mtdHas(info.partitionName.value) then out == (st, -1)
                else
                  var c := MtdMount(info.partitionName.value, info.mountPoint, FsName(info.filesystem));
                  s2.calls == st.calls + [c] && r == env.status(c))
          && (!mounted && info.device != Some(Mtd) ==>
                if || info.device.None? || info.mountPoint.None? || info.filesystem.None?
                   || info.filesystem == Some(Raw) || info.filesystem == Some(Package) then out == (st, -1)
                else
                  var mp := info.mountPoint.value;
                  var fs := FsText(info.filesystem.value);
                  var c := MountInternal(DeviceText(info.device.value), mp, fs, info.options);
                  && (r == 0 || r == -1)
                  && (env.status(c) == 0 ==> s2.calls == st.calls + [c] && r == 0)
                  && (env.status(c) != 0 && info.device2.None? ==> s2.calls == st.calls + [c] && r == -1)
                  && (env.status(c) != 0 && info.device2.Some? ==>
                        var c2 := Mount(info.device2.value, mp, fs, MountFlags, Some(""));
                        s2.calls == st.calls + [c, c2] && (r == 0 <==> env.status(c2) == 0))))
  }

  /** ensure_root_path_mounted once the root is resolved to `r`. */
  function MountAt(st: St, r: Option<nat>, env: Env): (res: (St, int))
    requires r.Some? ==> r.value < |st.roots|
    ensures res.0.roots == st.roots && SameSettings(st, res.0)
    ensures MountReport(st, r, env, res)
  {
    if r.None? then (st, -1)
    else
      var info := st.roots[r.value];
      if RootMounted(st.mounted, info, env) >= 0 then (st, 0)
      else if info.device == Some(Mtd) then
        if info.partitionName.None? || !env.mtdHas(info.partitionName.value) then (st, -1)
        else
          var c := MtdMount(info.partitionName.value, info.mountPoint, FsName(info.filesystem));
          (Perform(st, c, env), env.status(c))
      else if || info.device.None? || info.mountPoint.None? || info.filesystem.None?
              || info.filesystem == Some(Raw) || info.filesystem == Some(Package) then (st, -1)
      else
        var mp := info.mountPoint.value;
        var fs := FsText(info.filesystem.value);
        var c := MountInternal(DeviceText(info.device.value), mp, fs, info.options);
        var s1 := Perform(st, c, env);
        if env.status(c) == 0 then (s1, 0)
        else if info.device2.None? then (s1, -1)
        else
          var c2 := Mount(info.device2.value, mp, fs, MountFlags, Some(""));
          (Perform(s1, c2, env), if env.status(c2) == 0 then 0 else -1)
  }

  function MountPath(st: St, path: string, env: Env): (r: (St, int))
    requires ResolveReady(st, path, env)
  {
    var (s1, r) := Resolve(st, path, env);
    MountAt(s1, r, env)
  }

  // ---------------------------------------------------------------------
  // Package binding and path translation (roots.c:231-319)

  /** register_package_root; `dupOk` says whether strdup succeeds. */
  function Register(st: St, package: Option<Archive>, path: string, dupOk: bool): (r: (St, int))
    ensures r.1 == 0 || r.1 == -1
    ensures r.1 == -1 <==> package.Some? && !dupOk
    ensures r.1 == -1 ==> r.0 == st
    ensures r.1 == 0 ==> r.0.package == package && r.0.packagePath == (if package.Some? then Some(path) else None)
    ensures r.0.roots == st.roots && r.0.mounted == st.mounted && r.0.calls == st.calls
    ensures r.0.checkNeed == st.checkNeed && r.0.already == st.already
  {
    if package.Some? then
      if !dupOk then (st, -1)
      else
        var lost := if st.packagePath.Some? then [st.packagePath.value] else [];
        (st.(package := package, packagePath := Some(path), leaked := st.leaked + lost), 0)
    else (st.(package := None, packagePath := None), 0)
  }

  /** is_package_root_path. */
  function IsPackageRootPath(st: St, path: string, env: Env): (r: (St, bool))
    requires ResolveReady(st, path, env)
  {
    var (s1, r) := Resolve(st, path, env);
    (s1, r.Some? && s1.roots[r.value].filesystem == Some(Package))
  }

  /** translate_package_root_path: the path after the root name and the bound archive. */
  function TranslatePackagePath(st: St, path: string, outBufLen: nat, env: Env)
    : (r: (St, Option<(string, Option<Archive>)>))
    requires ResolveReady(st, path, env)
  {
    var (s1, r) := Resolve(st, path, env);
    if r.None? || s1.roots[r.value].filesystem != Some(Package) then (s1, None)
    else
      var rest := path[|s1.roots[r.value].name|..];
      if outBufLen < |rest| + 1 then (s1, None)
      else (s1, Some((rest, s1.package)))
  }

  /** translate_root_path: "SYSTEM:lib" becomes "/system/lib". */
  function TranslatePath(st: St, path: string, outBufLen: nat, env: Env): (r: (St, Option<string>))
    requires Valid(st) && (outBufLen >= 1 ==> ResolveReady(st, path, env))
  {
    if outBufLen < 1 then (st, None)
    else
      var (s1, r) := Resolve(st, path, env);
      (s1, TranslateAt(s1, r, path, outBufLen))
  }

  /** translate_root_path once `path` is resolved to `r`. */
  function TranslateAt(st: St, r: Option<nat>, path: string, outBufLen: nat): Option<string>
    requires Valid(st) && (r.Some? ==> r.value < |st.roots| && StartsWith(path, st.roots[r.value].name))
  {
    if r.None? || st.roots[r.value].mountPoint.None? then None
    else
      var info := st.roots[r.value];
      var rest := path[SlashRun(path, |info.name|)..];
      var mp := info.mountPoint.value;
      if |mp| + 1 + |rest| + 1 > outBufLen then None
      else Some(JoinPath(mp, rest))
  }

  // ---------------------------------------------------------------------
  // format_root_device (roots.c:447-585)

  predicate IsExt(fs: Option<string>) {
    fs.Some? && StartsWith(fs.value, "ext")
  }

  /** The argument vector of the formatter child, chosen by filesystem name. */
  function FormatterArgv(fs: Option<string>, device: string): (argv: seq<string>)
    ensures |argv| == 2 || |argv| == 9 || |argv| == 11
    ensures argv[|argv| - 1] == device
    ensures argv[0] == if IsExt(fs) then "/sbin/mke2fs" else "/sbin/stl.format"
    ensures !IsExt(fs) <==> |argv| == 2
    ensures IsExt(fs) ==> argv[1] == "-T " + fs.value && argv[2..8] == ["-F", "-q", "-m", "0", "-b", "4096"]
    ensures IsExt(fs) ==> (|argv| == 11 <==> StartsWith(fs.value, "ext4"))
    ensures IsExt(fs) && StartsWith(fs.value, "ext4") ==> argv[8..10] == ["-O", "^huge_file,extent"]
  {
    if IsExt(fs) then
      var common := ["/sbin/mke2fs", "-T " + fs.value, "-F", "-q", "-m", "0", "-b", "4096"];
      if StartsWith(fs.value, "ext4") then common + ["-O", "^huge_file,extent", device]
      else common + [device]
    else ["/sbin/stl.format", device]
  }

  /** WIFEXITED(status) && WEXITSTATUS(status) == 0. */
  predicate FormatSucceeded(s: ChildStatus) {
    s.Exited? && s.code == 0
  }

  /** format_root_device (roots.c:447-585): resolve the root, then format it. */
  function FormatPath(st: St, root: string, env: Env): (r: (St, int))
    requires ResolveReady(st, root, env)
  {
    var (s1, r) := Resolve(st, root, env);
    FormatAt(s1, r, root, env)
  }

  /** format_root_device once `root` is resolved to `r` in `s1`. */
  function FormatAt(s1: St, r: Option<nat>, root: string, env: Env): (res: (St, int))
    requires ResolveReady(s1, root, env) && (r.Some? ==> r.value < |s1.roots|)
  {
    if r.None? || s1.roots[r.value].device.None? then (s1, -1)
    else
      var info := s1.roots[r.value];
      var (s2, u) := if info.mountPoint.Some? then UnmountPath(s1, root, env) else (s1, 0);
      FormatUnmounted(s2, u, info, root, env)
  }

  /** format_root_device after its unmount step answered `u`, leaving `s2`, for entry `info`. */
  function FormatUnmounted(s2: St, u: int, info: RootInfo, root: string, env: Env): (res: (St, int))
    requires info.device.Some? && (info.device == Some(Mmc) ==> info.filesystem.Some?)
  {
    if u < 0 then (s2, u)
    else if info.device == Some(Mmc) then
      if !env.mmcHas(info.partitionName) then (s2, -1)
      else
        var s3 := if FsText(info.filesystem.value) == "ext3"
                  then Perform(s2, MmcFormatExt3(info.partitionName), env) else s2;
        (Perform(s3, FormatNonMtd(root), env), env.status(FormatNonMtd(root)))
    else
      var argv := FormatterArgv(FsName(info.filesystem), DeviceText(info.device.value));
      (Perform(s2, Exec(argv), env), if FormatSucceeded(env.child(argv)) then 0 else -1)
  }
}

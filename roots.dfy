/**
 * roots.c as a stateful object: the table g_roots, the statics check_need
 * and already, the binding g_package / g_package_path, and the kernel's
 * mount table. Most functions of the C file are one method; check_fs is
 * spread over CheckFs and the six probe methods, and internal_root_mounted
 * and mount_internal stay the functions RootMounted and MountInternal. Each
 * method for an operation is proved to leave the object in the state, and
 * return the value, that the matching function of RootsSpec gives; Recheck
 * is specified on old(State()), and the loop helpers FindColon, FindRoot,
 * SkipLeadingSlashes and Glue on the RootText and RootTable functions.
 */
module Roots {

  import opened RootTypes
  import opened RootText
  import opened RootTable
  import opened RootsSpec

  class Recovery {
    const roots: array<RootInfo>
    var checkNeed: bool
    var already: bool
    var package: Option<Archive>
    var packagePath: Option<string>
    ghost var leaked: seq<string>
    var mounted: set<string>
    ghost var calls: seq<Call>

    ghost function State(): St
      reads this, roots
    {
      St(roots[..], checkNeed, already, package, packagePath, leaked, mounted, calls)
    }

    ghost predicate Valid()
      reads this, roots
    {
      RootsSpec.Valid(State())
    }

    /** The process at start-up: the static table, both flags clear, nothing bound. */
    constructor (cfg: BuildConfig, initiallyMounted: set<string>)
      ensures Valid() && fresh(roots)
      ensures State() == St(Table(cfg), false, false, None, None, [], initiallyMounted, [])
    {
      var t := Table(cfg);
      roots := new RootInfo[|t|](i requires 0 <= i < |t| => t[i]);
      checkNeed, already := false, false;
      package, packagePath := None, None;
      leaked, mounted, calls := [], initiallyMounted, [];
      new;
      TableWellFormed(cfg);
      assert roots[..] == t;
    }

    /** recheck (roots.c:92-94): ask the next resolution to run the probe. */
    method Recheck()
      modifies this
      ensures State() == old(State()).(checkNeed := true)
    {
      checkNeed := true;
    }

    /** Issue one external call and record what it did to the mount table. */
    method Issue(c: Call, env: Env) returns (status: int)
      modifies this
      ensures status == env.status(c)
      ensures State() == Perform(old(State()), c, env)
    {
      status := env.status(c);
      mounted := MountEffect(mounted, c, status);
      calls := calls + [c];
    }

    /** fork, execv of the formatter, and the wait for the child's end. */
    method Spawn(argv: seq<string>, env: Env) returns (s: ChildStatus)
      modifies this
      ensures s == env.child(argv)
      ensures State() == Perform(old(State()), Exec(argv), env)
    {
      s := env.child(argv);
      calls := calls + [Exec(argv)];
    }

    /** get_root_info_for_path (roots.c:200-229); the entry is returned as its index. */
    method GetRootInfo(path: string, env: Env) returns (r: Option<nat>)
      requires ResolveReady(State(), path, env)
      modifies this, roots
      decreases if checkNeed then 1 else 0, 1
      ensures Valid()
      ensures (State(), r) == Resolve(old(State()), path, env)
    {
      var c := FindColon(path);
      if c == |path| {
        return None;
      }
      RunPendingProbe(env);
      r := FindRoot(path[..c + 1]);
    }

    /** The deferred check_fs of get_root_info_for_path (roots.c:215-218). */
    method RunPendingProbe(env: Env)
      requires Valid() && (checkNeed ==> LoopSafe(State().(checkNeed := false), 1, env))
      modifies this, roots
      decreases if checkNeed then 1 else 0, 0
      ensures Valid() && !checkNeed
      ensures State() == if old(checkNeed) then Probe(old(State()).(checkNeed := false), env) else old(State())
    {
      if checkNeed {
        checkNeed := false;
        CheckFs(env);
      }
    }

    /** The colon search of get_root_info_for_path: |path| when there is none. */
    static method FindColon(path: string) returns (c: nat)
      ensures c <= |path|
      ensures c == |path| <==> RootPrefix(path).None?
      ensures c < |path| ==> RootPrefix(path) == Some(path[..c + 1])
    {
      c := 0;
      while c < |path| && path[c] != ':'
        invariant 0 <= c <= |path| && ':' !in path[..c]
      {
        c := c + 1;
      }
      if c == |path| {
        assert path[..c] == path;
      } else {
        FirstColon(path, c);
      }
    }

    /** The table scan of get_root_info_for_path. */
    method FindRoot(prefix: string) returns (r: Option<nat>)
      ensures r == FirstMatch(roots[..], prefix)
    {
      var i := 0;
      while i < roots.Length && !StartsWith(roots[i].name, prefix)
        invariant 0 <= i <= roots.Length
        invariant FirstMatchFrom(roots[..], prefix, i) == FirstMatch(roots[..], prefix)
      {
        i := i + 1;
      }
      r := if i < roots.Length then Some(i) else None;
    }

    /** register_package_root (roots.c:234-249); `dupOk` is whether strdup succeeds. */
    method RegisterPackageRoot(pkg: Option<Archive>, path: string, dupOk: bool) returns (r: int)
      modifies this
      ensures (State(), r) == Register(old(State()), pkg, path, dupOk)
    {
      if pkg.Some? {
        if !dupOk {
          return -1;
        }
        if packagePath.Some? {
          leaked := leaked + [packagePath.value];
        } else {
          assert leaked + [] == leaked;
        }
        packagePath := Some(path);
      } else {
        packagePath := None;
      }
      package := pkg;
      return 0;
    }

    /** is_package_root_path (roots.c:251-256). */
    method IsPackageRoot(path: string, env: Env) returns (b: bool)
      requires ResolveReady(State(), path, env)
      modifies this, roots
      ensures Valid()
      ensures (State(), b) == IsPackageRootPath(old(State()), path, env)
    {
      var info := GetRootInfo(path, env);
      b := info.Some? && roots[info.value].filesystem == Some(Package);
    }

    /** translate_package_root_path (roots.c:258-279). */
    method TranslatePackageRootPath(path: string, outBufLen: nat, env: Env)
      returns (r: Option<(string, Option<Archive>)>)
      requires ResolveReady(State(), path, env)
      modifies this, roots
      ensures Valid()
      ensures (State(), r) == TranslatePackagePath(old(State()), path, outBufLen, env)
    {
      var info := GetRootInfo(path, env);
      if info.None? || roots[info.value].filesystem != Some(Package) {
        return None;
      }
      var rest := path[|roots[info.value].name|..];
      if outBufLen < |rest| + 1 {
        return None;
      }
      return Some((rest, package));
    }

    /** translate_root_path (roots.c:285-319). */
    method TranslateRootPath(path: string, outBufLen: nat, env: Env) returns (r: Option<string>)
      requires Valid() && (outBufLen >= 1 ==> ResolveReady(State(), path, env))
      modifies this, roots
      ensures Valid()
      ensures (State(), r) == TranslatePath(old(State()), path, outBufLen, env)
    {
      if outBufLen < 1 {
        return None;
      }
      var info := GetRootInfo(path, env);
      r := TranslateResolved(info, path, outBufLen);
    }

    /** The rest of translate_root_path once `path` is resolved to `info`; it changes nothing. */
    method TranslateResolved(info: Option<nat>, path: string, outBufLen: nat) returns (r: Option<string>)
      requires Valid() && (info.Some? ==> info.value < roots.Length && StartsWith(path, roots[info.value].name))
      ensures r == TranslateAt(State(), info, path, outBufLen)
    {
      if info.None? || roots[info.value].mountPoint.None? {
        return None;
      }
      var e := roots[info.value];
      var k := SkipLeadingSlashes(path, |e.name|);
      var rest := path[k..];
      var mp := e.mountPoint.value;
      if |mp| + 1 + |rest| + 1 > outBufLen {
        return None;
      }
      var out := Glue(mp, rest);
      return Some(out);
    }

    /** The '/' skipping of translate_root_path, from index `start` on. */
    static method SkipLeadingSlashes(path: string, start: nat) returns (k: nat)
      requires start <= |path|
      ensures k == SlashRun(path, start)
    {
      k := start;
      while k < |path| && path[k] == '/'
        invariant start <= k <= |path|
        invariant SlashRun(path, k) == SlashRun(path, start)
      {
        k := k + 1;
      }
    }

    /** The two memcpy steps of translate_root_path, with the '/' between them. */
    static method Glue(mp: string, rest: string) returns (out: string)
      requires mp != []
      ensures out == JoinPath(mp, rest)
    {
      out := mp;
      if mp[|mp| - 1] != '/' {
        out := out + "/";
      }
      out := out + rest;
    }

    /** is_root_path_mounted (roots.c:321-329). */
    method IsRootPathMounted(path: string, env: Env) returns (r: int)
      requires ResolveReady(State(), path, env)
      modifies this, roots
      ensures Valid()
      ensures (State(), r) == IsMountedPath(old(State()), path, env)
    {
      var info := GetRootInfo(path, env);
      if info.None? {
        return -1;
      }
      r := if RootMounted(mounted, roots[info.value], env) >= 0 then 1 else 0;
    }

    /** ensure_root_path_mounted (roots.c:344-396). */
    method EnsureRootPathMounted(path: string, env: Env) returns (r: int)
      requires ResolveReady(State(), path, env)
      modifies this, roots
      ensures Valid()
      ensures (State(), r) == MountPath(old(State()), path, env)
    {
      var info := GetRootInfo(path, env);
      if info.None? {
        return -1;
      }
      var e := roots[info.value];
      if RootMounted(mounted, e, env) >= 0 {
        return 0;
      }
      if e.device == Some(Mtd) {
        if e.partitionName.None? || !env.mtdHas(e.partitionName.value) {
          return -1;
        }
        r := Issue(MtdMount(e.partitionName.value, e.mountPoint, FsName(e.filesystem)), env);
        return;
      }
      if || e.device.None? || e.mountPoint.None? || e.filesystem.None?
         || e.filesystem == Some(Raw) || e.filesystem == Some(Package) {
        return -1;
      }
      var mp := e.mountPoint.value;
      var fs := FsText(e.filesystem.value);
      var rc := Issue(MountInternal(DeviceText(e.device.value), mp, fs, e.options), env);
      if rc != 0 {
        if e.device2.None? {
          return -1;
        }
        var rc2 := Issue(Mount(e.device2.value, mp, fs, MountFlags, Some("")), env);
        if rc2 != 0 {
          return -1;
        }
      }
      return 0;
    }

    /** ensure_root_path_unmounted (roots.c:398-427). */
    method EnsureRootPathUnmounted(path: string, env: Env) returns (r: int)
      requires ResolveReady(State(), path, env)
      modifies this, roots
      decreases if checkNeed then 1 else 0, 2
      ensures Valid()
      ensures (State(), r) == UnmountPath(old(State()), path, env)
    {
      var info := GetRootInfo(path, env);
      if info.None? {
        return -1;
      }
      var mp := roots[info.value].mountPoint;
      if mp.None? {
        return 0;
      }
      if env.scan < 0 {
        return env.scan;
      }
      if mp.value !in mounted {
        return 0;
      }
      r := Issue(Unmount(mp.value), env);
    }

    /** strcpy of a type name and an options string into entry `i`'s buffers. */
    method CopyFs(i: nat, fs: string, opts: string)
      requires Valid() && i < roots.Length && roots[i].options.Some?
      modifies roots
      ensures State() == SetFs(old(State()), i, fs, opts)
    {
      roots[i] := roots[i].(filesystem := Some(Named(fs)), options := Some(Text(opts)));
    }

    /** check_fs (roots.c:139-198): probe table entries 1 to 3. */
    method CheckFs(env: Env)
      requires Valid() && !checkNeed && LoopSafe(State(), 1, env)
      modifies this, roots
      decreases 0, 7
      ensures Valid()
      ensures State() == Probe(old(State()), env)
    {
      var i := 1;
      while i < 4
        invariant 1 <= i <= 4 && Valid() && !checkNeed
        invariant LoopSafe(State(), i, env)
        invariant ProbeLoop(State(), i, env) == ProbeLoop(old(State()), 1, env)
      {
        ProbeRoot(i, env);
        i := i + 1;
      }
      already := true;
      var _ := EnsureRootPathUnmounted("SYSTEM:", env);
      var _ := EnsureRootPathUnmounted("DATA:", env);
    }

    /** One turn of check_fs's loop. */
    method ProbeRoot(i: nat, env: Env)
      requires Valid() && 1 <= i < 4 && !checkNeed && EntrySafe(State(), i, env)
      modifies this, roots
      decreases 0, 6
      ensures Valid() && !checkNeed
      ensures State() == ProbeEntry(old(State()), i, env)
    {
      if !already {
        roots[i] := roots[i].(options := Some(Uninitialized));
      }
      if RootMounted(mounted, roots[i], env) >= 0 {
        return;
      }
      if StartsWith(DeviceText(roots[i].device.value), SdcardPrefix) {
        ProbeImage(i, env);
      } else {
        ProbeDevice(i, env);
      }
    }

    /** The /sdcard/ image branch (roots.c:151-159). */
    method ProbeImage(i: nat, env: Env)
      requires Valid() && 1 <= i < 4 && !checkNeed
      requires roots[i].filesystem.Some? && roots[i].options.Some?
      modifies this, roots
      decreases 0, 4
      ensures Valid() && !checkNeed
      ensures State() == RootsSpec.ProbeImage(old(State()), i, env)
    {
      CheckDevice(i, env);
      CopyFs(i, "ext4", LoopOptions);
    }

    /** The e2fsck run and the unmount after it, shared by both branches. */
    method CheckDevice(i: nat, env: Env)
      requires Valid() && !checkNeed && i < roots.Length && roots[i].device.Some?
      modifies this, roots
      decreases 0, 3
      ensures Valid() && !checkNeed
      ensures State() == RootsSpec.CheckDevice(old(State()), i, env)
    {
      var e := roots[i];
      var _ := Issue(Shell(Fsck(DeviceText(e.device.value))), env);
      var _ := EnsureRootPathUnmounted(e.name, env);
    }

    /** The trial-mount branch (roots.c:160-187), up to the rfs attempt. */
    method ProbeDevice(i: nat, env: Env)
      requires Valid() && 1 <= i < 4 && !checkNeed
      requires var dev := DeviceText(roots[i].device.value);
        var mp := roots[i].mountPoint.value;
        (env.status(RfsProbe(dev, mp)) == 0 || env.status(Ext2Probe(dev, mp)) == 0
         || env.status(Ext4Probe(dev, mp)) == 0) ==> roots[i].options.Some?
      modifies this, roots
      decreases 0, 5
      ensures Valid() && !checkNeed
      ensures State() == RootsSpec.ProbeDevice(old(State()), i, env)
    {
      var e := roots[i];
      var dev := DeviceText(e.device.value);
      var mp := e.mountPoint.value;
      roots[i] := e.(filesystem := Some(Named("")));
      var rc := Issue(RfsProbe(dev, mp), env);
      if rc == 0 {
        CopyFs(i, "rfs", RfsOptions);
      } else {
        ProbeExt(i, env);
      }
    }

    /** After rfs failed: e2fsck, then ext2, then ext4, else "auto" (roots.c:167-186). */
    method ProbeExt(i: nat, env: Env)
      requires Valid() && 1 <= i < 4 && !checkNeed && roots[i].filesystem.Some?
      requires var dev := DeviceText(roots[i].device.value);
        var mp := roots[i].mountPoint.value;
        (env.status(Ext2Probe(dev, mp)) == 0 || env.status(Ext4Probe(dev, mp)) == 0) ==> roots[i].options.Some?
      modifies this, roots
      decreases 0, 4
      ensures Valid() && !checkNeed
      ensures State() == RootsSpec.ProbeExt(old(State()), i, env)
    {
      CheckDevice(i, env);
      ExtTrials(i, env);
    }

    /** The ext2 and ext4 trial mounts of ProbeExt, else "auto" (roots.c:173-186). */
    method ExtTrials(i: nat, env: Env)
      requires Valid() && 1 <= i < 4 && !checkNeed
      requires var dev := DeviceText(roots[i].device.value);
        var mp := roots[i].mountPoint.value;
        (env.status(Ext2Probe(dev, mp)) == 0 || env.status(Ext4Probe(dev, mp)) == 0) ==> roots[i].options.Some?
      modifies this, roots
      ensures Valid() && !checkNeed
      ensures State() == RootsSpec.ExtTrials(old(State()), i, env)
    {
      var e := roots[i];
      var dev := DeviceText(e.device.value);
      var mp := e.mountPoint.value;
      var rc := Issue(Ext2Probe(dev, mp), env);
      if rc == 0 {
        CopyFs(i, "ext2", Ext2Options);
        return;
      }
      rc := Issue(Ext4Probe(dev, mp), env);
      if rc == 0 {
        CopyFs(i, "ext4", Ext4Options);
        return;
      }
      roots[i] := roots[i].(filesystem := Some(Named("auto")), options := None);
    }

    /** format_root_device (roots.c:447-585). */
    method FormatRootDevice(root: string, env: Env) returns (r: int)
      requires ResolveReady(State(), root, env)
      modifies this, roots
      ensures Valid()
      ensures (State(), r) == FormatPath(old(State()), root, env)
    {
      var info := GetRootInfo(root, env);
      r := FormatResolved(info, root, env);
    }

    /** The rest of format_root_device once `root` is resolved to `info`. */
    method FormatResolved(info: Option<nat>, root: string, env: Env) returns (r: int)
      requires ResolveReady(State(), root, env) && (info.Some? ==> info.value < roots.Length)
      modifies this, roots
      ensures Valid()
      ensures (State(), r) == FormatAt(old(State()), info, root, env)
    {
      if info.None? || roots[info.value].device.None? {
        return -1;
      }
      var e := roots[info.value];
      if e.mountPoint.Some? {
        var u := EnsureRootPathUnmounted(root, env);
        if u < 0 {
          return u;
        }
      }
      if e.device == Some(Mmc) {
        if !env.mmcHas(e.partitionName) {
          return -1;
        }
        if FsText(e.filesystem.value) == "ext3" {
          var _ := Issue(MmcFormatExt3(e.partitionName), env);
        }
        r := Issue(FormatNonMtd(root), env);
        return;
      }
      var argv := FormatterArgv(FsName(e.filesystem), DeviceText(e.device.value));
      var status := Spawn(argv, env);
      r := if FormatSucceeded(status) then 0 else -1;
    }
  }
}

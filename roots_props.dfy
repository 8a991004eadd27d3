/**
 * What the operations of roots.c promise, proved about the functions of
 * RootsSpec: how a path resolves, what a translated path looks like, when
 * a path is the package root, how the binding changes, that mounting and
 * unmounting are idempotent, what the probe records, and how a format is
 * dispatched.
 */
module RootsProperties {

  import opened RootTypes
  import opened RootText
  import opened RootTable
  import opened RootsSpec

  // ---------------------------------------------------------------------
  // Resolution

  /** Tables with the same names in the same order give the same first match. */
  lemma {:induction false} FirstMatchFromSameNames(a: seq<RootInfo>, b: seq<RootInfo>, p: string, i: nat)
    requires SameLayout(a, b) && i <= |a|
    decreases |a| - i
    ensures FirstMatchFrom(a, p, i) == FirstMatchFrom(b, p, i)
  {
    if i < |a| {
      FirstMatchFromSameNames(a, b, p, i + 1);
    }
  }

  /** A path with no ':' names no root, and the deferred probe stays pending. */
  lemma ResolveWithoutColon(st: St, path: string, env: Env)
    requires ResolveReady(st, path, env) && ':' !in path
    ensures Resolve(st, path, env) == (st, None)
  {
  }

  /**
   * A path with a ':' resolves to the first entry named by its prefix up to
   * that colon. A pending probe runs once, before the match, and is
   * cleared; since it never renames an entry, the entry found is the one
   * the table named before the probe.
   */
  lemma ResolveWithColon(st: St, path: string, env: Env)
    requires ResolveReady(st, path, env) && ':' in path
    ensures var (s1, r) := Resolve(st, path, env);
      var p := RootPrefix(path).value;
      && s1 == (if st.checkNeed then Probe(st.(checkNeed := false), env) else st)
      && !s1.checkNeed
      && r == Lookup(st, path)
      && (r.Some? ==> s1.roots[r.value].name == p && forall j :: 0 <= j < r.value ==> st.roots[j].name != p)
      && (r.None? <==> forall j :: 0 <= j < |st.roots| ==> st.roots[j].name != p)
  {
    var s1 := Resolve(st, path, env).0;
    FirstMatchFromSameNames(st.roots, s1.roots, RootPrefix(path).value, 0);
    FirstMatchIsFirstNamed(st.roots, path);
  }

  /** In the built table, a root prefix finds the entry of that name. */
  lemma TableLookup(cfg: BuildConfig, p: string, k: nat)
    requires k < |Table(cfg)| && Table(cfg)[k].name == p
    requires forall j :: 0 <= j < k ==> Table(cfg)[j].name != p
    ensures FirstMatch(Table(cfg), p) == Some(k)
  {
    TableWellFormed(cfg);
    var t := Table(cfg);
    forall j | 0 <= j < |t| ensures StartsWith(t[j].name, t[k].name) <==> t[j].name == t[k].name {
      MatchIsEquality(t[j].name, t[k].name);
    }
  }

  // ---------------------------------------------------------------------
  // translate_root_path

  /**
   * The translation fails exactly when the buffer is empty, the root is
   * unresolved or has no mount point, or the result would not fit; when it
   * succeeds it is the mount point, a '/' unless the mount point ends in
   * one, and the rest of the path with its leading '/' characters dropped,
   * and it is strictly shorter than the buffer.
   */
  lemma TranslateOutcome(st: St, path: string, len: nat, env: Env)
    requires Valid(st) && len >= 1 && ResolveReady(st, path, env)
    ensures var (s1, i) := Resolve(st, path, env);
      var out := TranslatePath(st, path, len, env);
      && out.0 == s1
      && (i.None? || s1.roots[i.value].mountPoint.None? ==> out.1.None?)
      && (i.Some? && s1.roots[i.value].mountPoint.Some? ==>
            var mp := s1.roots[i.value].mountPoint.value;
            var rest := path[SlashRun(path, |RootPrefix(path).value|)..];
            && (out.1.Some? <==> |mp| + |rest| + 2 <= len)
            && (out.1.Some? ==> out.1.value == JoinPath(mp, rest) && |out.1.value| < len))
  {
  }

  /**
   * A translation can be undone: the output starts with the root's mount
   * point, and its tail after the separating '/' is the rest of the path,
   * which behind the root prefix and the dropped '/' characters gives the
   * path back.
   */
  lemma TranslateRoundTrip(st: St, path: string, len: nat, env: Env)
    requires Valid(st) && len >= 1 && ResolveReady(st, path, env)
    requires TranslatePath(st, path, len, env).1.Some?
    ensures var (s1, i) := Resolve(st, path, env);
      var o := TranslatePath(st, path, len, env).1.value;
      var p := RootPrefix(path).value;
      var k := SlashRun(path, |p|);
      && i.Some? && s1.roots[i.value].mountPoint.Some?
      && StartsWith(o, s1.roots[i.value].mountPoint.value)
      && |path| - k < |o| && o[|o| - (|path| - k) - 1] == '/'
      && path == p + path[|p|..k] + o[|o| - (|path| - k)..]
      && forall j :: |p| <= j < k ==> path[j] == '/'
  {
    TranslateOutcome(st, path, len, env);
    var (s1, i) := Resolve(st, path, env);
    var p := RootPrefix(path).value;
    JoinPathSplit(path, |p|, s1.roots[i.value].mountPoint.value);
    assert path[..|p|] == p;
  }

  /** With no room even for the terminator nothing is resolved or written. */
  lemma TranslateEmptyBuffer(st: St, path: string, env: Env)
    requires Valid(st)
    ensures TranslatePath(st, path, 0, env) == (st, None)
  {
  }

  /** "SYSTEM:lib" becomes "/system/lib" when twelve bytes fit in the buffer. */
  lemma TranslateSystemLib(cfg: BuildConfig, st: St, len: nat, env: Env)
    requires st.roots == Table(cfg) && ResolveReady(st, "SYSTEM:lib", env)
    ensures TranslatePath(st, "SYSTEM:lib", len, env).1 == if len >= 12 then Some("/system/lib") else None
  {
    SystemEntry(cfg);
    TranslateSystemLibOn(st, len, env);
  }

  /** The same for any table with SYSTEM: as its first match at index 3, mounted at /system. */
  lemma TranslateSystemLibOn(st: St, len: nat, env: Env)
    requires ResolveReady(st, "SYSTEM:lib", env) && |st.roots| > 3
    requires st.roots[3].mountPoint == Some("/system") && FirstMatch(st.roots, "SYSTEM:") == Some(3)
    ensures TranslatePath(st, "SYSTEM:lib", len, env).1 == if len >= 12 then Some("/system/lib") else None
  {
    if len >= 1 {
      ResolveSystem(st, "SYSTEM:lib", env);
      var s1 := Resolve(st, "SYSTEM:lib", env).0;
      assert s1.roots[3].name == "SYSTEM:";
      assert s1.roots[3].mountPoint == Some("/system");
      SystemTranslation(s1, len);
      assert TranslatePath(st, "SYSTEM:lib", len, env).1 == TranslateAt(s1, Some(3), "SYSTEM:lib", len);
    }
  }

  /** A path starting "SYSTEM:" resolves to the first SYSTEM: entry. */
  lemma ResolveSystem(st: St, path: string, env: Env)
    requires ResolveReady(st, path, env) && |path| >= 7 && path[..7] == "SYSTEM:"
    ensures RootPrefix(path) == Some("SYSTEM:")
    ensures Resolve(st, path, env).1 == FirstMatch(st.roots, "SYSTEM:")
  {
    FirstColon(path, 6);
    var s1 := Resolve(st, path, env).0;
    FirstMatchFromSameNames(st.roots, s1.roots, "SYSTEM:", 0);
  }

  lemma SystemTranslation(st: St, len: nat)
    requires Valid(st) && |st.roots| > 3
    requires st.roots[3].name == "SYSTEM:" && st.roots[3].mountPoint == Some("/system")
    ensures TranslateAt(st, Some(3), "SYSTEM:lib", len) == if len >= 12 then Some("/system/lib") else None
  {
    assert SlashRun("SYSTEM:lib", 7) == 7;
    assert "SYSTEM:lib"[7..] == "lib";
    assert JoinPath("/system", "lib") == "/system/lib";
  }

  /** SYSTEM: is entry 3 of the built table, mounted at /system. */
  lemma SystemEntry(cfg: BuildConfig)
    ensures |Table(cfg)| > 3 && Table(cfg)[3].name == "SYSTEM:" && Table(cfg)[3].mountPoint == Some("/system")
    ensures FirstMatch(Table(cfg), "SYSTEM:") == Some(3)
  {
    TableLookup(cfg, "SYSTEM:", 3);
  }

  // ---------------------------------------------------------------------
  // The package root

  /** The entries carrying the package tag are those named PACKAGE:, and the probe visits none. */
  predicate PackageTagged(t: seq<RootInfo>) {
    && (forall j :: 0 <= j < |t| ==> (t[j].filesystem == Some(Package) <==> t[j].name == "PACKAGE:"))
    && (forall j :: 1 <= j < 4 && j < |t| ==> t[j].name != "PACKAGE:")
    && exists j :: 0 <= j < |t| && t[j].name == "PACKAGE:"
  }

  /** The built table is package-tagged. */
  lemma TablePackageTagged(cfg: BuildConfig)
    ensures PackageTagged(Table(cfg))
  {
    var t := Table(cfg);
    var k := if cfg.datadata.Some? then 5 else 4;
    assert t[k].name == "PACKAGE:";
  }

  /**
   * A resolution, with any probe it runs, keeps the table package-tagged:
   * so every table reached from the built one is.
   */
  lemma ResolveKeepsPackageTagged(st: St, path: string, env: Env)
    requires PackageTagged(st.roots) && ResolveReady(st, path, env)
    ensures PackageTagged(Resolve(st, path, env).0.roots)
  {
    PackageTaggedKept(st.roots, Resolve(st, path, env).0.roots);
  }

  /** Changes that keep the layout, touch only entries 1 to 3 and record only type names keep the tagging. */
  lemma PackageTaggedKept(t: seq<RootInfo>, u: seq<RootInfo>)
    requires PackageTagged(t) && SameLayout(t, u)
    requires forall j :: 0 <= j < |t| && !(1 <= j < 4) ==> u[j] == t[j]
    requires forall j :: 0 <= j < |t| ==> FsKept(t[j], u[j])
    ensures PackageTagged(u)
  {
    forall j | 0 <= j < |u| ensures u[j].filesystem == Some(Package) <==> u[j].name == "PACKAGE:" {
      if 1 <= j < 4 {
        assert FsKept(t[j], u[j]) && t[j].name != "PACKAGE:";
      } else {
        assert u[j] == t[j];
      }
    }
    var k :| 0 <= k < |t| && t[k].name == "PACKAGE:";
    assert u[k].name == "PACKAGE:";
  }

  /**
   * In a package-tagged table, a path is the package root exactly when its
   * prefix is "PACKAGE:", whatever the probe records and whether or not a
   * package is bound.
   */
  lemma PackageRootIsPackagePrefix(st: St, path: string, env: Env)
    requires PackageTagged(st.roots) && ResolveReady(st, path, env)
    ensures IsPackageRootPath(st, path, env).1 <==> RootPrefix(path) == Some("PACKAGE:")
  {
    if ':' in path {
      ResolvedPackageTag(st, path, env);
    }
  }

  /** The resolved entry carries the package tag exactly when the prefix is "PACKAGE:". */
  lemma ResolvedPackageTag(st: St, path: string, env: Env)
    requires PackageTagged(st.roots) && ResolveReady(st, path, env) && ':' in path
    ensures var (s1, r) := Resolve(st, path, env);
      r.Some? && s1.roots[r.value].filesystem == Some(Package) <==> RootPrefix(path) == Some("PACKAGE:")
  {
    ResolveWithColon(st, path, env);
    var (s1, r) := Resolve(st, path, env);
    var p := RootPrefix(path).value;
    if r.Some? {
      var k := r.value;
      assert st.roots[k].name == p;
      if p == "PACKAGE:" {
        assert s1.roots[k] == st.roots[k];
      } else {
        assert FsKept(st.roots[k], s1.roots[k]);
      }
    }
  }

  /**
   * Dropping the binding does not stop a path from being the package root:
   * the answer before and after register_package_root(NULL, ...) is the same.
   */
  lemma PackageRootIgnoresUnbinding(st: St, path: string, any: string, dupOk: bool, env: Env)
    requires PackageTagged(st.roots) && ResolveReady(st, path, env)
    requires ResolveReady(Register(st, None, any, dupOk).0, path, env)
    ensures IsPackageRootPath(Register(st, None, any, dupOk).0, path, env).1 == IsPackageRootPath(st, path, env).1
  {
    PackageRootIsPackagePrefix(st, path, env);
    PackageRootIsPackagePrefix(Register(st, None, any, dupOk).0, path, env);
  }

  /**
   * translate_package_root_path hands back the text after "PACKAGE:" and the
   * bound archive, which is None once the binding was dropped; it fails
   * only on a path that is not the package root or a buffer too short.
   */
  lemma TranslatePackageOutcome(st: St, path: string, len: nat, env: Env)
    requires PackageTagged(st.roots) && ResolveReady(st, path, env)
    ensures var out := TranslatePackagePath(st, path, len, env).1;
      out.Some? <==> RootPrefix(path) == Some("PACKAGE:") && len >= |path| - 8 + 1
    ensures var out := TranslatePackagePath(st, path, len, env).1;
      out.Some? ==> out.value == (path[8..], st.package)
  {
    PackageRootIsPackagePrefix(st, path, env);
    if ':' in path {
      ResolveWithColon(st, path, env);
    }
  }

  /** A failed copy of the path leaves the binding as it was. */
  lemma RegisterFailureKeepsBinding(st: St, pkg: Archive, path: string)
    ensures Register(st, Some(pkg), path, false) == (st, -1)
  {
  }

  /** Rebinding drops the previous path without freeing it. */
  lemma RebindLeaksPath(st: St, a: Archive, b: Archive, p: string, q: string)
    ensures var s1 := Register(st, Some(a), p, true).0;
      var s2 := Register(s1, Some(b), q, true).0;
      s2.package == Some(b) && s2.packagePath == Some(q) && s2.leaked[|s2.leaked| - 1] == p
  {
  }

  // ---------------------------------------------------------------------
  // ensure_root_path_mounted and ensure_root_path_unmounted

  /**
   * ensure_root_path_mounted, with its pending probe: the answers and calls
   * of MountReport, on the table the resolution leaves.
   */
  lemma MountOutcome(st: St, path: string, env: Env)
    requires ResolveReady(st, path, env)
    ensures var (s1, i) := Resolve(st, path, env);
      MountReport(s1, i, env, MountPath(st, path, env))
  {
  }

  /** After a successful ensure_root_path_mounted a root with a mount point is in the mount table. */
  lemma MountedAfterSuccess(st: St, path: string, env: Env)
    requires ResolveReady(st, path, env) && MountPath(st, path, env).1 == 0
    ensures var (s1, i) := Resolve(st, path, env);
      && i.Some?
      && (s1.roots[i.value].mountPoint.Some? ==>
            s1.roots[i.value].mountPoint.value in MountPath(st, path, env).0.mounted)
  {
    var (s1, i) := Resolve(st, path, env);
    MountedAtAfterSuccess(s1, i, env);
  }

  lemma MountedAtAfterSuccess(st: St, i: Option<nat>, env: Env)
    requires (i.Some? ==> i.value < |st.roots|) && MountAt(st, i, env).1 == 0
    ensures i.Some?
    ensures st.roots[i.value].mountPoint.Some? ==> st.roots[i.value].mountPoint.value in MountAt(st, i, env).0.mounted
  {
    var info := st.roots[i.value];
    if RootMounted(st.mounted, info, env) < 0 && info.device != Some(Mtd) {
      var c := MountInternal(DeviceText(info.device.value), info.mountPoint.value, FsText(info.filesystem.value), info.options);
      assert Target(c) == Some(info.mountPoint.value);
    }
  }

  /**
   * Mounting is idempotent: once it succeeded for a root with a mount
   * point, and while the mount table can be read, doing it again answers 0
   * and changes nothing.
   */
  lemma MountIdempotent(st: St, path: string, env: Env)
    requires ResolveReady(st, path, env) && env.scan >= 0 && MountPath(st, path, env).1 == 0
    requires var (s1, i) := Resolve(st, path, env); i.Some? && s1.roots[i.value].mountPoint.Some?
    ensures var s2 := MountPath(st, path, env).0;
      ResolveReady(s2, path, env) && MountPath(s2, path, env) == (s2, 0)
  {
    MountedAfterSuccess(st, path, env);
    var (s1, i) := Resolve(st, path, env);
    var s2 := MountPath(st, path, env).0;
    assert Resolve(s2, path, env) == (s2, i);
  }

  /**
   * Mounting is not idempotent for an MTD root without a mount point (BOOT:,
   * MBM:): with no mount point the root never reads as mounted, so every
   * call issues the driver mount again.
   */
  lemma MountRepeatsWithoutMountPoint(st: St, path: string, env: Env)
    requires ResolveReady(st, path, env)
    requires var (s1, i) := Resolve(st, path, env);
      && i.Some? && s1.roots[i.value].device == Some(Mtd) && s1.roots[i.value].mountPoint.None?
      && s1.roots[i.value].partitionName.Some? && env.mtdHas(s1.roots[i.value].partitionName.value)
    ensures var (s1, i) := Resolve(st, path, env);
      var info := s1.roots[i.value];
      var c := MtdMount(info.partitionName.value, None, FsName(info.filesystem));
      var s2 := MountPath(st, path, env).0;
      && s2.calls == s1.calls + [c]
      && ResolveReady(s2, path, env)
      && MountPath(s2, path, env).0.calls == s2.calls + [c]
  {
    var (s1, i) := Resolve(st, path, env);
    var s2 := MountPath(st, path, env).0;
    assert Resolve(s2, path, env) == (s2, i);
  }

  /** BOOT: is entry 0 of the built table: an MTD partition with no mount point. */
  lemma BootEntry(cfg: BuildConfig)
    ensures RootPrefix("BOOT:") == Some("BOOT:") && FirstMatch(Table(cfg), "BOOT:") == Some(0)
    ensures Table(cfg)[0] == RootInfo("BOOT:", Some(Mtd), None, Some("boot"), None, Some(Raw), None)
  {
    LiteralNameWellFormed("BOOT:");
    NameIsOwnPrefix("BOOT:");
    TableLookup(cfg, "BOOT:", 0);
  }

  /** With the built table, every mount of BOOT: asks the driver for "boot" again. */
  lemma BootMountRepeats(cfg: BuildConfig, mounted: set<string>, env: Env)
    requires env.mtdHas("boot")
    ensures Valid(St(Table(cfg), false, false, None, None, [], mounted, []))
    ensures var st := St(Table(cfg), false, false, None, None, [], mounted, []);
      var c := MtdMount("boot", None, Some("@"));
      var s2 := MountPath(st, "BOOT:", env).0;
      && s2.calls == [c]
      && ResolveReady(s2, "BOOT:", env) && MountPath(s2, "BOOT:", env).0.calls == [c, c]
  {
    var st := St(Table(cfg), false, false, None, None, [], mounted, []);
    TableWellFormed(cfg);
    BootEntry(cfg);
    assert Resolve(st, "BOOT:", env) == (st, Some(0));
    MountRepeatsWithoutMountPoint(st, "BOOT:", env);
  }

  /**
   * is_root_path_mounted answers 0, not an error, for a resolved root that
   * has no mount point and whenever the mount table cannot be read.
   */
  lemma NotMountedWithoutPointOrScan(st: St, path: string, env: Env)
    requires ResolveReady(st, path, env)
    requires var (s1, i) := Resolve(st, path, env);
      i.Some? && (s1.roots[i.value].mountPoint.None? || env.scan < 0)
    ensures IsMountedPath(st, path, env).1 == 0
  {
    var (s1, i) := Resolve(st, path, env);
    assert RootMounted(s1.mounted, s1.roots[i.value], env) < 0;
  }

  /**
   * is_root_path_mounted agrees with ensure_root_path_mounted: after a
   * successful mount of a root with a mount point, and while the mount table
   * can be read, the root is reported mounted.
   */
  lemma MountedRootReportsMounted(st: St, path: string, env: Env)
    requires ResolveReady(st, path, env) && env.scan >= 0 && MountPath(st, path, env).1 == 0
    requires var (s1, i) := Resolve(st, path, env); i.Some? && s1.roots[i.value].mountPoint.Some?
    ensures var s2 := MountPath(st, path, env).0;
      ResolveReady(s2, path, env) && IsMountedPath(s2, path, env) == (s2, 1)
  {
    MountedAfterSuccess(st, path, env);
    var (s1, i) := Resolve(st, path, env);
    var s2 := MountPath(st, path, env).0;
    assert Resolve(s2, path, env) == (s2, i);
  }

  /** After ensure_root_path_unmounted answered 0, is_root_path_mounted reports the root not mounted. */
  lemma UnmountedRootReportsUnmounted(st: St, path: string, env: Env)
    requires ResolveReady(st, path, env) && UnmountPath(st, path, env).1 == 0
    ensures var s2 := UnmountPath(st, path, env).0;
      ResolveReady(s2, path, env) && IsMountedPath(s2, path, env) == (s2, 0)
  {
    var (s1, i) := Resolve(st, path, env);
    var s2 := UnmountPath(st, path, env).0;
    assert i.Some?;
    assert Resolve(s2, path, env) == (s2, i);
  }

  /**
   * ensure_root_path_unmounted, with its pending probe: the answers and
   * calls of UnmountReport, on the table the resolution leaves.
   */
  lemma UnmountOutcome(st: St, path: string, env: Env)
    requires ResolveReady(st, path, env)
    ensures var (s1, i) := Resolve(st, path, env);
      UnmountReport(s1, i, env, UnmountPath(st, path, env))
  {
  }

  /**
   * Unmounting is idempotent: once it answered 0, doing it again answers 0
   * and changes nothing.
   */
  lemma UnmountIdempotent(st: St, path: string, env: Env)
    requires ResolveReady(st, path, env) && UnmountPath(st, path, env).1 == 0
    ensures var s2 := UnmountPath(st, path, env).0;
      ResolveReady(s2, path, env) && UnmountPath(s2, path, env) == (s2, 0)
  {
    var (s1, i) := Resolve(st, path, env);
    var s2 := UnmountPath(st, path, env).0;
    assert i.Some?;
    assert Resolve(s2, path, env) == (s2, i);
  }

  // ---------------------------------------------------------------------
  // check_fs

  /** The trial mounts of the probe, in order, with the type and options each records. */
  function Trials(dev: string, mp: string): seq<(Call, string, string)> {
    [ (RfsProbe(dev, mp), "rfs", RfsOptions),
      (Ext2Probe(dev, mp), "ext2", Ext2Options),
      (Ext4Probe(dev, mp), "ext4", Ext4Options) ]
  }

  /** The index of the first trial the kernel accepts. */
  function FirstAccepted(ts: seq<(Call, string, string)>, env: Env): (k: Option<nat>)
    ensures k.Some? ==> k.value < |ts| && env.status(ts[k.value].0) == 0
    ensures k.Some? ==> forall j :: 0 <= j < k.value ==> env.status(ts[j].0) != 0
    ensures k.None? ==> forall j :: 0 <= j < |ts| ==> env.status(ts[j].0) != 0
  {
    if ts == [] then None
    else if env.status(ts[0].0) == 0 then Some(0)
    else match FirstAccepted(ts[1..], env)
      case None => None
      case Some(k) => Some(k + 1)
  }

  /**
   * A probed device that is not an /sdcard/ image gets the type and options
   * of the first trial mount that succeeds, which leaves it mounted, or
   * "auto" with no options when every trial fails.
   */
  lemma ProbeRecordsFirstAccepted(st: St, i: nat, env: Env)
    requires Valid(st) && 1 <= i < 4 && EntrySafe(st, i, env)
    requires var s0 := Allocated(st, i);
      RootMounted(s0.mounted, s0.roots[i], env) < 0 && !StartsWith(DeviceText(s0.roots[i].device.value), SdcardPrefix)
    ensures var info := st.roots[i];
      var ts := Trials(DeviceText(info.device.value), info.mountPoint.value);
      var r := ProbeEntry(st, i, env);
      match FirstAccepted(ts, env)
      case Some(k) =>
        && r.roots[i].filesystem == Some(Named(ts[k].1)) && r.roots[i].options == Some(Text(ts[k].2))
        && info.mountPoint.value in r.mounted
      case None =>
        && r.roots[i].filesystem == Some(Named("auto")) && r.roots[i].options == None
        && r.mounted <= st.mounted
  {
    var info := st.roots[i];
    var ts := Trials(DeviceText(info.device.value), info.mountPoint.value);
    assert ts[0].0 == RfsProbe(DeviceText(info.device.value), info.mountPoint.value);
    assert ts[1].0 == Ext2Probe(DeviceText(info.device.value), info.mountPoint.value);
    assert ts[2].0 == Ext4Probe(DeviceText(info.device.value), info.mountPoint.value);
  }

  /**
   * e2fsck only checks: on an entry the probe visits because it is not
   * mounted, and that its own name finds, the unmount after the check finds
   * nothing mounted and issues no call.
   */
  lemma CheckDeviceOnlyChecks(s: St, i: nat, env: Env)
    requires i < |s.roots| && s.roots[i].device.Some?
    requires Lookup(s, s.roots[i].name) == Some(i)
    requires RootMounted(s.mounted, s.roots[i], env) < 0
    ensures CheckDevice(s, i, env) == Perform(s, Shell(Fsck(DeviceText(s.roots[i].device.value))), env)
    ensures CheckDevice(s, i, env).mounted == s.mounted
  {
    var s1 := Perform(s, Shell(Fsck(DeviceText(s.roots[i].device.value))), env);
    assert Lookup(s1, s.roots[i].name) == Some(i);
    assert s1.mounted == s.mounted;
  }

  /** An /sdcard/ image is recorded as ext4 with the loop options after its check. */
  lemma ProbeImageIsExt4(st: St, i: nat, env: Env)
    requires Valid(st) && 1 <= i < 4 && EntrySafe(st, i, env)
    requires var s0 := Allocated(st, i);
      RootMounted(s0.mounted, s0.roots[i], env) < 0 && StartsWith(DeviceText(s0.roots[i].device.value), SdcardPrefix)
    ensures var r := ProbeEntry(st, i, env);
      && r.roots[i].filesystem == Some(Named("ext4")) && r.roots[i].options == Some(Text(LoopOptions))
      && Shell(Fsck(DeviceText(st.roots[i].device.value))) in r.calls
  {
  }

  /** A mounted entry is left as it is, apart from the buffer allocated on the first run. */
  lemma ProbeSkipsMounted(st: St, i: nat, env: Env)
    requires Valid(st) && 1 <= i < 4
    requires var s0 := Allocated(st, i); RootMounted(s0.mounted, s0.roots[i], env) >= 0
    ensures EntrySafe(st, i, env)
    ensures ProbeEntry(st, i, env) == Allocated(st, i)
    ensures ProbeEntry(st, i, env).roots[i] == st.roots[i].(options := if st.already then st.roots[i].options else Some(Uninitialized))
  {
  }

  /**
   * On the first run every visited entry gets an options buffer, so the
   * probe is safe as long as entries 1 to 3 name a filesystem.
   */
  lemma {:induction false} FirstProbeSafeFrom(st: St, i: nat, env: Env)
    requires Valid(st) && 1 <= i <= 4 && !st.already
    requires forall j :: i <= j < 4 ==> st.roots[j].filesystem.Some?
    decreases 4 - i
    ensures LoopSafe(st, i, env)
  {
    if i < 4 {
      var s1 := ProbeEntry(st, i, env);
      FirstProbeSafeFrom(s1, i + 1, env);
    }
  }

  /** The first probe after start-up is safe on every board configuration. */
  lemma InitialProbeSafe(cfg: BuildConfig, mounted: set<string>, env: Env)
    ensures var st := St(Table(cfg), false, false, None, None, [], mounted, []);
      Valid(st) && LoopSafe(st, 1, env)
  {
    TableWellFormed(cfg);
    var st := St(Table(cfg), false, false, None, None, [], mounted, []);
    assert st.roots[1].filesystem.Some? && st.roots[2].filesystem.Some? && st.roots[3].filesystem.Some?;
    FirstProbeSafeFrom(st, 1, env);
  }

  /**
   * A rerun is not safe in general: an entry recorded as "auto" lost its
   * options buffer, which later runs do not allocate again, so a trial
   * mount that now succeeds would copy its options into no buffer.
   */
  lemma RerunAfterAutoUnsafe(st: St, i: nat, env: Env)
    requires Valid(st) && 1 <= i < 4 && st.already && st.roots[i].options.None?
    requires RootMounted(st.mounted, st.roots[i], env) < 0
    requires var dev := DeviceText(st.roots[i].device.value);
      !StartsWith(dev, SdcardPrefix) && env.status(RfsProbe(dev, st.roots[i].mountPoint.value)) == 0
    ensures !EntrySafe(st, i, env)
  {
  }

  /** The names check_fs unmounts by are their own root prefixes. */
  lemma SystemAndDataPrefixes()
    ensures RootPrefix("SYSTEM:") == Some("SYSTEM:") && RootPrefix("DATA:") == Some("DATA:")
  {
    LiteralNameWellFormed("SYSTEM:");
    NameIsOwnPrefix("SYSTEM:");
    LiteralNameWellFormed("DATA:");
    NameIsOwnPrefix("DATA:");
  }

  /**
   * The probe ends by unmounting the first SYSTEM: and the first DATA:
   * entry: when the scan works and both unmounts succeed, neither mount
   * point is left in the mount table.
   */
  lemma ProbeUnmountsSystemAndData(st: St, env: Env, sys: nat, data: nat)
    requires Valid(st) && LoopSafe(st, 1, env) && env.scan >= 0
    requires FirstMatch(st.roots, "SYSTEM:") == Some(sys) && st.roots[sys].mountPoint.Some?
    requires FirstMatch(st.roots, "DATA:") == Some(data) && st.roots[data].mountPoint.Some?
    requires env.status(Unmount(st.roots[sys].mountPoint.value)) == 0
    requires env.status(Unmount(st.roots[data].mountPoint.value)) == 0
    ensures st.roots[sys].mountPoint.value !in Probe(st, env).mounted
    ensures st.roots[data].mountPoint.value !in Probe(st, env).mounted
  {
    SystemAndDataPrefixes();
    var s1 := ProbeLoop(st, 1, env).(already := true);
    FirstMatchFromSameNames(st.roots, s1.roots, "SYSTEM:", 0);
    assert Lookup(s1, "SYSTEM:") == Some(sys);
    var s2 := UnmountAt(s1, Some(sys), env).0;
    FirstMatchFromSameNames(st.roots, s2.roots, "DATA:", 0);
    assert Lookup(s2, "DATA:") == Some(data);
    var s3 := UnmountAt(s2, Some(data), env).0;
    assert Probe(st, env) == s3;
    assert s1.roots[sys].mountPoint == st.roots[sys].mountPoint;
    assert s1.roots[data].mountPoint == st.roots[data].mountPoint;
    UnmountBoth(s1, env, sys, data);
  }

  /** Two unmounts in a row that both succeed leave neither mount point in the table. */
  lemma UnmountBoth(s1: St, env: Env, sys: nat, data: nat)
    requires sys < |s1.roots| && data < |s1.roots| && env.scan >= 0
    requires s1.roots[sys].mountPoint.Some? && s1.roots[data].mountPoint.Some?
    requires env.status(Unmount(s1.roots[sys].mountPoint.value)) == 0
    requires env.status(Unmount(s1.roots[data].mountPoint.value)) == 0
    ensures var s2 := UnmountAt(s1, Some(sys), env).0;
      var s3 := UnmountAt(s2, Some(data), env).0;
      s1.roots[sys].mountPoint.value !in s3.mounted && s1.roots[data].mountPoint.value !in s3.mounted
  {
  }

  /** With the built table, the probe leaves neither /system nor /data mounted when both unmounts succeed. */
  lemma ProbeLeavesSystemAndDataUnmounted(cfg: BuildConfig, mounted: set<string>, env: Env)
    requires env.scan >= 0 && env.status(Unmount("/system")) == 0 && env.status(Unmount("/data")) == 0
    ensures var st := St(Table(cfg), false, false, None, None, [], mounted, []);
      Valid(st) && LoopSafe(st, 1, env)
      && "/system" !in Probe(st, env).mounted && "/data" !in Probe(st, env).mounted
  {
    var st := St(Table(cfg), false, false, None, None, [], mounted, []);
    InitialProbeSafe(cfg, mounted, env);
    SystemEntry(cfg);
    TableLookup(cfg, "DATA:", 2);
    ProbeUnmountsSystemAndData(st, env, 3, 2);
  }

  // ---------------------------------------------------------------------
  // format_root_device

  /**
   * format_root_device: -1 for an unresolved root or one without a device;
   * the unmount's error for a root that cannot be unmounted; for an MMC
   * device whose partition is found, the status of format_non_mtd_device
   * whatever the ext3 wipe did; for every other device, MTD included, the
   * formatter child chosen by filesystem name, and 0 exactly when it exited
   * with status 0.
   */
  lemma FormatOutcome(st: St, root: string, env: Env)
    requires ResolveReady(st, root, env)
    ensures var (s1, i) := Resolve(st, root, env);
      FormatReport(s1, i, root, env, FormatPath(st, root, env))
  {
    var (s1, i) := Resolve(st, root, env);
    FormatAtOutcome(s1, i, root, env);
  }

  /** The outcome `out` of formatting `root`, resolved to `i` in `s1`, as format_root_device reports it. */
  predicate FormatReport(s1: St, i: Option<nat>, root: string, env: Env, out: (St, int))
    requires ResolveReady(s1, root, env) && (i.Some? ==> i.value < |s1.roots|)
  {
    && (i.None? || s1.roots[i.value].device.None? ==> out == (s1, -1))
    && (i.Some? && s1.roots[i.value].device.Some? ==>
          var info := s1.roots[i.value];
          var (su, u) := if info.mountPoint.Some? then UnmountPath(s1, root, env) else (s1, 0);
          UnmountedFormatReport(su, u, info, root, env, out))
  }

  /**
   * The outcome `out` of format_root_device once its unmount step answered
   * `u` and left `su`: that error as it is; for MMC, -1 without the
   * partition, else the ext3 wipe when the type is "ext3" and then
   * format_non_mtd_device, whose status is the answer; for every other
   * device the formatter child, and 0 exactly when it exited with status 0.
   */
  predicate UnmountedFormatReport(su: St, u: int, info: RootInfo, root: string, env: Env, out: (St, int))
    requires info.device.Some?
  {
    var (s2, r) := out;
    && (u < 0 ==> s2 == su && r == u)
    && (u >= 0 && info.device == Some(Mmc) && !env.mmcHas(info.partitionName) ==> s2 == su && r == -1)
    && (u >= 0 && info.device == Some(Mmc) && env.mmcHas(info.partitionName) ==>
          && info.filesystem.Some?
          && s2.calls == su.calls
               + (if FsText(info.filesystem.value) == "ext3" then [MmcFormatExt3(info.partitionName)] else [])
               + [FormatNonMtd(root)]
          && r == env.status(FormatNonMtd(root)))
    && (u >= 0 && info.device != Some(Mmc) ==>
          var argv := FormatterArgv(FsName(info.filesystem), DeviceText(info.device.value));
          && s2.calls == su.calls + [Exec(argv)]
          && (r == 0 <==> FormatSucceeded(env.child(argv)))
          && (r == 0 || r == -1))
  }

  lemma FormatAtOutcome(s1: St, i: Option<nat>, root: string, env: Env)
    requires ResolveReady(s1, root, env) && (i.Some? ==> i.value < |s1.roots|)
    ensures FormatReport(s1, i, root, env, FormatAt(s1, i, root, env))
  {
    if i.Some? && s1.roots[i.value].device.Some? {
      var info := s1.roots[i.value];
      var (su, u) := if info.mountPoint.Some? then UnmountPath(s1, root, env) else (s1, 0);
      FormatUnmountedOutcome(su, u, info, root, env);
    }
  }

  /** What formatting does after the unmount step, branch by branch. */
  lemma FormatUnmountedOutcome(su: St, u: int, info: RootInfo, root: string, env: Env)
    requires info.device.Some? && (info.device == Some(Mmc) ==> info.filesystem.Some?)
    ensures UnmountedFormatReport(su, u, info, root, env, FormatUnmounted(su, u, info, root, env))
  {
    if u >= 0 && info.device != Some(Mmc) {
      var argv := FormatterArgv(FsName(info.filesystem), DeviceText(info.device.value));
      assert FormatUnmounted(su, u, info, root, env).0 == Perform(su, Exec(argv), env);
    } else if u >= 0 && env.mmcHas(info.partitionName) {
      var s3 := if FsText(info.filesystem.value) == "ext3" then Perform(su, MmcFormatExt3(info.partitionName), env) else su;
      assert FormatUnmounted(su, u, info, root, env).0 == Perform(s3, FormatNonMtd(root), env);
    }
  }

  /**
   * An MTD root tagged raw is never erased through its driver: it is handed
   * to the STL formatter with the tag's text "@" as its device.
   */
  lemma MtdRootGoesToStlFormat(st: St, root: string, env: Env)
    requires ResolveReady(st, root, env)
    requires var (s1, i) := Resolve(st, root, env);
      && i.Some? && s1.roots[i.value].device == Some(Mtd) && s1.roots[i.value].filesystem == Some(Raw)
      && (s1.roots[i.value].mountPoint.Some? ==> UnmountPath(s1, root, env).1 >= 0)
    ensures var s2 := FormatPath(st, root, env).0;
      s2.calls[|s2.calls| - 1] == Exec(["/sbin/stl.format", "@"])
  {
    var (s1, i) := Resolve(st, root, env);
    var info := s1.roots[i.value];
    var (su, u) := if info.mountPoint.Some? then UnmountPath(s1, root, env) else (s1, 0);
    FormatUnmountedOutcome(su, u, info, root, env);
    assert FormatPath(st, root, env) == FormatUnmounted(su, u, info, root, env);
  }

  /** The ext4 command line of the formatter. */
  lemma Ext4Formatter(device: string)
    ensures FormatterArgv(Some("ext4"), device)
      == ["/sbin/mke2fs", "-T ext4", "-F", "-q", "-m", "0", "-b", "4096", "-O", "^huge_file,extent", device]
    ensures FormatterArgv(Some("ext2"), device)
      == ["/sbin/mke2fs", "-T ext2", "-F", "-q", "-m", "0", "-b", "4096", device]
    ensures FormatterArgv(Some("rfs"), device) == ["/sbin/stl.format", device]
    ensures FormatterArgv(None, device) == ["/sbin/stl.format", device]
  {
    assert StartsWith("ext4", "ext") && StartsWith("ext4", "ext4") && StartsWith("ext2", "ext");
    assert !StartsWith("ext2", "ext4") by {
      assert "ext2"[..4][3] == '2';
    }
    assert !StartsWith("rfs", "ext") by {
      assert "rfs"[..3][0] == 'r';
    }
    assert "-T " + "ext4" == "-T ext4" && "-T " + "ext2" == "-T ext2";
  }
}

/**
 * The root table g_roots (roots.c:47-62) and the lookup over it used by
 * get_root_info_for_path (roots.c:220-228). The board macros (CACHE_DEVICE,
 * HAS_DATADATA, ...) are a BuildConfig value.
 */
module RootTable {

  import opened RootTypes
  import opened RootText

  /** A root name: a C string whose only ':' is its last character. */
  predicate WellFormedName(n: string) {
    IsCString(n) && |n| > 0 && n[|n| - 1] == ':' && ':' !in n[..|n| - 1]
  }

  /** What the code relies on in every entry. */
  predicate WellFormedEntry(e: RootInfo) {
    && WellFormedName(e.name)
    && (e.mountPoint.Some? ==> e.mountPoint.value != [])  // out_buf[mp_len - 1] is read
    && (e.device == Some(Mmc) ==> e.filesystem.Some?)     // strcmp(info->filesystem, "ext3")
  }

  /**
   * What the code relies on in the table as a whole: check_fs walks indices
   * 1..3 and hands their device to strncmp and their mount point to mount.
   */
  predicate WellFormedTable(roots: seq<RootInfo>) {
    && |roots| >= 4
    && (forall i :: 0 <= i < |roots| ==> WellFormedEntry(roots[i]))
    && (forall i :: 1 <= i < 4 ==> roots[i].device.Some? && roots[i].mountPoint.Some?)
  }

  /**
   * The index of the first entry whose name agrees with `prefix` on its
   * first |prefix| characters (strncmp(info->name, root_path, len) == 0).
   */
  function FirstMatch(roots: seq<RootInfo>, prefix: string): (r: Option<nat>)
    ensures r.Some? ==> r.value < |roots| && StartsWith(roots[r.value].name, prefix)
    ensures r.Some? ==> forall j :: 0 <= j < r.value ==> !StartsWith(roots[j].name, prefix)
    ensures r.None? ==> forall j :: 0 <= j < |roots| ==> !StartsWith(roots[j].name, prefix)
  {
    FirstMatchFrom(roots, prefix, 0)
  }

  function FirstMatchFrom(roots: seq<RootInfo>, prefix: string, i: nat): (r: Option<nat>)
    requires i <= |roots|
    decreases |roots| - i
    ensures r.Some? ==> i <= r.value < |roots| && StartsWith(roots[r.value].name, prefix)
    ensures r.Some? ==> forall j :: i <= j < r.value ==> !StartsWith(roots[j].name, prefix)
    ensures r.None? ==> forall j :: i <= j < |roots| ==> !StartsWith(roots[j].name, prefix)
  {
    if i == |roots| then None
    else if StartsWith(roots[i].name, prefix) then Some(i)
    else FirstMatchFrom(roots, prefix, i + 1)
  }

  /** A root prefix matches a well-formed name exactly when the two are equal. */
  lemma MatchIsEquality(name: string, prefix: string)
    requires WellFormedName(name)
    requires |prefix| > 0 && prefix[|prefix| - 1] == ':' && ':' !in prefix[..|prefix| - 1]
    ensures StartsWith(name, prefix) <==> name == prefix
  {
  }

  /**
   * In a well-formed table the entry found for a root prefix is the first
   * entry whose name is that prefix.
   */
  lemma FirstMatchIsFirstNamed(roots: seq<RootInfo>, path: string)
    requires WellFormedTable(roots) && RootPrefix(path).Some?
    ensures var p := RootPrefix(path).value;
      var r := FirstMatch(roots, p);
      && (r.Some? ==> roots[r.value].name == p && forall j :: 0 <= j < r.value ==> roots[j].name != p)
      && (r.None? <==> forall j :: 0 <= j < |roots| ==> roots[j].name != p)
  {
    var p := RootPrefix(path).value;
    forall j | 0 <= j < |roots|
      ensures StartsWith(roots[j].name, p) <==> roots[j].name == p
    {
      MatchIsEquality(roots[j].name, p);
    }
  }

  /** The device, filesystem and options macros of one board volume. */
  datatype Volume = Volume(device: Device, filesystem: string, options: Option<string>)

  /** The build-time macros the table is written with. */
  datatype BuildConfig = BuildConfig(
    cache: Volume,                  // CACHE_DEVICE, CACHE_FILESYSTEM, CACHE_FILESYSTEM_OPTIONS
    data: Volume,
    system: Volume,
    datadata: Option<Volume>,       // present when HAS_DATADATA is defined
    sdcardPrimary: Device,
    sdcardSecondary: Option<string>,
    sdextDevice: Device,
    sdextFs: string,
    efs: Volume)

  function OptionsOf(o: Option<string>): Option<OptBuf> {
    match o
    case None => None
    case Some(t) => Some(Text(t))
  }

  function VolumeEntry(name: string, v: Volume, partition: string, mountPoint: string): RootInfo {
    RootInfo(name, Some(v.device), None, Some(partition), Some(mountPoint), Some(Named(v.filesystem)), OptionsOf(v.options))
  }

  /** g_roots, in table order. */
  function Table(cfg: BuildConfig): seq<RootInfo> {
    [ RootInfo("BOOT:", Some(Mtd), None, Some("boot"), None, Some(Raw), None),
      VolumeEntry("CACHE:", cfg.cache, "cache", "/cache"),
      VolumeEntry("DATA:", cfg.data, "userdata", "/data"),
      VolumeEntry("SYSTEM:", cfg.system, "system", "/system") ]
    + (if cfg.datadata.Some? then [VolumeEntry("DATADATA:", cfg.datadata.value, "datadata", "/datadata")] else [])
    + [ RootInfo("PACKAGE:", None, None, None, None, Some(Package), None),
        RootInfo("RECOVERY:", Some(Mtd), None, Some("recovery"), Some("/"), Some(Raw), None),
        RootInfo("SDCARD:", Some(cfg.sdcardPrimary), cfg.sdcardSecondary, None, Some("/sdcard"), Some(Named("vfat")), None),
        RootInfo("SDEXT:", Some(cfg.sdextDevice), None, None, Some("/sd-ext"), Some(Named(cfg.sdextFs)), None),
        RootInfo("MBM:", Some(Mtd), None, Some("mbm"), None, Some(Raw), None),
        RootInfo("TMP:", None, None, None, Some("/tmp"), None, None),
        VolumeEntry("EFS:", cfg.efs, "efs", "/efs") ]
  }

  lemma LiteralNameWellFormed(n: string)
    requires n in ["BOOT:", "CACHE:", "DATA:", "SYSTEM:", "DATADATA:", "PACKAGE:", "RECOVERY:",
                   "SDCARD:", "SDEXT:", "MBM:", "TMP:", "EFS:"]
    ensures WellFormedName(n)
  {
  }

  /** A well-formed name is its own root prefix: the lookup by a root's name finds that root. */
  lemma NameIsOwnPrefix(n: string)
    requires WellFormedName(n)
    ensures RootPrefix(n) == Some(n)
  {
    FirstColon(n, |n| - 1);
    assert n[..|n|] == n;
  }

  /** The table as built is well formed and has 11 entries (12 with DATADATA:). */
  lemma TableWellFormed(cfg: BuildConfig)
    ensures WellFormedTable(Table(cfg))
    ensures |Table(cfg)| == if cfg.datadata.Some? then 12 else 11
  {
    var t := Table(cfg);
    forall i | 0 <= i < |t| ensures WellFormedName(t[i].name) {
      LiteralNameWellFormed(t[i].name);
    }
  }
}

/**
 * The values the recovery root layer works on: root descriptors, the
 * sentinel tags that roots.c compares by pointer identity, the external
 * calls it issues, and the environment that answers those calls.
 */
module RootTypes {

  datatype Option<+T> = None | Some(value: T)

  /** A root's primary device: one of the two driver tags, or a device path. */
  datatype Device = Mtd | Mmc | Path(path: string)

  /** A root's filesystem: one of the two tags, or a filesystem type name. */
  datatype Fs = Raw | Package | Named(name: string)

  /**
   * What a filesystem_options buffer holds: text written into it, or the
   * indeterminate bytes of a buffer that was allocated and never written.
   */
  datatype OptBuf = Text(text: string) | Uninitialized

  /** One entry of the root table, fields in the order of the C struct. */
  datatype RootInfo = RootInfo(
    name: string,
    device: Option<Device>,
    device2: Option<string>,
    partitionName: Option<string>,
    mountPoint: Option<string>,
    filesystem: Option<Fs>,
    options: Option<OptBuf>)

  /**
   * The sentinels are character arrays starting with "@\0", so wherever the
   * code hands a tag to a string routine the routine sees the string "@".
   */
  function DeviceText(d: Device): string {
    match d
    case Path(p) => p
    case _ => "@"
  }

  function FsText(f: Fs): string {
    match f
    case Named(n) => n
    case _ => "@"
  }

  /** The MS_* flags the code passes to mount(2). */
  datatype MountFlag = NoAtime | NoDev | NoDirAtime | NoSuid

  /** Shell commands run through __system. */
  datatype Command =
    | MountCmd(fstype: string, options: OptBuf, device: string, mountPoint: string)  // "mount -t %s -o%s %s %s"
    | Fsck(device: string)                                                          // "/sbin/e2fsck -fyc %s"

  /** Every interaction with the kernel, the drivers or another program. */
  datatype Call =
    | Mount(source: string, target: string, fstype: string, flags: set<MountFlag>, data: Option<string>)
    | MtdMount(mtdPartition: string, mtdTarget: Option<string>, mtdFstype: Option<string>)
    | Shell(command: Command)
    | Unmount(target: string)
    | MmcFormatExt3(mmcPartition: Option<string>)
    | Exec(argv: seq<string>)
    | FormatNonMtd(root: string)

  /** How a waited-for child ended: WIFEXITED with its exit status, or killed. */
  datatype ChildStatus = Exited(code: nat) | Signaled(signal: nat)

  /** The caller-owned archive handle bound to the package root. */
  datatype Archive = Archive(handle: nat)

  /**
   * The oracles: the result of scan_mounted_volumes, the status each call
   * returns (0 is success for mount, umount, __system and the driver calls),
   * how a formatter child ends, and which partitions the drivers find.
   */
  datatype Env = Env(
    scan: int,
    status: Call -> int,
    child: seq<string> -> ChildStatus,
    mtdHas: string -> bool,
    mmcHas: Option<string> -> bool)

  /** The kernel's mount table after `c` returned `status`. */
  function MountEffect(mounted: set<string>, c: Call, status: int): (m: set<string>)
    ensures status != 0 ==> m == mounted
    ensures c.Unmount? && status == 0 ==> m == mounted - {c.target}
    ensures c.Mount? && status == 0 ==> m == mounted + {c.target}
    ensures c.MtdMount? && status == 0 ==> m == if c.mtdTarget.Some? then mounted + {c.mtdTarget.value} else mounted
    ensures c.Shell? && c.command.MountCmd? && status == 0 ==> m == mounted + {c.command.mountPoint}
    ensures c.Exec? || c.FormatNonMtd? || c.MmcFormatExt3? || (c.Shell? && c.command.Fsck?) ==> m == mounted
  {
    if status != 0 then mounted
    else match c
      case Mount(_, t, _, _, _) => mounted + {t}
      case MtdMount(_, t, _) => if t.Some? then mounted + {t.value} else mounted
      case Shell(MountCmd(_, _, _, mp)) => mounted + {mp}
      case Unmount(t) => mounted - {t}
      case _ => mounted
  }
}

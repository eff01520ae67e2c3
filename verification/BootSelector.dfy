/** The initramfs boot selector: which root the system runs from, and what survives a power cut. */
module BootSelector {
  import opened Bytes

  // ------------------------------------------------------------- persistent state

  /** The root partition's files, by path; values stand for contents. */
  type Root = map<nat, nat>

  const DEV := 0
  const PROC := 1
  const SYS := 2
  const RUN := 3
  const DIR := 0

  datatype Put = Put(path: nat, value: nat)

  /** Root file system, staged config blob (as what its applier will write), and maintenance flag on facres. */
  datatype Disk = Disk(root: Root, blob: Option<seq<Put>>, flag: bool)

  /** One change that reaches a partition. */
  datatype Step = Mkdir(path: nat) | Write(put: Put) | Invalidate

  function Do(d: Disk, s: Step): Disk {
    match s
    case Mkdir(p) => if p in d.root then d else d.(root := d.root[p := DIR])
    case Write(w) => d.(root := d.root[w.path := w.value])
    case Invalidate => d.(blob := None)
  }

  function Exec(d: Disk, steps: seq<Step>): Disk {
    if steps == [] then d else Do(Exec(d, steps[..|steps| - 1]), steps[|steps| - 1])
  }

  // ------------------------------------------------------------- one boot

  /** What the hardware and the mounts do during a boot. */
  datatype World = World(cmdline: seq<string>, rootAppears: Option<nat>, facresMounts: bool, cacheFound: bool,
                         configMounts: bool, applierFails: Option<nat>, configUnmounts: bool, rwMounts: bool,
                         roMounts: bool, tmpfsMounts: bool, overlayMounts: bool, fallbackMounts: bool, switches: bool)

  const MODE_ARG := "tc8.rootfs="
  const TRIES := 100

  /** How the selector ends: in a system on the real root or on the overlay, in a rescue shell, or without power. */
  datatype End = Direct | Overlay | Rescue | PowerLost

  /** The value of the last mode argument, or nothing. */
  function CmdlineMode(args: seq<string>): string {
    if args == [] then ""
    else
      var last := args[|args| - 1];
      if MODE_ARG <= last then last[|MODE_ARG|..] else CmdlineMode(args[..|args| - 1])
  }

  /** The mode the selector settles on. */
  predicate Maintenance(d: Disk, w: World) {
    if CmdlineMode(w.cmdline) != "" then CmdlineMode(w.cmdline) == "rw" else w.facresMounts && d.flag
  }

  predicate RootFound(w: World) {
    w.rootAppears.Some? && w.rootAppears.value < TRIES
  }

  /** A blob is staged and the root can be mounted to apply it. */
  predicate Configuring(d: Disk, w: World) {
    RootFound(w) && w.cacheFound && d.blob.Some? && w.configMounts
  }

  function Writes(puts: seq<Put>): (r: seq<Step>)
    ensures |r| == |puts| && forall i :: 0 <= i < |puts| ==> r[i] == Write(puts[i])
  {
    seq(|puts|, i requires 0 <= i < |puts| => Write(puts[i]))
  }

  const CONFIG_DIRS := [Mkdir(DEV), Mkdir(PROC), Mkdir(SYS)]
  const MOUNT_DIRS := [Mkdir(DEV), Mkdir(PROC), Mkdir(SYS), Mkdir(RUN)]

  /** How many of the applier's writes are made: all of them unless it fails. */
  function Made(w: World, n: nat): nat {
    if w.applierFails.Some? && w.applierFails.value < n then w.applierFails.value else n
  }

  /** The applier invalidates the blob as its last step, and only when it did not fail. */
  function ApplySteps(puts: seq<Put>, w: World): seq<Step> {
    Writes(puts[..Made(w, |puts|)]) + if w.applierFails.None? then [Invalidate] else []
  }

  function ConfigSteps(d: Disk, w: World): seq<Step> {
    if Configuring(d, w) then CONFIG_DIRS + ApplySteps(d.blob.value, w) else []
  }

  predicate OverlayFails(w: World) {
    !w.tmpfsMounts || !w.overlayMounts
  }

  /** How the boot ends when power stays. */
  function EndOf(d: Disk, w: World): End {
    if !RootFound(w) then Rescue
    else if Configuring(d, w) && !w.configUnmounts then Rescue
    else if Maintenance(d, w) then if w.rwMounts && w.switches then Direct else Rescue
    else if !w.roMounts then Rescue
    else if !OverlayFails(w) then if w.switches then Overlay else Rescue
    else if w.fallbackMounts && w.switches then Direct else Rescue
  }

  /** The real root is mounted read-write as the new root. */
  predicate DirectMount(d: Disk, w: World) {
    && RootFound(w) && !(Configuring(d, w) && !w.configUnmounts)
    && if Maintenance(d, w) then w.rwMounts else w.roMounts && OverlayFails(w) && w.fallbackMounts
  }

  /** All changes the selector makes to partitions. */
  function Steps(d: Disk, w: World): seq<Step> {
    ConfigSteps(d, w) + if DirectMount(d, w) then MOUNT_DIRS else []
  }

  // ------------------------------------------------------------- the script

  class Machine {
    var disk: Disk
    /** How many changes still reach the disk before power is cut. */
    var power: nat

    constructor (disk: Disk, power: nat)
      ensures this.disk == disk && this.power == power
    {
      this.disk := disk;
      this.power := power;
    }

    /** Makes a change unless power is gone. */
    method Change(s: Step) returns (ok: bool)
      modifies this
      ensures ok <==> old(power) > 0
      ensures ok ==> disk == Do(old(disk), s) && power == old(power) - 1
      ensures !ok ==> disk == old(disk) && power == 0
    {
      if power == 0 {
        return false;
      }
      disk := Do(disk, s);
      power := power - 1;
      return true;
    }

    /** Makes changes in order until power is gone. */
    method ChangeAll(steps: seq<Step>) returns (ok: bool)
      modifies this
      ensures ok <==> old(power) >= |steps|
      ensures ok ==> disk == Exec(old(disk), steps) && power == old(power) - |steps|
      ensures !ok ==> disk == Exec(old(disk), steps[..old(power)]) && power == 0
    {
      for i := 0 to |steps|
        invariant disk == Exec(old(disk), steps[..i]) && power == old(power) - i >= 0
      {
        var c := Change(steps[i]);
        if !c {
          return false;
        }
        ExecStep(old(disk), steps, i);
      }
      assert steps[..|steps|] == steps;
      return true;
    }

    /** The loop over the kernel command line. */
    method ParseMode(cmdline: seq<string>) returns (mode: string)
      ensures mode == CmdlineMode(cmdline)
    {
      mode := "";
      for i := 0 to |cmdline|
        invariant mode == CmdlineMode(cmdline[..i])
      {
        assert cmdline[..i + 1][..i] == cmdline[..i];
        if MODE_ARG <= cmdline[i] {
          mode := cmdline[i][|MODE_ARG|..];
        }
      }
      assert cmdline[..|cmdline|] == cmdline;
    }

    /** Polls for the root partition. */
    method WaitForRoot(w: World) returns (found: bool)
      ensures found <==> RootFound(w)
    {
      var tries := 0;
      while tries < TRIES
        invariant 0 <= tries <= TRIES
        invariant w.rootAppears.Some? ==> tries <= w.rootAppears.value
      {
        if w.rootAppears.Some? && w.rootAppears.value <= tries {
          return true;
        }
        tries := tries + 1;
      }
      return false;
    }

    /** Applies a staged blob, if there is one; gives how the boot ends when it ends here. */
    method ApplyConfig(w: World) returns (end: Option<End>)
      requires RootFound(w)
      modifies this
      ensures var steps := ConfigSteps(old(disk), w);
              && (end == Some(PowerLost) <==> old(power) < |steps|)
              && (end == Some(PowerLost) ==> disk == Exec(old(disk), steps[..old(power)]))
              && (end != Some(PowerLost) ==>
                    && disk == Exec(old(disk), steps) && power == old(power) - |steps|
                    && end == if Configuring(old(disk), w) && !w.configUnmounts then Some(Rescue) else None)
    {
      if w.cacheFound && disk.blob.Some? {
        if w.configMounts {
          var ok := ChangeAll(CONFIG_DIRS + ApplySteps(disk.blob.value, w));
          if !ok {
            return Some(PowerLost);
          }
          if !w.configUnmounts {
            return Some(Rescue);
          }
        }
      }
      end := None;
    }

    /** The new root is mounted directly, or the overlay is; then the system proper takes over. */
    method MountRoot(w: World, mode: string) returns (end: End)
      modifies this
      ensures var direct := if mode == "rw" then w.rwMounts else w.roMounts && OverlayFails(w) && w.fallbackMounts;
              var steps := if direct then MOUNT_DIRS else [];
              && (end == PowerLost <==> old(power) < |steps|)
              && (end != PowerLost ==>
                    && disk == Exec(old(disk), steps)
                    && (end == Direct <==> direct && w.switches)
                    && (end == Overlay <==> mode != "rw" && w.roMounts && !OverlayFails(w) && w.switches))
              && (end == PowerLost ==> disk == Exec(old(disk), steps[..old(power)]))
    {
      var direct := false;
      if mode == "rw" {
        if !w.rwMounts {
          return Rescue;
        }
        direct := true;
      } else {
        if !w.roMounts {
          return Rescue;
        }
        var overlayOk := false;
        if w.tmpfsMounts {
          if w.overlayMounts {
            overlayOk := true;
          }
        }
        if !overlayOk {
          if !w.fallbackMounts {
            return Rescue;
          }
          direct := true;
        }
      }
      if direct {
        var ok := ChangeAll(MOUNT_DIRS);
        if !ok {
          return PowerLost;
        }
      }
      if !w.switches {
        return Rescue;
      }
      return if direct then Direct else Overlay;
    }

    /** The whole script: it makes the changes of Steps in order, as far as power lasts. */
    method Boot(w: World) returns (end: End)
      modifies this
      ensures var steps := Steps(old(disk), w);
              && (end == PowerLost <==> old(power) < |steps|)
              && (end == PowerLost ==> disk == Exec(old(disk), steps[..old(power)]))
              && (end != PowerLost ==> disk == Exec(old(disk), steps) && end == EndOf(old(disk), w))
    {
      hide Exec, ConfigSteps, CmdlineMode, RootFound, OverlayFails, Configuring;
      NothingToDo(disk);
      var mode := ParseMode(w.cmdline);
      var found := WaitForRoot(w);
      if !found {
        assert ConfigSteps(disk, w) == [] by { NoRootNoConfig(disk, w); }
        return Rescue;
      }
      if mode == "" {
        if w.facresMounts && disk.flag {
          mode := "rw";
        }
      }
      if mode != "rw" {
        mode := "ro";
      }
      ghost var d, n := disk, power;
      ghost var config := ConfigSteps(d, w);
      var early := ApplyConfig(w);
      assert config + [] == config;
      if early.Some? {
        if early.value == PowerLost {
          assert Steps(d, w)[..n] == config[..n];
        }
        return early.value;
      }
      ghost var d1, n1 := disk, power;
      end := MountRoot(w, mode);
      NothingToDo(d1);
      ExecConcat(d, config, MOUNT_DIRS);
      if end == PowerLost {
        ExecConcat(d, config, MOUNT_DIRS[..n1]);
        assert Steps(d, w)[..n] == config + MOUNT_DIRS[..n1];
      }
    }
  }

  lemma NoRootNoConfig(d: Disk, w: World)
    requires !RootFound(w)
    ensures ConfigSteps(d, w) == [] && !Configuring(d, w)
  {
  }

  lemma NothingToDo(d: Disk)
    ensures Exec(d, []) == d
  {
  }

  lemma ExecStep(d: Disk, steps: seq<Step>, i: nat)
    requires i < |steps|
    ensures Exec(d, steps[..i + 1]) == Do(Exec(d, steps[..i]), steps[i])
  {
    assert steps[..i + 1][..i] == steps[..i];
  }

  lemma {:induction false} ExecConcat(d: Disk, a: seq<Step>, b: seq<Step>)
    ensures Exec(d, a + b) == Exec(Exec(d, a), b)
  {
    if b == [] {
      assert a + b == a;
    } else {
      var n := |b| - 1;
      assert (a + b)[..|a + b| - 1] == a + b[..n];
      ExecConcat(d, a, b[..n]);
    }
  }

  // ------------------------------------------------------------- which mode

  /** The last mode argument decides. */
  lemma {:induction false} LastArgumentWins(before: seq<string>, value: string, after: seq<string>)
    requires forall i :: 0 <= i < |after| ==> !(MODE_ARG <= after[i])
    ensures CmdlineMode(before + [MODE_ARG + value] + after) == value
  {
    var args := before + [MODE_ARG + value] + after;
    if after == [] {
      assert args[|args| - 1] == MODE_ARG + value;
      assert (MODE_ARG + value)[|MODE_ARG|..] == value;
    } else {
      var n := |after| - 1;
      assert args[|args| - 1] == after[n];
      assert args[..|args| - 1] == before + [MODE_ARG + value] + after[..n];
      LastArgumentWins(before, value, after[..n]);
    }
  }

  lemma {:induction false} NoArgument(args: seq<string>)
    requires forall i :: 0 <= i < |args| ==> !(MODE_ARG <= args[i])
    ensures CmdlineMode(args) == ""
  {
    if args != [] {
      NoArgument(args[..|args| - 1]);
    }
  }

  /**
    The command line beats the flag. The last mode argument settles the mode, and any value but rw seals the root;
    only an empty value, or no mode argument at all, leaves it to the flag.
   */
  lemma CmdlineBeatsFlag(d: Disk, w: World, before: seq<string>, value: string, after: seq<string>)
    requires forall i :: 0 <= i < |after| ==> !("tc8.rootfs=" <= after[i])
    ensures w.cmdline == before + ["tc8.rootfs=" + value] + after ==>
              (Maintenance(d, w) <==> value == "rw" || (value == "" && w.facresMounts && d.flag))
    ensures w.cmdline == after ==> (Maintenance(d, w) <==> w.facresMounts && d.flag)
  {
    LastArgumentWins(before, value, after);
    NoArgument(after);
  }

  // ------------------------------------------------------------- one boot with power cuts

  /** A boot: what the hardware does, after how many changes power is cut, and what the system then writes. */
  datatype Boot = Boot(world: World, cut: nat, session: seq<SessionWrite>)

  /** Writes of the running system; it may also stage a blob or set the flag. */
  datatype SessionWrite = RootPut(put: Put) | Stage(blob: Option<seq<Put>>) | SetFlag(flag: bool)

  /** In an overlay session, writes to the root land in memory only. */
  function SessionDo(d: Disk, direct: bool, s: SessionWrite): Disk {
    match s
    case RootPut(p) => if direct then d.(root := d.root[p.path := p.value]) else d
    case Stage(b) => d.(blob := b)
    case SetFlag(f) => d.(flag := f)
  }

  function Session(d: Disk, direct: bool, ss: seq<SessionWrite>): Disk {
    if ss == [] then d else SessionDo(Session(d, direct, ss[..|ss| - 1]), direct, ss[|ss| - 1])
  }

  function Ended(d: Disk, b: Boot): End {
    if b.cut < |Steps(d, b.world)| then PowerLost else EndOf(d, b.world)
  }

  function AfterSelector(d: Disk, b: Boot): Disk {
    Exec(d, if b.cut < |Steps(d, b.world)| then Steps(d, b.world)[..b.cut] else Steps(d, b.world))
  }

  /** The partitions after a boot and its session. */
  function AfterBoot(d: Disk, b: Boot): Disk {
    var d1 := AfterSelector(d, b);
    match Ended(d, b)
    case Direct => Session(d1, true, b.session)
    case Overlay => Session(d1, false, b.session)
    case _ => d1
  }

  /** The boot has one of the three reasons to touch the root. */
  predicate MayTouchRoot(d: Disk, w: World) {
    RootFound(w) && (Maintenance(d, w) || Configuring(d, w) || (w.roMounts && OverlayFails(w)))
  }

  lemma {:induction false} OverlaySessionKeepsRoot(d: Disk, ss: seq<SessionWrite>)
    ensures Session(d, false, ss).root == d.root
  {
    if ss != [] {
      OverlaySessionKeepsRoot(d, ss[..|ss| - 1]);
    }
  }

  /** Without a reason the selector changes nothing, and the session cannot. */
  lemma SealedBootKeepsRoot(d: Disk, b: Boot)
    requires !MayTouchRoot(d, b.world)
    ensures Steps(d, b.world) == []
    ensures AfterBoot(d, b).root == d.root
  {
    OverlaySessionKeepsRoot(AfterSelector(d, b), b.session);
  }

  // ------------------------------------------------------------- runs

  function Run(d: Disk, bs: seq<Boot>): Disk {
    if bs == [] then d else AfterBoot(Run(d, bs[..|bs| - 1]), bs[|bs| - 1])
  }

  /** Across any boots, sessions and power cuts: a changed root has a boot with a reason behind it. */
  lemma {:induction false} RootSafety(d: Disk, bs: seq<Boot>)
    ensures Run(d, bs).root != d.root ==>
              exists i :: 0 <= i < |bs| && MayTouchRoot(Run(d, bs[..i]), bs[i].world)
  {
    hide AfterBoot, MayTouchRoot;
    if bs != [] {
      var n := |bs| - 1;
      var init := bs[..n];
      RootSafety(d, init);
      if Run(d, init).root != d.root {
        var i :| 0 <= i < n && MayTouchRoot(Run(d, init[..i]), init[i].world);
        assert init[..i] == bs[..i];
        assert MayTouchRoot(Run(d, bs[..i]), bs[i].world);
      } else if !MayTouchRoot(Run(d, init), bs[n].world) {
        SealedBootKeepsRoot(Run(d, init), bs[n]);
      }
    }
  }

  // ------------------------------------------------------------- the config blob

  function PutAll(r: Root, puts: seq<Put>): Root {
    if puts == [] then r
    else
      var p := puts[|puts| - 1];
      PutAll(r, puts[..|puts| - 1])[p.path := p.value]
  }

  function MakeDir(r: Root, p: nat): Root {
    if p in r then r else r[p := DIR]
  }

  function ConfigDirs(r: Root): Root {
    MakeDir(MakeDir(MakeDir(r, DEV), PROC), SYS)
  }

  /** The root after one complete, undisturbed apply. */
  function Applied(r: Root, puts: seq<Put>): Root {
    PutAll(ConfigDirs(r), puts)
  }

  lemma {:induction false} ExecWrites(d: Disk, puts: seq<Put>)
    ensures Exec(d, Writes(puts)) == d.(root := PutAll(d.root, puts))
  {
    if puts != [] {
      var n := |puts| - 1;
      ExecWrites(d, puts[..n]);
      assert Writes(puts)[..n] == Writes(puts[..n]);
    }
  }

  lemma ExecDirs(d: Disk)
    ensures Exec(d, CONFIG_DIRS) == d.(root := ConfigDirs(d.root))
  {
    var c := CONFIG_DIRS;
    assert c[..2] == [Mkdir(DEV), Mkdir(PROC)] && c[..2][..1] == [Mkdir(DEV)] && c[..2][..1][..0] == [];
    assert Exec(d, c[..2][..1]) == Do(d, Mkdir(DEV));
    assert Exec(d, c[..2]) == Do(Do(d, Mkdir(DEV)), Mkdir(PROC));
  }

  predicate Touches(puts: seq<Put>, p: nat) {
    exists i :: 0 <= i < |puts| && puts[i].path == p
  }

  function LastValue(puts: seq<Put>, p: nat): nat
    requires Touches(puts, p)
  {
    var last := puts[|puts| - 1];
    if last.path == p then last.value
    else
      var i :| 0 <= i < |puts| && puts[i].path == p;
      assert puts[..|puts| - 1][i].path == p;
      LastValue(puts[..|puts| - 1], p)
  }

  lemma {:induction false} PutAllLookup(r: Root, puts: seq<Put>, p: nat)
    ensures p in PutAll(r, puts) <==> p in r || Touches(puts, p)
    ensures Touches(puts, p) ==> PutAll(r, puts)[p] == LastValue(puts, p)
    ensures !Touches(puts, p) && p in r ==> PutAll(r, puts)[p] == r[p]
  {
    if puts != [] {
      var n := |puts| - 1;
      PutAllLookup(r, puts[..n], p);
      if Touches(puts, p) && puts[n].path != p {
        var i :| 0 <= i < |puts| && puts[i].path == p;
        assert puts[..n][i].path == p;
      }
      if Touches(puts[..n], p) {
        var i :| 0 <= i < n && puts[..n][i].path == p;
        assert puts[i].path == p;
      }
    }
  }

  /** Making some writes, in order, before making them all changes nothing: each path ends up with its last value. */
  lemma PutAgain(r: Root, puts: seq<Put>, k: nat)
    requires k <= |puts|
    ensures PutAll(PutAll(r, puts[..k]), puts) == PutAll(r, puts)
  {
    hide PutAll, LastValue;
    var once, twice := PutAll(r, puts), PutAll(PutAll(r, puts[..k]), puts);
    forall p: nat
      ensures p in once <==> p in twice
      ensures p in once && p in twice ==> once[p] == twice[p]
    {
      PutAllLookup(r, puts, p);
      PutAllLookup(r, puts[..k], p);
      PutAllLookup(PutAll(r, puts[..k]), puts, p);
      if Touches(puts[..k], p) {
        var i :| 0 <= i < k && puts[..k][i].path == p;
        assert puts[i].path == p;
      }
    }
  }

  lemma DirsKept(r: Root, puts: seq<Put>)
    ensures ConfigDirs(PutAll(ConfigDirs(r), puts)) == PutAll(ConfigDirs(r), puts)
    ensures ConfigDirs(ConfigDirs(r)) == ConfigDirs(r)
  {
    PutAllLookup(ConfigDirs(r), puts, DEV);
    PutAllLookup(ConfigDirs(r), puts, PROC);
    PutAllLookup(ConfigDirs(r), puts, SYS);
  }

  /** What a cut-off apply leaves: the same complete result as before, once applied again. */
  lemma ReapplyIsClean(r: Root, puts: seq<Put>, k: nat)
    requires k <= |puts|
    ensures Applied(PutAll(ConfigDirs(r), puts[..k]), puts) == Applied(r, puts)
  {
    DirsKept(r, puts[..k]);
    PutAgain(ConfigDirs(r), puts, k);
  }

  lemma SomeDirs(r: Root)
    ensures ConfigDirs(MakeDir(r, DEV)) == ConfigDirs(r)
    ensures ConfigDirs(MakeDir(MakeDir(r, DEV), PROC)) == ConfigDirs(r)
    ensures ConfigDirs(ConfigDirs(r)) == ConfigDirs(r)
  {
    DirsKept(r, []);
    var r1 := MakeDir(r, DEV);
    var r2 := MakeDir(r1, PROC);
    assert MakeDir(r1, DEV) == r1 && MakeDir(r2, DEV) == r2 && MakeDir(r2, PROC) == r2;
  }

  lemma DirsSoFar(d: Disk, k: nat)
    requires k <= 3
    ensures var r := d.root;
            Exec(d, CONFIG_DIRS[..k]).root
            == if k == 0 then r else if k == 1 then MakeDir(r, DEV) else if k == 2 then MakeDir(MakeDir(r, DEV), PROC)
               else ConfigDirs(r)
    ensures Exec(d, CONFIG_DIRS[..k]) == d.(root := Exec(d, CONFIG_DIRS[..k]).root)
  {
    hide Exec;
    var c := CONFIG_DIRS;
    assert c[..0] == [];
    NothingToDo(d);
    ExecStep(d, c, 0);
    ExecStep(d, c, 1);
    ExecStep(d, c, 2);
  }

  lemma ReapplyAfterDirs(d: Disk, k: nat, puts: seq<Put>)
    requires k <= 3
    ensures Applied(Exec(d, CONFIG_DIRS[..k]).root, puts) == Applied(d.root, puts)
    ensures Exec(d, CONFIG_DIRS[..k]) == d.(root := Exec(d, CONFIG_DIRS[..k]).root)
  {
    DirsSoFar(d, k);
    SomeDirs(d.root);
    hide Exec, PutAll, ConfigDirs, MakeDir;
  }

  /** A prefix of the configuration steps: directories, some writes, and perhaps the invalidation. */
  lemma ConfigPrefix(d: Disk, w: World, puts: seq<Put>, k: nat)
    requires d.blob == Some(puts) && Configuring(d, w) && k <= |ConfigSteps(d, w)|
    ensures var e := Exec(d, ConfigSteps(d, w)[..k]);
            && e.flag == d.flag
            && if k == |ConfigSteps(d, w)| && w.applierFails.None?
               then e.blob == None && e.root == Applied(d.root, puts)
               else e.blob == Some(puts) && Applied(e.root, puts) == Applied(d.root, puts)
  {
    hide Exec, Applied, ConfigDirs, Do;
    var steps, m := ConfigSteps(d, w), Made(w, |puts|);
    var ws := Writes(puts[..m]);
    if k <= 3 {
      assert steps[..k] == CONFIG_DIRS[..k];
      ReapplyAfterDirs(d, k, puts);
    } else {
      ExecDirs(d);
      if k <= 3 + m {
        assert steps[..k] == CONFIG_DIRS + ws[..k - 3];
        assert ws[..k - 3] == Writes(puts[..k - 3]);
        ExecConcat(d, CONFIG_DIRS, Writes(puts[..k - 3]));
        ExecWrites(Exec(d, CONFIG_DIRS), puts[..k - 3]);
        ReapplyIsClean(d.root, puts, k - 3);
      }
    }
    if k == |steps| && w.applierFails.None? {
      assert puts[..m] == puts;
      assert steps[..k] == CONFIG_DIRS + (ws + [Invalidate]);
      CompleteApply(d, puts);
    }
  }

  lemma CompleteApply(d: Disk, puts: seq<Put>)
    ensures Exec(d, CONFIG_DIRS + (Writes(puts) + [Invalidate])) == Disk(Applied(d.root, puts), None, d.flag)
  {
    ExecDirs(d);
    ExecConcat(d, CONFIG_DIRS, Writes(puts) + [Invalidate]);
    ExecConcat(Exec(d, CONFIG_DIRS), Writes(puts), [Invalidate]);
    ExecWrites(Exec(d, CONFIG_DIRS), puts);
    var e := Exec(Exec(d, CONFIG_DIRS), Writes(puts));
    assert [Invalidate][..0] == [];
    assert Exec(e, [Invalidate]) == Do(e, Invalidate);
  }

  /** The boot applies the staged blob completely: its last configuration step, the invalidation, is reached. */
  predicate Completes(d: Disk, b: Boot, puts: seq<Put>) {
    && d.blob == Some(puts) && Configuring(d, b.world) && b.cut >= |ConfigSteps(d, b.world)|
    && Exec(d, ConfigSteps(d, b.world)) == Disk(Applied(d.root, puts), None, d.flag)
  }

  /** How far configuration gets, and the directories made behind it. */
  lemma SelectorParts(d: Disk, b: Boot) returns (k: nat, rest: seq<Step>)
    ensures k <= |ConfigSteps(d, b.world)| && (k == |ConfigSteps(d, b.world)| <==> b.cut >= |ConfigSteps(d, b.world)|)
    ensures forall i :: 0 <= i < |rest| ==> rest[i].Mkdir?
    ensures AfterSelector(d, b) == Exec(Exec(d, ConfigSteps(d, b.world)[..k]), rest)
  {
    hide Exec, DirectMount, Configuring, ConfigSteps;
    var config := ConfigSteps(d, b.world);
    k := if b.cut < |config| then b.cut else |config|;
    var dirs := if DirectMount(d, b.world) then MOUNT_DIRS else [];
    var l := if b.cut < |config| then 0 else if b.cut - |config| < |dirs| then b.cut - |config| else |dirs|;
    rest := dirs[..l];
    SelectorPrefix(d, b, config, dirs, k, l);
    ExecConcat(d, config[..k], rest);
  }

  /** A staged blob disappears in the selector only once the apply is complete; until then it is there unchanged. */
  lemma BlobSafety(d: Disk, b: Boot, puts: seq<Put>)
    requires d.blob == Some(puts)
    ensures AfterSelector(d, b).blob == Some(puts) || (AfterSelector(d, b).blob == None && Completes(d, b, puts))
  {
    hide Exec, Applied, DirectMount, Configuring;
    var config := ConfigSteps(d, b.world);
    var k, rest := SelectorParts(d, b);
    NothingToDo(d);
    if Configuring(d, b.world) {
      ConfigPrefix(d, b.world, puts, k);
    }
    assert config[..|config|] == config;
    DirsKeep(Exec(d, config[..k]), rest, []);
  }

  lemma SelectorPrefix(d: Disk, b: Boot, config: seq<Step>, rest: seq<Step>, k: nat, l: nat)
    requires Steps(d, b.world) == config + rest && k <= |config| && l <= |rest|
    requires k == (if b.cut < |config| then b.cut else |config|)
    requires l == if b.cut < |config| then 0 else if b.cut - |config| < |rest| then b.cut - |config| else |rest|
    ensures AfterSelector(d, b) == Exec(d, config[..k] + rest[..l])
  {
    hide Exec, ConfigSteps, DirectMount;
    var steps := config + rest;
    if b.cut < |steps| {
      assert steps[..b.cut] == config[..k] + rest[..l];
    } else {
      assert steps == config[..k] + rest[..l];
    }
  }

  /** Every path written holds the last value written to it. */
  ghost predicate Holds(r: Root, puts: seq<Put>) {
    forall p :: Touches(puts, p) ==> p in r && r[p] == LastValue(puts, p)
  }

  lemma {:induction false} DirsKeep(d: Disk, steps: seq<Step>, puts: seq<Put>)
    requires forall i :: 0 <= i < |steps| ==> steps[i].Mkdir?
    ensures Exec(d, steps).blob == d.blob
    ensures Holds(d.root, puts) ==> Holds(Exec(d, steps).root, puts)
  {
    hide LastValue, Touches;
    if steps != [] {
      DirsKeep(d, steps[..|steps| - 1], puts);
    }
  }

  lemma {:induction false} DirsOnlyAdd(d: Disk, steps: seq<Step>, p: nat)
    requires forall i :: 0 <= i < |steps| ==> steps[i].Mkdir?
    ensures p in d.root ==> p in Exec(d, steps).root && Exec(d, steps).root[p] == d.root[p]
  {
    if steps != [] {
      DirsOnlyAdd(d, steps[..|steps| - 1], p);
    }
  }

  lemma AppliedParts(r: Root, puts: seq<Put>)
    ensures DEV in Applied(r, puts) && PROC in Applied(r, puts) && SYS in Applied(r, puts)
    ensures forall p :: p in r && !Touches(puts, p) ==> p in Applied(r, puts) && Applied(r, puts)[p] == r[p]
  {
    hide PutAll, LastValue, Touches;
    PutAllLookup(ConfigDirs(r), puts, DEV);
    PutAllLookup(ConfigDirs(r), puts, PROC);
    PutAllLookup(ConfigDirs(r), puts, SYS);
    forall p | p in r && !Touches(puts, p) ensures p in Applied(r, puts) && Applied(r, puts)[p] == r[p] {
      PutAllLookup(ConfigDirs(r), puts, p);
    }
  }

  /**
    A staged blob is applied by the next boot that finds root and blob, can mount the root and keeps power for the
    changes, whatever the command line and the flag say: it is gone, every configured path holds its last value, the
    directories are there, and nothing else has changed.
   */
  lemma StagedIsApplied(d: Disk, b: Boot, puts: seq<Put>)
    requires d.blob == Some(puts) && b.world.rootAppears.Some? && b.world.rootAppears.value < 100
    requires b.world.cacheFound && b.world.configMounts && b.world.applierFails.None? && b.cut >= 4 + |puts|
    ensures var e := AfterSelector(d, b);
            && e.blob == None && e.flag == d.flag
            && (forall p :: Touches(puts, p) ==> p in e.root && e.root[p] == LastValue(puts, p))
            && 0 in e.root && 1 in e.root && 2 in e.root
            && (forall p :: p in d.root && !Touches(puts, p) ==> p in e.root && e.root[p] == d.root[p])
  {
    hide Exec, DirectMount, AfterSelector, PutAll, ConfigDirs, Touches, LastValue;
    var config := ConfigSteps(d, b.world);
    assert |config| == 4 + |puts|;
    var k, rest := SelectorParts(d, b);
    ConfigPrefix(d, b.world, puts, k);
    assert config[..|config|] == config;
    var c, e := Exec(d, config[..k]), AfterSelector(d, b);
    AppliedHolds(d.root, puts);
    AppliedParts(d.root, puts);
    DirsKeep(c, rest, puts);
    DirsFlag(c, rest);
    forall p | p in c.root ensures p in e.root && e.root[p] == c.root[p] {
      DirsOnlyAdd(c, rest, p);
    }
  }

  lemma {:induction false} DirsFlag(d: Disk, steps: seq<Step>)
    requires forall i :: 0 <= i < |steps| ==> steps[i].Mkdir?
    ensures Exec(d, steps).flag == d.flag
  {
    if steps != [] {
      DirsFlag(d, steps[..|steps| - 1]);
    }
  }

  /** A blob is staged and the root mounted for it, and cannot be unmounted again. */
  predicate StuckMount(d: Disk, w: World) {
    w.cacheFound && d.blob.Some? && w.configMounts && !w.configUnmounts
  }

  /** Where a boot ends that keeps power, and which directories it makes on the root, for each outcome of the mounts. */
  lemma Outcomes(d: Disk, w: World)
    ensures w.rootAppears.None? || w.rootAppears.value >= 100 ==> EndOf(d, w) == Rescue && Steps(d, w) == []
    ensures w.rootAppears.Some? && w.rootAppears.value < 100 && StuckMount(d, w) ==>
              EndOf(d, w) == Rescue && Steps(d, w) == ConfigSteps(d, w)
    ensures w.rootAppears.Some? && w.rootAppears.value < 100 && !StuckMount(d, w) ==>
              var four := [Mkdir(0), Mkdir(1), Mkdir(2), Mkdir(3)];
              var last := if |Steps(d, w)| >= 4 then Steps(d, w)[|Steps(d, w)| - 4..] else [];
              if Maintenance(d, w) then
                if w.rwMounts then last == four && EndOf(d, w) == (if w.switches then Direct else Rescue)
                else EndOf(d, w) == Rescue && Steps(d, w) == ConfigSteps(d, w)
              else if w.roMounts && w.tmpfsMounts && w.overlayMounts then
                EndOf(d, w) == (if w.switches then Overlay else Rescue) && Steps(d, w) == ConfigSteps(d, w)
              else if w.roMounts && w.fallbackMounts then
                last == four && EndOf(d, w) == (if w.switches then Direct else Rescue)
              else EndOf(d, w) == Rescue && Steps(d, w) == ConfigSteps(d, w)
  {
    hide ConfigSteps, CmdlineMode;
    var config := ConfigSteps(d, w);
    assert config + [] == config;
    assert (config + MOUNT_DIRS)[|config|..] == MOUNT_DIRS;
    NotConfiguring(d, w);
  }

  // ------------------------------------------------------------- runs with a staged blob

  /** The session stages nothing of its own. */
  predicate StagesNothing(ss: seq<SessionWrite>) {
    forall i :: 0 <= i < |ss| ==> !ss[i].Stage?
  }

  lemma {:induction false} SessionKeepsBlob(d: Disk, direct: bool, ss: seq<SessionWrite>)
    requires StagesNothing(ss)
    ensures Session(d, direct, ss).blob == d.blob
  {
    if ss != [] {
      SessionKeepsBlob(d, direct, ss[..|ss| - 1]);
    }
  }

  lemma SessionOf(d: Disk, b: Boot)
    requires StagesNothing(b.session)
    ensures AfterBoot(d, b).blob == AfterSelector(d, b).blob
  {
    hide AfterSelector, Ended, Session;
    SessionKeepsBlob(AfterSelector(d, b), true, b.session);
    SessionKeepsBlob(AfterSelector(d, b), false, b.session);
  }

  lemma NoBlobStays(d: Disk, b: Boot)
    requires d.blob == None
    ensures AfterSelector(d, b).blob == None
    ensures forall puts :: Holds(d.root, puts) ==> Holds(AfterSelector(d, b).root, puts)
  {
    hide Exec, DirectMount, AfterSelector, Holds;
    var k, rest := SelectorParts(d, b);
    NothingToDo(d);
    assert ConfigSteps(d, b.world) == [];
    forall puts | Holds(d.root, puts) ensures Holds(AfterSelector(d, b).root, puts) {
      DirsKeep(d, rest, puts);
    }
    DirsKeep(d, rest, []);
  }

  /**
    Across any boots, however they end: a staged blob is there unchanged until one of them has applied it completely,
    and then it is gone.
   */
  lemma {:induction false} StagedUntilApplied(d: Disk, bs: seq<Boot>, puts: seq<Put>)
    requires d.blob == Some(puts) && forall i :: 0 <= i < |bs| ==> StagesNothing(bs[i].session)
    ensures || Run(d, bs).blob == Some(puts)
            || (Run(d, bs).blob == None && exists i :: 0 <= i < |bs| && Completes(Run(d, bs[..i]), bs[i], puts))
  {
    hide AfterBoot, AfterSelector, Completes, StagesNothing;
    if bs != [] {
      var n := |bs| - 1;
      var init := bs[..n];
      StagedUntilApplied(d, init, puts);
      SessionOf(Run(d, init), bs[n]);
      if Run(d, init).blob == Some(puts) {
        BlobSafety(Run(d, init), bs[n], puts);
        assert Completes(Run(d, bs[..n]), bs[n], puts) || Run(d, bs).blob == Some(puts);
      } else {
        var i :| 0 <= i < n && Completes(Run(d, init[..i]), init[i], puts);
        assert init[..i] == bs[..i];
        assert Completes(Run(d, bs[..i]), bs[i], puts);
        NoBlobStays(Run(d, init), bs[n]);
      }
    }
  }

  /** The session stages nothing and leaves the configured paths alone. */
  predicate Respects(ss: seq<SessionWrite>, puts: seq<Put>) {
    StagesNothing(ss) && forall i :: 0 <= i < |ss| ==> ss[i].RootPut? ==> !Touches(puts, ss[i].put.path)
  }

  lemma {:induction false} SessionHolds(d: Disk, direct: bool, ss: seq<SessionWrite>, puts: seq<Put>)
    requires Respects(ss, puts) && Holds(d.root, puts)
    ensures Holds(Session(d, direct, ss).root, puts)
  {
    hide Touches, LastValue;
    if ss != [] {
      SessionHolds(d, direct, ss[..|ss| - 1], puts);
    }
  }

  lemma SelectorHolds(d: Disk, b: Boot, puts: seq<Put>)
    requires Completes(d, b, puts)
    ensures AfterSelector(d, b).blob == None ==> Holds(AfterSelector(d, b).root, puts)
  {
    hide Exec, DirectMount, Configuring, AfterSelector, Holds, PutAll, ConfigDirs;
    var config := ConfigSteps(d, b.world);
    var k, rest := SelectorParts(d, b);
    assert config[..|config|] == config;
    ConfigPrefix(d, b.world, puts, k);
    DirsKeep(Exec(d, config[..k]), rest, puts);
    AppliedHolds(d.root, puts);
  }

  lemma AppliedHolds(r: Root, puts: seq<Put>)
    ensures Holds(Applied(r, puts), puts)
  {
    hide PutAll, LastValue;
    forall p | Touches(puts, p) ensures p in Applied(r, puts) && Applied(r, puts)[p] == LastValue(puts, p) {
      PutAllLookup(ConfigDirs(r), puts, p);
    }
  }

  /**
    Nothing half-configured is taken for configured: across any boots, directly mounted roots and power cuts included,
    the blob is either still staged, or every configured path holds its last value, as long as no session writes there.
   */
  lemma {:induction false} ConfiguredOrStaged(d: Disk, bs: seq<Boot>, puts: seq<Put>)
    requires d.blob == Some(puts) && forall i :: 0 <= i < |bs| ==> Respects(bs[i].session, puts)
    ensures Run(d, bs).blob == Some(puts) || (Run(d, bs).blob == None && Holds(Run(d, bs).root, puts))
  {
    hide Respects, Holds, AfterSelector, StagesNothing, Completes, Session, Ended;
    if bs != [] {
      var n := |bs| - 1;
      var init, b := bs[..n], bs[n];
      var before := Run(d, init);
      ConfiguredOrStaged(d, init, puts);
      assert StagesNothing(b.session) by { RespectsStages(b.session, puts); }
      SessionOf(before, b);
      if before.blob == Some(puts) {
        BlobSafety(before, b, puts);
        if AfterSelector(before, b).blob == None {
          SelectorHolds(before, b, puts);
        }
      } else {
        NoBlobStays(before, b);
      }
      if Holds(AfterSelector(before, b).root, puts) {
        SessionHolds(AfterSelector(before, b), true, b.session, puts);
        SessionHolds(AfterSelector(before, b), false, b.session, puts);
      }
    }
  }

  lemma RespectsStages(ss: seq<SessionWrite>, puts: seq<Put>)
    requires Respects(ss, puts)
    ensures StagesNothing(ss)
  {
  }

  // ------------------------------------------------------------- atomicity of configuration

  /** The boot does not reach a directly mounted root and its session leaves the blob alone. */
  predicate Quiet(d: Disk, b: Boot) {
    !DirectMount(d, b.world) && StagesNothing(b.session)
  }

  /** Either the blob is staged and would lead to the goal, or it is gone and the goal is reached. */
  predicate OnTheWay(d: Disk, puts: seq<Put>, goal: Root) {
    (d.blob == Some(puts) && Applied(d.root, puts) == goal) || (d.blob == None && d.root == goal)
  }

  lemma QuietBoot(d: Disk, b: Boot, puts: seq<Put>, goal: Root)
    requires OnTheWay(d, puts, goal) && Quiet(d, b)
    ensures OnTheWay(AfterBoot(d, b), puts, goal)
  {
    hide Exec, Applied, ConfigSteps, Configuring;
    var config := ConfigSteps(d, b.world);
    assert Steps(d, b.world) == config by { assert config + [] == config; }
    assert config[..|config|] == config;
    var e := AfterSelector(d, b);
    var k := if b.cut < |config| then b.cut else |config|;
    assert e == Exec(d, config[..k]);
    NothingToDo(d);
    if Configuring(d, b.world) {
      HasBlob(d, b.world);
      ConfigPrefix(d, b.world, puts, k);
    } else {
      assert config == [] by { NotConfiguring(d, b.world); }
    }
    assert OnTheWay(e, puts, goal);
    SessionKeepsBlob(e, false, b.session);
    OverlaySessionKeepsRoot(e, b.session);
    assert Ended(d, b) != Direct by { NotDirect(d, b); }
  }

  lemma HasBlob(d: Disk, w: World)
    ensures Configuring(d, w) ==> d.blob.Some?
  {
  }

  lemma NotConfiguring(d: Disk, w: World)
    ensures !Configuring(d, w) ==> ConfigSteps(d, w) == []
  {
  }

  lemma NotDirect(d: Disk, b: Boot)
    requires !DirectMount(d, b.world)
    ensures Ended(d, b) != Direct
  {
  }

  /**
    Configuration is atomic across any run of quiet boots: however often power is cut or the applier fails on the way,
    either the blob is still staged and applying it gives what it would have given at first, or it is gone and the root
    is exactly what one undisturbed apply gives.
   */
  lemma {:induction false} ConfigIsAtomic(d: Disk, bs: seq<Boot>, puts: seq<Put>)
    requires d.blob == Some(puts)
    requires forall i :: 0 <= i < |bs| ==> Quiet(Run(d, bs[..i]), bs[i])
    ensures OnTheWay(Run(d, bs), puts, Applied(d.root, puts))
  {
    hide AfterBoot, Quiet, Applied;
    if bs != [] {
      var n := |bs| - 1;
      var init := bs[..n];
      forall i | 0 <= i < n ensures Quiet(Run(d, init[..i]), init[i]) {
        assert init[..i] == bs[..i];
      }
      ConfigIsAtomic(d, init, puts);
      assert Quiet(Run(d, bs[..n]), bs[n]);
      QuietBoot(Run(d, init), bs[n], puts, Applied(d.root, puts));
    }
  }
}

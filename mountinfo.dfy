/** The device-to-mount-point maps the two servers build from
    /proc/self/mountinfo and hand to the unnamed-device synchronisation:
    `partition::update` (src/server/backend/partition.cpp), which scans each
    line with `sscanf`, and `mount_manager::update`
    (src/server/src/core/mount_manager.cpp), which splits each line at
    spaces. The `sscanf` scan is libc and is given line by line as its
    result; the split uses the server's own `split`. */
module MountInfo {
  import opened Common
  import StringHelper
  import DevNumbers
  import MountTable
  import VfsSysfs
  import UnnamedSync

  /** What both updates take from one line. */
  datatype LineInfo = LineInfo(major: bv32, minor: bv32, minorText: string, root: string, target: string, fsType: string)

  /** The map key `MKDEV(major, minor)`, as the value of the `unsigned int`. */
  function Key(info: LineInfo): nat
  {
    DevNumbers.Mkdev8(info.major, info.minor) as nat
  }

  /** A line is recorded when its file system is listed (not virtual, or
      dlnfs) and it mounts the root of that file system. */
  predicate Recorded(info: LineInfo)
  {
    (info.major != 0 || info.fsType == MountTable.DLNFS) && info.root == "/"
  }

  /** A recorded dlnfs line, whose minor goes to the kernel. */
  predicate Dlnfs(info: LineInfo)
  {
    info.root == "/" && info.major == 0 && info.fsType == MountTable.DLNFS
  }

  /** The minors of the dlnfs lines, as text. */
  function DlnfsMinors(infos: seq<LineInfo>): (r: set<string>)
  {
    if infos == [] then {}
    else
      var info := infos[|infos| - 1];
      DlnfsMinors(infos[..|infos| - 1]) + if Dlnfs(info) then {info.minorText} else {}
  }

  /** A minor is sent exactly when some dlnfs line has it. */
  lemma {:induction false} DlnfsMinorsExact(infos: seq<LineInfo>, t: string)
    ensures t in DlnfsMinors(infos) <==> exists k :: 0 <= k < |infos| && Dlnfs(infos[k]) && infos[k].minorText == t
  {
    if infos != [] {
      var front := infos[..|infos| - 1];
      DlnfsMinorsExact(front, t);
      assert forall k :: 0 <= k < |front| ==> front[k] == infos[k];
      assert infos == front + [infos[|infos| - 1]];
    }
  }

  lemma DlnfsMinorsSnoc(infos: seq<LineInfo>, info: LineInfo)
    ensures DlnfsMinors(infos + [info]) == DlnfsMinors(infos) + if Dlnfs(info) then {info.minorText} else {}
  {
    assert (infos + [info])[..|infos|] == infos;
  }

  // partition::update

  /** The five fields `sscanf` assigns from a line. */
  datatype Scan = Scan(major: bv32, minor: bv32, root: string, target: string, fsType: string)

  /** A scanned line; the minor is written back in decimal by `setNum`. */
  function InfoOfScan(sc: Scan): LineInfo
  {
    LineInfo(sc.major, sc.minor, Decimal(sc.minor as nat), sc.root, sc.target, sc.fsType)
  }

  /** The part of the scan results the loop reads: up to the first line
      that did not yield five fields. */
  function Scanned(scans: seq<Option<Scan>>): (n: nat)
    ensures n <= |scans| && forall k :: 0 <= k < n ==> scans[k].Some?
    ensures n < |scans| ==> scans[n].None?
  {
    if scans == [] || scans[0].None? then 0 else Scanned(scans[1..]) + 1
  }

  /** The map `partition::update` builds: `insert` replaces, so the last
      recorded line for a key wins. */
  function Partitions(infos: seq<LineInfo>): (m: map<nat, string>)
  {
    if infos == [] then map[]
    else
      var m := Partitions(infos[..|infos| - 1]);
      var info := infos[|infos| - 1];
      if Recorded(info) then m[Key(info) := info.target] else m
  }

  /** The scanned lines before the first failure. */
  function Values(scans: seq<Option<Scan>>): (r: seq<LineInfo>)
    requires forall k :: 0 <= k < |scans| ==> scans[k].Some?
    ensures |r| == |scans|
  {
    if scans == [] then [] else Values(scans[..|scans| - 1]) + [InfoOfScan(scans[|scans| - 1].value)]
  }

  lemma PartitionsSnoc(infos: seq<LineInfo>, info: LineInfo)
    ensures Partitions(infos + [info]) == if Recorded(info) then Partitions(infos)[Key(info) := info.target] else Partitions(infos)
  {
    assert (infos + [info])[..|infos|] == infos;
  }

  lemma ValuesSnoc(scans: seq<Option<Scan>>, i: nat)
    requires i < |scans| && forall k :: 0 <= k <= i ==> scans[k].Some?
    ensures Values(scans[..i + 1]) == Values(scans[..i]) + [InfoOfScan(scans[i].value)]
  {
    assert scans[..i + 1][..i] == scans[..i];
  }

  /** A key is in the map exactly when some recorded line has it. */
  lemma {:induction false} PartitionsKeys(infos: seq<LineInfo>, key: nat)
    ensures key in Partitions(infos) <==> exists k :: 0 <= k < |infos| && Recorded(infos[k]) && Key(infos[k]) == key
  {
    if infos != [] {
      var front := infos[..|infos| - 1];
      PartitionsKeys(front, key);
      assert forall k :: 0 <= k < |front| ==> front[k] == infos[k];
      assert infos == front + [infos[|infos| - 1]];
    }
  }

  /** Each key maps to the mount point of the last recorded line with it. */
  lemma {:induction false} PartitionsLast(infos: seq<LineInfo>, k: nat)
    requires k < |infos| && Recorded(infos[k])
    requires forall j :: k < j < |infos| ==> !(Recorded(infos[j]) && Key(infos[j]) == Key(infos[k]))
    ensures Key(infos[k]) in Partitions(infos) && Partitions(infos)[Key(infos[k])] == infos[k].target
  {
    var front := infos[..|infos| - 1];
    assert infos == front + [infos[|infos| - 1]];
    PartitionsSnoc(front, infos[|infos| - 1]);
    if k == |infos| - 1 {
      assert Partitions(infos) == Partitions(front)[Key(infos[k]) := infos[k].target];
    } else {
      assert forall j :: 0 <= j < |front| ==> front[j] == infos[j];
      PartitionsLast(front, k);
      assert front[k] == infos[k];
      var last := infos[|infos| - 1];
      if Recorded(last) {
        var pf, key := Partitions(front), Key(infos[k]);
        assert Key(last) != key;
        assert Partitions(infos) == pf[Key(last) := last.target];
        assert pf[Key(last) := last.target][key] == pf[key];
      } else {
        assert Partitions(infos) == Partitions(front);
      }
    }
  }

  /** The loop of `partition::update` over the scan results: it stops at
      the first line that did not yield five fields. */
  method ScanPartitions(scans: seq<Option<Scan>>) returns (m: map<nat, string>, news: set<string>)
    ensures m == Partitions(Values(scans[..Scanned(scans)]))
    ensures news == DlnfsMinors(Values(scans[..Scanned(scans)]))
  {
    var n := Scanned(scans);
    m, news := map[], {};
    ghost var seen: seq<LineInfo> := [];
    var i := 0;
    while i < |scans| && scans[i].Some?
      invariant i <= n && seen == Values(scans[..i])
      invariant m == Partitions(seen) && news == DlnfsMinors(seen)
    {
      var sc := scans[i].value;
      ghost var info := InfoOfScan(sc);
      ValuesSnoc(scans, i);
      DlnfsMinorsSnoc(seen, info);
      PartitionsSnoc(seen, info);
      if !(sc.major == 0 && sc.fsType != MountTable.DLNFS) && sc.root == "/" {
        m := m[DevNumbers.Mkdev8(sc.major, sc.minor) as nat := sc.target];
        if sc.major == 0 && sc.fsType == MountTable.DLNFS {
          news := news + {Decimal(sc.minor as nat)};
        }
      }
      seen := seen + [info];
      i := i + 1;
    }
    assert i == n;
  }

  /** The backend's partition table. */
  class Partition {
    var partitions: map<nat, string>

    constructor ()
      ensures partitions == map[]
    {
      partitions := map[];
    }

    /** `partition::update`: `mountinfoOpen` says whether /proc/self/mountinfo
        could be read, `scans` is the `sscanf` result for each line. The
        map is rebuilt from scratch, then the dlnfs minors are synchronised
        with the kernel. */
    method Update(mountinfoOpen: bool, scans: seq<Option<Scan>>, dev: VfsSysfs.UnnamedDevices, readable: bool, failed: set<nat>)
      returns (ok: bool, ghost removed: seq<string>, ghost added: seq<string>)
      requires dev.Valid()
      modifies this, dev.flags
      ensures dev.Valid()
      ensures !mountinfoOpen ==> !ok && partitions == old(partitions) && dev.flags[..] == old(dev.flags[..])
      ensures mountinfoOpen ==> partitions == Partitions(Values(scans[..Scanned(scans)]))
      ensures mountinfoOpen && !readable ==> !ok && dev.flags[..] == old(dev.flags[..])
      ensures mountinfoOpen && readable ==>
        var olds := UnnamedSync.ReadChopped(VfsSysfs.ShowSpec(old(dev.flags[..])));
        var news := DlnfsMinors(Values(scans[..Scanned(scans)]));
        UnnamedSync.Stopped(old(dev.flags[..]), dev.flags[..], olds, news, failed, ok, removed, added, true)
    {
      removed, added := [], [];
      if !mountinfoOpen {
        return false, removed, added;
      }
      var m, news := ScanPartitions(scans);
      partitions := m;
      var r, a;
      ok, r, a := UnnamedSync.PartitionUpdate(dev, news, readable, failed);
      removed, added := r, a;
    }
  }

  // mount_manager::update

  /** Decimal digits, as `std::stoul` reads them whole. */
  predicate Digits(s: string)
  {
    s != [] && forall i :: 0 <= i < |s| ==> IsDigit(s[i])
  }

  /** The index of the first "-" field from `from` on. */
  function SeparatorFrom(f: seq<string>, from: nat): (r: Option<nat>)
    ensures r.Some? ==> from <= r.value < |f| && f[r.value] == "-"
    ensures r.Some? ==> forall j :: from <= j < r.value ==> f[j] != "-"
    decreases |f| - from
  {
    if from >= |f| then None else if f[from] == "-" then Some(from) else SeparatorFrom(f, from + 1)
  }

  /** A line as the kernel prints it: at least ten fields, "major:minor" in
      decimal third, and the "-" that ends the optional fields somewhere
      from the seventh field on, with the file system type after it. */
  predicate WellFormed(line: string)
  {
    var f := StringHelper.SplitSpec(line, " ");
    |f| >= 10 &&
    (var mm := StringHelper.SplitSpec(f[2], ":"); |mm| >= 2 && Digits(mm[0]) && Digits(mm[1])) &&
    var sep := SeparatorFrom(f, 6); sep.Some? && sep.value + 1 < |f|
  }

  /** The file system type: the field right after the separator. */
  function TypeField(f: seq<string>): (r: string)
    requires SeparatorFrom(f, 6).Some? && SeparatorFrom(f, 6).value + 1 < |f|
  {
    f[SeparatorFrom(f, 6).value + 1]
  }

  /** The type as the code reads it: always the tenth field
      (`mountinfo_field::file_system_type` is 9). */
  function TypeFieldAsWritten(f: seq<string>): (r: string)
    requires |f| >= 10
    ensures SeparatorFrom(f, 6) == Some(8) ==> r == TypeField(f)
    ensures SeparatorFrom(f, 6) == Some(9) ==> r == "-"
  {
    f[9]
  }

  /** What `update` takes from a well-formed line; `stoul` reads an
      `unsigned long` that is then cut to an `unsigned int`. */
  function InfoOf(line: string): (info: LineInfo)
    requires WellFormed(line)
    ensures info.root == StringHelper.SplitSpec(line, " ")[3] && info.target == StringHelper.SplitSpec(line, " ")[4]
  {
    var f := StringHelper.SplitSpec(line, " ");
    var mm := StringHelper.SplitSpec(f[2], ":");
    LineInfo(Wrap32(DecimalValue(mm[0])) as bv32, Wrap32(DecimalValue(mm[1])) as bv32, mm[1], f[3], f[4], TypeField(f))
  }

  /** The parse of each line. */
  function Infos(lines: seq<string>): (r: seq<LineInfo>)
    requires forall k :: 0 <= k < |lines| ==> WellFormed(lines[k])
    ensures |r| == |lines|
  {
    if lines == [] then [] else Infos(lines[..|lines| - 1]) + [InfoOf(lines[|lines| - 1])]
  }

  /** `mounts_` after `update`: `emplace` leaves an existing key alone and
      the map is never cleared. */
  function Mounts(mounts: map<nat, string>, infos: seq<LineInfo>): (m: map<nat, string>)
  {
    if infos == [] then mounts
    else
      var m := Mounts(mounts, infos[..|infos| - 1]);
      var info := infos[|infos| - 1];
      if Recorded(info) && Key(info) !in m then m[Key(info) := info.target] else m
  }

  lemma MountsSnoc(mounts: map<nat, string>, infos: seq<LineInfo>, info: LineInfo)
    ensures Mounts(mounts, infos + [info]) ==
      var m := Mounts(mounts, infos); if Recorded(info) && Key(info) !in m then m[Key(info) := info.target] else m
  {
    assert (infos + [info])[..|infos|] == infos;
  }

  lemma InfosSnoc(ls: seq<string>, i: nat)
    requires i < |ls| && forall k :: 0 <= k < |ls| ==> WellFormed(ls[k])
    ensures Infos(ls[..i + 1]) == Infos(ls[..i]) + [InfoOf(ls[i])]
  {
    assert ls[..i + 1][..i] == ls[..i];
  }

  /** Every old mapping survives unchanged. */
  lemma {:induction false} MountsKeep(mounts: map<nat, string>, infos: seq<LineInfo>, key: nat)
    requires key in mounts
    ensures key in Mounts(mounts, infos) && Mounts(mounts, infos)[key] == mounts[key]
  {
    if infos != [] {
      var front := infos[..|infos| - 1];
      MountsKeep(mounts, front, key);
      var last := infos[|infos| - 1];
      assert infos == front + [last];
      MountsSnoc(mounts, front, last);
      var m := Mounts(mounts, front);
      if Recorded(last) && Key(last) !in m {
        assert Key(last) != key;
        assert Mounts(mounts, infos) == m[Key(last) := last.target];
        assert m[Key(last) := last.target][key] == m[key];
      } else {
        assert Mounts(mounts, infos) == m;
      }
    }
  }

  /** A key is in the new map exactly when it was in the old one or some
      recorded line has it. */
  lemma {:induction false} MountsKeys(mounts: map<nat, string>, infos: seq<LineInfo>, key: nat)
    ensures key in Mounts(mounts, infos) <==> key in mounts || exists k :: 0 <= k < |infos| && Recorded(infos[k]) && Key(infos[k]) == key
  {
    if infos != [] {
      var front := infos[..|infos| - 1];
      MountsKeys(mounts, front, key);
      assert forall k :: 0 <= k < |front| ==> front[k] == infos[k];
      assert infos == front + [infos[|infos| - 1]];
      MountsSnoc(mounts, front, infos[|infos| - 1]);
    }
  }

  /** The fields of one line, as `update` splits it. */
  method ParseLine(line: string) returns (info: LineInfo)
    requires WellFormed(line)
    ensures info == InfoOf(line)
  {
    var f := StringHelper.Split(line, " ");
    var mm := StringHelper.Split(f[2], ":");
    var major := Wrap32(DecimalValue(mm[0])) as bv32;
    var minor := Wrap32(DecimalValue(mm[1])) as bv32;
    info := LineInfo(major, minor, mm[1], f[3], f[4], TypeField(f));
  }

  /** The server's mount manager. */
  class MountManager {
    var mounts: map<nat, string>
    var mountPoints: seq<MountTable.MountPoint>

    /** Built with a first `update_mount_points`. */
    constructor (table: Option<seq<MountTable.MntFs>>)
      ensures mounts == map[]
      ensures mountPoints == if table.Some? then MountTable.Kept(table.value) else []
    {
      var list: seq<MountTable.MountPoint> := [];
      if table.Some? {
        list := MountTable.FilterMounts(table.value);
      }
      mounts := map[];
      mountPoints := list;
    }

    /** `contains_device`. */
    function ContainsDevice(key: nat): (b: bool)
      reads this
      ensures b <==> key in mounts
    {
      key in mounts
    }

    /** `get_mount_point`: `at` throws on a missing key, so callers ask
        only for known devices. */
    function GetMountPoint(key: nat): (r: string)
      reads this
      requires key in mounts
      ensures r == mounts[key]
    {
      mounts[key]
    }

    /** `update_mount_points`: the list is replaced only after a
        successful parse. */
    method UpdateMountPoints(table: Option<seq<MountTable.MntFs>>) returns (ok: bool)
      modifies this
      ensures ok == table.Some? && mounts == old(mounts)
      ensures mountPoints == if table.Some? then MountTable.Kept(table.value) else old(mountPoints)
    {
      if table.None? {
        return false;
      }
      mountPoints := MountTable.FilterMounts(table.value);
      return true;
    }

    /** `update`: `lines` is /proc/self/mountinfo, `None` when it cannot be
        opened. Recorded lines are added to the map, then the dlnfs minors
        are synchronised with the kernel (with the corrected blank-line
        read). */
    method Update(lines: Option<seq<string>>, dev: VfsSysfs.UnnamedDevices, readable: bool, failed: set<nat>)
      returns (ok: bool, ghost removed: seq<string>, ghost added: seq<string>)
      requires lines.Some? ==> forall k :: 0 <= k < |lines.value| ==> WellFormed(lines.value[k])
      requires dev.Valid()
      modifies this, dev.flags
      ensures dev.Valid() && mountPoints == old(mountPoints)
      ensures lines.None? ==> !ok && mounts == old(mounts) && dev.flags[..] == old(dev.flags[..])
      ensures lines.Some? ==> mounts == Mounts(old(mounts), Infos(lines.value))
      ensures lines.Some? && !readable ==> !ok && dev.flags[..] == old(dev.flags[..])
      ensures lines.Some? && readable ==>
        var olds := UnnamedSync.ReadBlankEmpty(VfsSysfs.ShowSpec(old(dev.flags[..])));
        UnnamedSync.Stopped(old(dev.flags[..]), dev.flags[..], olds, DlnfsMinors(Infos(lines.value)), failed, ok, removed, added, false)
    {
      removed, added := [], [];
      if lines.None? {
        return false, removed, added;
      }
      var m, news := RecordMounts(mounts, lines.value);
      mounts := m;
      var r, a;
      ok, r, a := UnnamedSync.MountManagerUpdate(dev, news, readable, failed);
      removed, added := r, a;
    }
  }

  /** The line loop of `mount_manager::update`. */
  method RecordMounts(mounts: map<nat, string>, ls: seq<string>) returns (m: map<nat, string>, news: set<string>)
    requires forall k :: 0 <= k < |ls| ==> WellFormed(ls[k])
    ensures m == Mounts(mounts, Infos(ls)) && news == DlnfsMinors(Infos(ls))
  {
    m, news := mounts, {};
    ghost var seen: seq<LineInfo> := [];
    for i := 0 to |ls|
      invariant seen == Infos(ls[..i])
      invariant m == Mounts(mounts, seen) && news == DlnfsMinors(seen)
    {
      InfosSnoc(ls, i);
      m, news := RecordLine(mounts, seen, m, news, ls[i]);
      seen := seen + [InfoOf(ls[i])];
    }
    assert ls[..|ls|] == ls;
  }

  /** One line of the loop: a recorded line is added unless its key is
      already mapped, and a dlnfs line's minor is collected. */
  method RecordLine(mounts: map<nat, string>, ghost seen: seq<LineInfo>, m: map<nat, string>, news: set<string>, line: string)
    returns (m': map<nat, string>, news': set<string>)
    requires WellFormed(line) && m == Mounts(mounts, seen) && news == DlnfsMinors(seen)
    ensures m' == Mounts(mounts, seen + [InfoOf(line)]) && news' == DlnfsMinors(seen + [InfoOf(line)])
  {
    var info := ParseLine(line);
    DlnfsMinorsSnoc(seen, info);
    MountsSnoc(mounts, seen, info);
    m', news' := m, news;
    if !(info.major == 0 && info.fsType != MountTable.DLNFS) && info.root == "/" {
      if Key(info) !in m {
        m' := m[Key(info) := info.target];
      }
      if info.major == 0 && info.fsType == MountTable.DLNFS {
        news' := news + {info.minorText};
      }
    }
  }

  /** The code as written reads the type from the tenth field, which is the
      type only when a line has exactly two optional fields. On a dlnfs
      mount with the single optional field "shared:236" the tenth field is
      the source, so the line is taken for a virtual file system and
      skipped, although the field after the separator is "fuse.dlnfs". */
  lemma TenthFieldMissesDlnfs()
    ensures var f := ["36", "35", "0:52", "/", "/media/u/disk", "rw,relatime", "shared:236", "-", "fuse.dlnfs", "/dev/sdb1", "rw"];
      SeparatorFrom(f, 6) == Some(7) &&
      !MountTable.Listed(0, TypeFieldAsWritten(f)) && MountTable.Listed(0, TypeField(f))
  {
    var f := ["36", "35", "0:52", "/", "/media/u/disk", "rw,relatime", "shared:236", "-", "fuse.dlnfs", "/dev/sdb1", "rw"];
    assert f[6] != "-";
    assert SeparatorFrom(f, 7) == Some(7);
  }

  /** Any well-formed line with a two-field optional part reads the same
      either way, so the fix only changes lines the code misreads. */
  lemma TypeFieldAgrees(f: seq<string>)
    requires |f| >= 10 && f[6] != "-" && f[7] != "-" && f[8] == "-"
    ensures SeparatorFrom(f, 6) == Some(8) && TypeField(f) == TypeFieldAsWritten(f)
  {
    assert SeparatorFrom(f, 8) == Some(8);
  }
}

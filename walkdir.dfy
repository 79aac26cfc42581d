/** The partition table of the index builder: reading the mounted
    partitions, sorting them by mount point, finding the partition of a path
    and deciding which paths a walk of one partition skips. */
module Walkdir {
  import opened Common
  import KernelPaths

  /** `is_special_mount_point`: /sys and /proc always; /dev and /run unless
      the file system is tmpfs. */
  predicate IsSpecialMountPoint(mp: string, fsType: string)
  {
    (KernelPaths.MountedAt(mp, "/sys") || KernelPaths.MountedAt(mp, "/proc"))
    || ((KernelPaths.MountedAt(mp, "/dev") || KernelPaths.MountedAt(mp, "/run")) && fsType != "tmpfs")
  }

  /** Under /sys or /proc a path is special whatever its file system; under
      /dev or /run exactly when it is not a tmpfs. */
  lemma SpecialMountPoints(rest: string, fsType: string)
    ensures IsSpecialMountPoint("/sys/" + rest, fsType) && IsSpecialMountPoint("/proc/" + rest, fsType)
    ensures IsSpecialMountPoint("/dev/" + rest, fsType) <==> fsType != "tmpfs"
    ensures IsSpecialMountPoint("/run/" + rest, fsType) <==> fsType != "tmpfs"
  {
    KernelPaths.SubPath("/sys", rest);
    KernelPaths.SubPath("/proc", rest);
    KernelPaths.SubPath("/dev", rest);
    KernelPaths.SubPath("/run", rest);
    assert ("/dev/" + rest)[1] == 'd' && ("/run/" + rest)[1] == 'r';
  }

  /* `strcmp`, the order of `compare_partition`. */

  /** The sign of `strcmp(a, b)`. */
  function StrCmp(a: string, b: string): (r: int)
    ensures -1 <= r <= 1
    ensures r == 0 <==> a == b
  {
    if a == [] then (if b == [] then 0 else -1)
    else if b == [] then 1
    else if a[0] < b[0] then -1
    else if a[0] > b[0] then 1
    else
      var r := StrCmp(a[1..], b[1..]);
      assert a == [a[0]] + a[1..] && b == [b[0]] + b[1..];
      r
  }

  /** Exchanging the arguments flips the sign. */
  lemma {:induction false} StrCmpFlip(a: string, b: string)
    ensures StrCmp(b, a) == -StrCmp(a, b)
    decreases |a|
  {
    if a != [] && b != [] && a[0] == b[0] {
      StrCmpFlip(a[1..], b[1..]);
    }
  }

  /** The order is transitive. */
  lemma {:induction false} StrCmpTrans(a: string, b: string, c: string)
    requires StrCmp(a, b) <= 0 && StrCmp(b, c) <= 0
    ensures StrCmp(a, c) <= 0
    decreases |a|
  {
    if a != [] && b != [] && c != [] && a[0] == b[0] == c[0] {
      StrCmpTrans(a[1..], b[1..], c[1..]);
    }
  }

  /** A prefix of a string sorts before it. */
  lemma {:induction false} PrefixSortsFirst(a: string, b: string)
    requires IsPrefix(a, b)
    ensures StrCmp(a, b) <= 0
    decreases |a|
  {
    if a != [] {
      assert a[0] == b[0] && b[1..][..|a| - 1] == a[1..];
      PrefixSortsFirst(a[1..], b[1..]);
    }
  }

  /** A `/proc/mounts` line as `fscanf` reads it. */
  datatype MountEntry = MountEntry(dev: string, mp: string, fsType: string)

  /** The device number `stat` gives for a mount point. */
  datatype DevNo = DevNo(major: int, minor: int)

  /** A `partition`. */
  datatype Partition = Partition(major: int, minor: int, dev: string, mountPoint: string, fsType: string)

  /** The partitions of the table, in its order: every line up to the first
      that does not give three fields, except the special mount points and
      those `stat` cannot find. */
  function Collected(lines: seq<Option<MountEntry>>, stat: string -> Option<DevNo>): (r: seq<Partition>)
    ensures |r| <= |lines|
    ensures forall k :: 0 <= k < |r| ==> !IsSpecialMountPoint(r[k].mountPoint, r[k].fsType)
    ensures forall k :: 0 <= k < |r| ==> stat(r[k].mountPoint) == Some(DevNo(r[k].major, r[k].minor))
  {
    if lines == [] || lines[0].None? then []
    else
      var e := lines[0].value;
      Entry(e, stat) + Collected(lines[1..], stat)
  }

  /** Sorted by mount point under `strcmp`. */
  predicate Sorted(ps: seq<Partition>)
  {
    forall i, j :: 0 <= i < j < |ps| ==> StrCmp(ps[i].mountPoint, ps[j].mountPoint) <= 0
  }

  /** `p` inserted before the first partition it does not sort after. */
  function Insert(p: Partition, ps: seq<Partition>): (r: seq<Partition>)
    ensures multiset(r) == multiset(ps) + multiset{p}
  {
    if ps == [] then [p]
    else if StrCmp(p.mountPoint, ps[0].mountPoint) <= 0 then [p] + ps
    else
      assert ps == [ps[0]] + ps[1..];
      [ps[0]] + Insert(p, ps[1..])
  }

  lemma {:induction false} InsertSorted(p: Partition, ps: seq<Partition>)
    requires Sorted(ps)
    ensures Sorted(Insert(p, ps))
    decreases |ps|
  {
    if ps != [] {
      var m := p.mountPoint;
      if StrCmp(m, ps[0].mountPoint) <= 0 {
        forall j | 0 < j < |ps| ensures StrCmp(m, ps[j].mountPoint) <= 0 {
          StrCmpTrans(m, ps[0].mountPoint, ps[j].mountPoint);
        }
      } else {
        StrCmpFlip(m, ps[0].mountPoint);
        InsertSorted(p, ps[1..]);
        var r := Insert(p, ps[1..]);
        forall j | 0 <= j < |r| ensures StrCmp(ps[0].mountPoint, r[j].mountPoint) <= 0 {
          assert r[j] in multiset(ps[1..]) + multiset{p};
          if r[j] != p {
            var k :| 0 <= k < |ps[1..]| && ps[1..][k] == r[j];
            assert ps[k + 1] == r[j];
          }
        }
      }
    }
  }

  /** The model of `qsort` with `compare_partition`. */
  function SortParts(ps: seq<Partition>): (r: seq<Partition>)
    ensures multiset(r) == multiset(ps)
  {
    if ps == [] then []
    else
      assert ps == [ps[0]] + ps[1..];
      Insert(ps[0], SortParts(ps[1..]))
  }

  lemma {:induction false} SortPartsSorted(ps: seq<Partition>)
    ensures Sorted(SortParts(ps))
    decreases |ps|
  {
    if ps != [] {
      SortPartsSorted(ps[1..]);
      InsertSorted(ps[0], SortParts(ps[1..]));
    }
  }

  /** The partition one mount-table line yields, if any. */
  function Entry(e: MountEntry, stat: string -> Option<DevNo>): seq<Partition>
  {
    if IsSpecialMountPoint(e.mp, e.fsType) || stat(e.mp).None? then []
    else [Partition(stat(e.mp).value.major, stat(e.mp).value.minor, e.dev, e.mp, e.fsType)]
  }

  lemma CollectedStep(lines: seq<Option<MountEntry>>, i: nat, stat: string -> Option<DevNo>)
    requires i < |lines| && lines[i].Some?
    ensures Collected(lines[i..], stat) == Entry(lines[i].value, stat) + Collected(lines[i + 1..], stat)
  {
    assert lines[i..][1..] == lines[i + 1..];
  }

  /** One pass of the `fscanf` loop: special mount points and those `stat`
      fails on are skipped, anything else becomes a partition. */
  method LineEntry(e: MountEntry, stat: string -> Option<DevNo>) returns (add: seq<Partition>)
    ensures add == Entry(e, stat)
  {
    if IsSpecialMountPoint(e.mp, e.fsType) {
      return [];
    }
    var st := stat(e.mp);
    if st.None? {
      return [];
    }
    add := [Partition(st.value.major, st.value.minor, e.dev, e.mp, e.fsType)];
  }

  /** The `fscanf` loop of `get_partitions`. */
  method Collect(lines: seq<Option<MountEntry>>, stat: string -> Option<DevNo>) returns (parts: seq<Partition>)
    ensures parts == Collected(lines, stat)
  {
    parts := [];
    var i := 0;
    while i < |lines| && lines[i].Some?
      invariant 0 <= i <= |lines|
      invariant Collected(lines, stat) == parts + Collected(lines[i..], stat)
      decreases |lines| - i
    {
      var e := lines[i].value;
      CollectedStep(lines, i, stat);
      var add := LineEntry(e, stat);
      parts := parts + add;
      i := i + 1;
    }
  }

  /** `get_partitions`: 1 and no partitions when /proc/mounts cannot be
      opened; otherwise 0 and the collected partitions sorted by mount
      point. */
  method GetPartitions(mounts: Option<seq<Option<MountEntry>>>, stat: string -> Option<DevNo>)
    returns (rc: int, parts: seq<Partition>)
    ensures mounts.None? ==> rc == 1 && parts == []
    ensures mounts.Some? ==> rc == 0 && parts == SortParts(Collected(mounts.value, stat))
    ensures mounts.Some? ==> Sorted(parts) && multiset(parts) == multiset(Collected(mounts.value, stat))
  {
    if mounts.None? {
      return 1, [];
    }
    parts := Collect(mounts.value, stat);
    SortPartsSorted(parts);
    parts := SortParts(parts);
    rc := 0;
  }

  /** The partition of `path`: the last one whose mount point is a prefix
      of it, or -1. */
  function PathPartition(path: string, parts: seq<Partition>): (r: int)
    ensures -1 <= r < |parts|
    ensures r >= 0 ==> IsPrefix(parts[r].mountPoint, path)
    ensures forall i :: r < i < |parts| ==> !IsPrefix(parts[i].mountPoint, path)
  {
    if parts == [] then -1
    else if IsPrefix(parts[|parts| - 1].mountPoint, path) then |parts| - 1
    else PathPartition(path, parts[..|parts| - 1])
  }

  /** `get_path_partition`. */
  method GetPathPartition(path: string, parts: seq<Partition>) returns (r: int)
    ensures r == PathPartition(path, parts)
  {
    var i := |parts| - 1;
    while i >= 0
      invariant -1 <= i < |parts|
      invariant PathPartition(path, parts) == PathPartition(path, parts[..i + 1])
      decreases i
    {
      if IsPrefix(parts[i].mountPoint, path) {
        return i;
      }
      assert parts[..i + 1][..i] == parts[..i];
      i := i - 1;
    }
    return -1;
  }

  /** On a sorted table the partition found is the one with the longest
      mount point that is a prefix of the path. */
  lemma LongestMountPoint(path: string, parts: seq<Partition>)
    requires Sorted(parts)
    ensures var r := PathPartition(path, parts);
      forall i :: 0 <= i < |parts| && IsPrefix(parts[i].mountPoint, path) ==> |parts[i].mountPoint| <= |parts[r].mountPoint|
  {
    var r := PathPartition(path, parts);
    forall i | 0 <= i < |parts| && IsPrefix(parts[i].mountPoint, path)
      ensures |parts[i].mountPoint| <= |parts[r].mountPoint|
    {
      var a, b := parts[i].mountPoint, parts[r].mountPoint;
      if |a| > |b| {
        assert i < r;
        assert a[..|b|] == path[..|b|] == b;
        PrefixSortsFirst(b, a);
        StrCmpFlip(a, b);
      }
    }
  }

  /** The prefix test is on characters, not path components: a path under
      "/home2" matches a partition mounted at "/home". */
  lemma CharacterPrefix()
    ensures PathPartition("/home2/x", [Partition(8, 1, "/dev/sda1", "/home", "ext4")]) == 0
  {
    assert "/home2/x"[..5] == "/home";
  }

  /** `partition_filter`. */
  datatype PartitionFilter = PartitionFilter(selected: int, merge: bool, count: int, partitions: seq<Partition>)

  /** `should_skip_path`: special mount points are skipped; unless
      partitions are merged, so is anything under a later partition. */
  method ShouldSkipPath(path: string, pf: PartitionFilter) returns (skip: bool)
    requires 0 <= pf.selected < |pf.partitions| && pf.count <= |pf.partitions|
    ensures skip <==> (IsSpecialMountPoint(path, pf.partitions[pf.selected].fsType)
      || (!pf.merge && exists i :: pf.selected < i < pf.count && IsPrefix(pf.partitions[i].mountPoint, path)))
    ensures !IsSpecialMountPoint(path, pf.partitions[pf.selected].fsType) && !pf.merge && pf.count >= 0 ==>
      (skip <==> PathPartition(path, pf.partitions[..pf.count]) > pf.selected)
  {
    if IsSpecialMountPoint(path, pf.partitions[pf.selected].fsType) {
      return true;
    }
    if pf.merge {
      return false;
    }
    ghost var table := if pf.count >= 0 then pf.partitions[..pf.count] else [];
    var i := pf.selected + 1;
    while i < pf.count
      invariant pf.selected + 1 <= i && (i <= pf.count || i == pf.selected + 1)
      invariant forall j :: pf.selected < j < i ==> !IsPrefix(pf.partitions[j].mountPoint, path)
      decreases pf.count - i
    {
      if IsPrefix(pf.partitions[i].mountPoint, path) {
        if pf.count >= 0 {
          assert table[i] == pf.partitions[i];
        }
        return true;
      }
      i := i + 1;
    }
    if pf.count >= 0 {
      assert forall j :: pf.selected < j < pf.count ==> table[j] == pf.partitions[j];
    }
    return false;
  }
}

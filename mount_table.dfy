/** The cached mount table of the server: the list built from libmount's
    parse of /proc/self/mountinfo, the walk from a path up to its mount
    point, and the lookups on the list (`MountCacher` in
    src/server/backend/lib/mountcacher.cpp; `update_mount_points` and
    `find_mount_point` in src/server/src/core/mount_manager.cpp are the same
    code on standard strings and share these members). libmount itself is
    not modelled: its parse of the table is an input, and
    `mnt_get_mountpoint` is the oracle `mountOf`. */
module MountTable {
  import opened Common

  const DLNFS: string := "fuse.dlnfs"

  /** A device number as `major()` and `minor()` split it. */
  datatype DevNo = DevNo(major: nat, minor: nat)

  /** One file system as libmount parses it from a mountinfo line. */
  datatype MntFs = MntFs(device: DevNo, fsType: string, source: string, target: string, root: string)

  /** One entry of the cached list (`MountPoint`, `mount_point`); the real
      device is the source. */
  datatype MountPoint = MountPoint(device: DevNo, fsType: string, source: string, target: string,
                                   root: string, realDevice: string)

  /** Virtual file systems (major 0) are left out, except dlnfs. */
  predicate Listed(major: nat, fsType: string)
  {
    major != 0 || fsType == DLNFS
  }

  function EntryOf(fs: MntFs): MountPoint
  {
    MountPoint(fs.device, fs.fsType, fs.source, fs.target, fs.root, fs.source)
  }

  /** The list `updateMountPoints` builds: the entries of the listed file
      systems, in table order. */
  function Kept(table: seq<MntFs>): (r: seq<MountPoint>)
    ensures |r| <= |table|
    ensures forall k :: 0 <= k < |r| ==> Listed(r[k].device.major, r[k].fsType) && r[k].realDevice == r[k].source
  {
    if table == [] then []
    else
      var front := Kept(table[..|table| - 1]);
      var fs := table[|table| - 1];
      if Listed(fs.device.major, fs.fsType) then front + [EntryOf(fs)] else front
  }

  /** An entry is in the list exactly when it comes from a listed file
      system of the table. */
  lemma {:induction false} KeptExact(table: seq<MntFs>, fs: MntFs)
    ensures EntryOf(fs) in Kept(table) <==> fs in table && Listed(fs.device.major, fs.fsType)
  {
    if table != [] {
      KeptExact(table[..|table| - 1], fs);
      var last := table[|table| - 1];
      assert table == table[..|table| - 1] + [last];
      if EntryOf(last) == EntryOf(fs) {
        assert last == fs;
      }
    }
  }

  /** The loop of `updateMountPoints` over the parsed table. */
  method FilterMounts(table: seq<MntFs>) returns (list: seq<MountPoint>)
    ensures list == Kept(table)
  {
    list := [];
    for i := 0 to |table|
      invariant list == Kept(table[..i])
    {
      assert table[..i + 1][..i] == table[..i];
      var fs := table[i];
      if Listed(fs.device.major, fs.fsType) {
        list := list + [EntryOf(fs)];
      }
    }
    assert table[..|table|] == table;
  }

  // The walk up to a mount point.

  /** `mnt_get_mountpoint` answers with an ancestor of the path, so never
      with a longer string; the walk relies on this to end. */
  ghost predicate Shrinks(mountOf: string -> Option<string>)
  {
    forall p :: mountOf(p).Some? ==> |mountOf(p).value| <= |p|
  }

  /** The parent the walk climbs to: the text before the last '/', with an
      empty result read as "/". */
  function Parent(s: string, p: nat): (r: string)
    requires p < |s|
    ensures p == 0 ==> r == "/"
    ensures p > 0 ==> r == s[..p] && |r| < |s|
  {
    if p == 0 then "/" else s[..p]
  }

  /** The mount points in the list that sit on a virtual device. */
  function VirtualTargets(list: seq<MountPoint>): set<string>
  {
    set k | 0 <= k < |list| && list[k].device.major == 0 :: list[k].target
  }

  /** What `findMountPointByPath(path, hardreal)` returns when started at
      `rp` with `result` found so far: the first mount point the oracle
      reports on the way up; with `hardreal` a mount point on a virtual
      device is passed and the climb goes on from it; "/" once the climb
      reaches the root; the last result when the path has no '/'. */
  function Climb(rp: string, result: string, hardreal: bool, mountOf: string -> Option<string>, virtuals: set<string>): string
    requires Shrinks(mountOf)
    decreases |rp|
  {
    var hit := mountOf(rp);
    if hit.Some? && !(hardreal && hit.value in virtuals) then hit.value
    else
      var rp1 := if hit.Some? then hit.value else rp;
      var result1 := if hit.Some? then hit.value else result;
      if rp1 == "/" then "/"
      else
        match LastIndexOf(rp1, '/')
        case None => result1
        case Some(p) =>
          assert p == 0 ==> |rp1| > 1;
          Climb(Parent(rp1, p), result1, hardreal, mountOf, virtuals)
  }

  /** The inner loop of the walk: does a virtual device sit at `t`? */
  method HasVirtualTarget(list: seq<MountPoint>, t: string) returns (b: bool)
    ensures b <==> t in VirtualTargets(list)
  {
    for k := 0 to |list|
      invariant forall j :: 0 <= j < k ==> !(list[j].target == t && list[j].device.major == 0)
    {
      if list[k].target == t && list[k].device.major == 0 {
        return true;
      }
    }
    return false;
  }

  /** `findMountPointByPath` / `find_mount_point`. */
  method FindMountPoint(list: seq<MountPoint>, path: string, hardreal: bool, mountOf: string -> Option<string>)
    returns (result: string)
    requires Shrinks(mountOf)
    ensures result == Climb(path, "", hardreal, mountOf, VirtualTargets(list))
  {
    ghost var virtuals := VirtualTargets(list);
    result := "";
    var rp := path;
    while true
      invariant Climb(rp, result, hardreal, mountOf, virtuals) == Climb(path, "", hardreal, mountOf, virtuals)
      decreases |rp|
    {
      var hit := mountOf(rp);
      ghost var before := |rp|;
      if hit.Some? {
        result := hit.value;
        if !hardreal {
          return;
        }
        var v := HasVirtualTarget(list, result);
        if !v {
          return;
        }
        rp := result;
      }
      if rp == "/" {
        return "/";
      }
      var p := LastIndexOf(rp, '/');
      if p.None? {
        return;
      }
      assert p.value == 0 ==> |rp| > 1;
      rp := Parent(rp, p.value);
      assert |rp| < before;
    }
  }

  /** The parent of an absolute path is absolute. */
  lemma ParentAbsolute(s: string, p: nat)
    requires p < |s| && s[0] == '/'
    ensures |Parent(s, p)| >= 1 && Parent(s, p)[0] == '/'
  {
  }

  /** With no mount point reported anywhere, the walk from an absolute
      path ends at "/". */
  lemma {:induction false} ClimbToRoot(rp: string, result: string, hardreal: bool, mountOf: string -> Option<string>, virtuals: set<string>)
    requires Shrinks(mountOf) && forall p :: mountOf(p).None?
    requires |rp| >= 1 && rp[0] == '/'
    ensures Climb(rp, result, hardreal, mountOf, virtuals) == "/"
    decreases |rp|
  {
    if rp != "/" {
      var p :| LastIndexOf(rp, '/') == Some(p);
      assert p == 0 ==> |rp| > 1;
      ParentAbsolute(rp, p);
      ClimbToRoot(Parent(rp, p), result, hardreal, mountOf, virtuals);
    }
  }

  /** With `hardreal`, an absolute path never ends on a mount point that
      sits on a virtual device, other than "/", as long as every mount
      point reported is absolute. */
  lemma {:induction false} ClimbPassesVirtual(rp: string, result: string, mountOf: string -> Option<string>, virtuals: set<string>)
    requires Shrinks(mountOf)
    requires forall p :: mountOf(p).Some? ==> |mountOf(p).value| >= 1 && mountOf(p).value[0] == '/'
    requires |rp| >= 1 && rp[0] == '/'
    ensures var r := Climb(rp, result, true, mountOf, virtuals); r == "/" || r !in virtuals
    decreases |rp|
  {
    var hit := mountOf(rp);
    if !(hit.Some? && hit.value !in virtuals) {
      var rp1 := if hit.Some? then hit.value else rp;
      var result1 := if hit.Some? then hit.value else result;
      if rp1 != "/" {
        assert rp1[0] == '/';
        var p :| LastIndexOf(rp1, '/') == Some(p);
        assert p == 0 ==> |rp1| > 1;
        ParentAbsolute(rp1, p);
        ClimbPassesVirtual(Parent(rp1, p), result1, mountOf, virtuals);
      }
    }
  }

  // Lookups on the list.

  /** Some entry mounts a file system of type `fsType` at `point`. */
  predicate HasTypeAt(list: seq<MountPoint>, point: string, fsType: string)
  {
    exists k :: 0 <= k < |list| && list[k].target == point && list[k].fsType == fsType
  }

  /** `pathMatchType`: the type of the file system mounted where the walk
      from `path` (without `hardreal`) ends. */
  method PathMatchType(list: seq<MountPoint>, path: string, fsType: string, mountOf: string -> Option<string>)
    returns (b: bool)
    requires Shrinks(mountOf)
    ensures b <==> HasTypeAt(list, Climb(path, "", false, mountOf, VirtualTargets(list)), fsType)
  {
    var point := FindMountPoint(list, path, false, mountOf);
    for k := 0 to |list|
      invariant forall j :: 0 <= j < k ==> !(list[j].target == point && list[j].fsType == fsType)
    {
      if list[k].target == point && list[k].fsType == fsType {
        return true;
      }
    }
    return false;
  }

  /** The index of the last entry mounted at `point`. */
  function LastAt(list: seq<MountPoint>, point: string): (r: Option<nat>)
    ensures r.None? <==> forall k :: 0 <= k < |list| ==> list[k].target != point
    ensures r.Some? ==> r.value < |list| && list[r.value].target == point
    ensures r.Some? ==> forall j :: r.value < j < |list| ==> list[j].target != point
  {
    if list == [] then None
    else if list[|list| - 1].target == point then Some(|list| - 1)
    else LastAt(list[..|list| - 1], point)
  }

  /** The root of the last entry mounted at `point`. */
  function LastRoot(list: seq<MountPoint>, point: string): Option<string>
  {
    match LastAt(list, point)
    case None => None
    case Some(k) => Some(list[k].root)
  }

  /** The map `getRootsByPoints` builds over `points`. */
  function Roots(list: seq<MountPoint>, points: seq<string>): (m: map<string, string>)
  {
    if points == [] then map[]
    else
      var m := Roots(list, points[..|points| - 1]);
      var p := points[|points| - 1];
      if LastRoot(list, p).Some? then m[p := LastRoot(list, p).value] else m
  }

  /** The keys are the given points that something is mounted at, and each
      maps to the root of the last entry mounted there. */
  lemma {:induction false} RootsExact(list: seq<MountPoint>, points: seq<string>, p: string)
    ensures p in Roots(list, points) <==> p in points && LastRoot(list, p).Some?
    ensures p in Roots(list, points) ==> Roots(list, points)[p] == LastRoot(list, p).value
  {
    if points != [] {
      RootsExact(list, points[..|points| - 1], p);
      assert points == points[..|points| - 1] + [points[|points| - 1]];
    }
  }

  /** `getRootsByPoints` and `getRootsByStrPoints`: for each point, the
      root of every entry mounted there in turn, so the last one stays. */
  method GetRootsByPoints(list: seq<MountPoint>, points: seq<string>) returns (m: map<string, string>)
    ensures m == Roots(list, points)
  {
    m := map[];
    for i := 0 to |points|
      invariant m == Roots(list, points[..i])
    {
      assert points[..i + 1][..i] == points[..i];
      var point := points[i];
      ghost var before := m;
      for k := 0 to |list|
        invariant m == if LastRoot(list[..k], point).Some? then before[point := LastRoot(list[..k], point).value] else before
      {
        assert list[..k + 1][..k] == list[..k];
        if point == list[k].target {
          m := m[point := list[k].root];
        }
      }
      assert list[..|list|] == list;
    }
    assert points[..|points|] == points;
  }

  /** The index of the first entry mounted at `point`. */
  function FirstAt(list: seq<MountPoint>, point: string): (r: Option<nat>)
    ensures r.None? <==> forall k :: 0 <= k < |list| ==> list[k].target != point
    ensures r.Some? ==> r.value < |list| && list[r.value].target == point
    ensures r.Some? ==> forall j :: 0 <= j < r.value ==> list[j].target != point
  {
    if list == [] then None
    else if list[0].target == point then Some(0)
    else
      var r := FirstAt(list[1..], point);
      if r.Some? then Some(r.value + 1) else None
  }

  /** `getDeviceByPoint`: the real device of the first entry mounted at
      `point`, or the empty string. */
  method GetDeviceByPoint(list: seq<MountPoint>, point: string) returns (device: string)
    ensures FirstAt(list, point).None? ==> device == ""
    ensures FirstAt(list, point).Some? ==> device == list[FirstAt(list, point).value].realDevice
  {
    for k := 0 to |list|
      invariant forall j :: 0 <= j < k ==> list[j].target != point
    {
      if point == list[k].target {
        return list[k].realDevice;
      }
    }
    return "";
  }

  /** The entries with root `root`, in list order. */
  function WithRoot(list: seq<MountPoint>, root: string): (r: seq<MountPoint>)
    ensures |r| <= |list|
    ensures forall k :: 0 <= k < |r| ==> r[k].root == root && r[k] in list
  {
    if list == [] then []
    else
      var front := WithRoot(list[..|list| - 1], root);
      if list[|list| - 1].root == root then front + [list[|list| - 1]] else front
  }

  /** Every entry with that root is kept. */
  lemma {:induction false} WithRootComplete(list: seq<MountPoint>, root: string, e: MountPoint)
    requires e in list && e.root == root
    ensures e in WithRoot(list, root)
  {
    if list[|list| - 1] != e {
      assert list == list[..|list| - 1] + [list[|list| - 1]];
      WithRootComplete(list[..|list| - 1], root, e);
    }
  }

  /** `getMountPointsByRoot`: the whole list when the root is empty or not
      absolute, otherwise the entries with that root. */
  method GetMountPointsByRoot(list: seq<MountPoint>, root: string) returns (r: seq<MountPoint>)
    ensures root == [] || root[0] != '/' ==> r == list
    ensures root != [] && root[0] == '/' ==> r == WithRoot(list, root)
  {
    if root == [] || root[0] != '/' {
      return list;
    }
    r := [];
    for k := 0 to |list|
      invariant r == WithRoot(list[..k], root)
    {
      assert list[..k + 1][..k] == list[..k];
      if root == list[k].root {
        r := r + [list[k]];
      }
    }
    assert list[..|list|] == list;
  }

  /** The mount-point cache of the backend. */
  class MountCacher {
    var mountPointList: seq<MountPoint>

    /** Built with a first `updateMountPoints`; `table` is libmount's parse,
        `None` when it fails. */
    constructor (table: Option<seq<MntFs>>)
      ensures mountPointList == if table.Some? then Kept(table.value) else []
    {
      var list: seq<MountPoint> := [];
      if table.Some? {
        list := FilterMounts(table.value);
      }
      mountPointList := list;
    }

    /** `updateMountPoints`: the list is replaced only after a successful
        parse. */
    method UpdateMountPoints(table: Option<seq<MntFs>>) returns (ok: bool)
      modifies this
      ensures ok == table.Some?
      ensures mountPointList == if table.Some? then Kept(table.value) else old(mountPointList)
    {
      if table.None? {
        return false;
      }
      mountPointList := FilterMounts(table.value);
      return true;
    }
  }
}

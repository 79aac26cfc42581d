/** The serial uris of the backend's disk tool
    (src/server/backend/lib/lftdisktool.cpp). An index file is named after
    the partition it covers rather than the place it is mounted at:
    "serial:" + the udisks block id + the path inside the partition's file
    system. `pathToSerialUri` builds that name from a path, and
    `fromSerialUri` lists every place the named path is visible now, one per
    mount point of the block device. udisks is not modelled: its block
    devices are given as values. */
module LftDiskTool {
  import opened Common
  import MountTable

  const SCHEME: string := "serial:"

  /** A udisks block device: its id, whether it is a loop device, and its
      mount points (without the NUL udisks ends them with). */
  datatype Block = Block(id: string, isLoop: bool, mountPoints: seq<string>)

  /** The two halves of a serial uri. */
  datatype Uri = Uri(blockId: string, path: string)

  /** The split at the head of `fromSerialUri`: the scheme, a non-empty
      block id up to the first '/', and the path from that '/' on. */
  function ParseSerialUri(uri: string): (r: Option<Uri>)
    ensures r.Some? <==> IsPrefix(SCHEME, uri) && |uri| > 7 && uri[7] != '/' && exists j :: 7 < j < |uri| && uri[j] == '/'
    ensures r.Some? ==> uri == SCHEME + r.value.blockId + r.value.path
    ensures r.Some? ==> r.value.blockId != [] && Free(r.value.blockId, '/')
    ensures r.Some? ==> r.value.path != [] && r.value.path[0] == '/'
  {
    if !IsPrefix(SCHEME, uri) then None
    else
      match IndexFrom(uri, '/', 7)
      case None => None
      case Some(p) =>
        if p == 7 then None
        else
          assert uri == uri[..7] + uri[7..p] + uri[p..];
          Some(Uri(uri[7..p], uri[p..]))
  }

  /** Parsing recovers the block id and the path a serial uri was built
      from, when the id holds no '/' and the path is absolute. */
  lemma ParseSerialText(id: string, path: string)
    requires id != [] && Free(id, '/') && path != [] && path[0] == '/'
    ensures ParseSerialUri(SCHEME + id + path) == Some(Uri(id, path))
  {
    var uri := SCHEME + id + path;
    var q := 7 + |id|;
    assert forall k :: 0 <= k < |id| ==> uri[7 + k] == id[k];
    assert uri[q] == '/';
    assert uri[..7] == SCHEME;
    var p := IndexFrom(uri, '/', 7);
    assert p.Some?;
    assert p.value == q;
    assert uri[7..q] == id;
    assert uri[q..] == path;
  }

  /** The devices `pathToSerialUri` refuses: anything not under /dev/, loop
      devices and /dev/fuse. */
  predicate IgnoredDevice(device: string)
  {
    !IsPrefix("/dev/", device) || IsPrefix("/dev/loop", device) || device == "/dev/fuse"
  }

  /** `QString::right(n)`: the last `n` characters, or the whole string
      when `n` is negative or not less than its length. */
  function Right(s: string, n: int): string
  {
    if 0 <= n < |s| then s[|s| - n..] else s
  }

  /** `getDeviceByPoint`. */
  function DeviceAt(list: seq<MountTable.MountPoint>, point: string): string
  {
    match MountTable.FirstAt(list, point)
    case None => ""
    case Some(k) => list[k].realDevice
  }

  /** The root put into the uri: that of the last entry mounted at the
      point, or "/" when there is none or it is empty. */
  function MountRoot(list: seq<MountTable.MountPoint>, point: string): (r: string)
    ensures r != []
  {
    var roots := MountTable.Roots(list, [point]);
    if point in roots && roots[point] != [] then roots[point] else "/"
  }

  /** udisks's `createBlockPartitionByMountPoint`: the first block device
      that lists `point` among its mount points. */
  function ByMountPoint(blocks: seq<Block>, point: string): (r: Option<Block>)
    ensures r.None? <==> forall k :: 0 <= k < |blocks| ==> point !in blocks[k].mountPoints
    ensures r.Some? ==> r.value in blocks && point in r.value.mountPoints
  {
    if blocks == [] then None
    else if point in blocks[0].mountPoints then Some(blocks[0])
    else ByMountPoint(blocks[1..], point)
  }

  /** What `pathToSerialUri` returns for `path` once its mount point is
      known; `block` is what udisks's lookup by `path` found. */
  function SerialUri(list: seq<MountTable.MountPoint>, path: string, mountPoint: string, block: Option<Block>): (r: string)
    ensures r != [] ==> mountPoint != [] && !IgnoredDevice(DeviceAt(list, mountPoint))
    ensures r != [] ==> block.Some? && !block.value.isLoop && block.value.id != []
  {
    if mountPoint == [] || IgnoredDevice(DeviceAt(list, mountPoint)) then []
    else if block.None? || block.value.isLoop || block.value.id == [] then []
    else SCHEME + block.value.id + (MountRoot(list, mountPoint) + Right(path, |path| - |mountPoint|))
  }

  /** A uri built for a partition parses back to its block id and the
      root-relative path, when the id holds no '/' and the root is
      absolute. */
  lemma SerialUriParses(list: seq<MountTable.MountPoint>, path: string, mountPoint: string, block: Option<Block>)
    requires SerialUri(list, path, mountPoint, block) != []
    requires Free(block.value.id, '/') && MountRoot(list, mountPoint)[0] == '/'
    ensures ParseSerialUri(SerialUri(list, path, mountPoint, block)) ==
              Some(Uri(block.value.id, MountRoot(list, mountPoint) + Right(path, |path| - |mountPoint|)))
  {
    ParseSerialText(block.value.id, MountRoot(list, mountPoint) + Right(path, |path| - |mountPoint|));
  }

  /** `pathToSerialUri`: `mountOf` is libmount's mount-point lookup and
      `blocks` udisks's block devices, which it searches by `path`. */
  method PathToSerialUri(list: seq<MountTable.MountPoint>, path: string, mountOf: string -> Option<string>, blocks: seq<Block>)
    returns (uri: string)
    requires MountTable.Shrinks(mountOf)
    ensures uri == SerialUri(list, path, MountTable.Climb(path, "", false, mountOf, MountTable.VirtualTargets(list)),
                             ByMountPoint(blocks, path))
  {
    var mountPoint := MountTable.FindMountPoint(list, path, false, mountOf);
    if mountPoint == [] {
      return [];
    }
    var device := MountTable.GetDeviceByPoint(list, mountPoint);
    assert device == DeviceAt(list, mountPoint);
    if !IsPrefix("/dev/", device) || IsPrefix("/dev/loop", device) || device == "/dev/fuse" {
      return [];
    }
    var block := ByMountPoint(blocks, path);
    if block.None? || block.value.isLoop {
      return [];
    }
    var blockId := block.value.id;
    if blockId == [] {
      return [];
    }
    var infos := MountTable.GetRootsByPoints(list, [mountPoint]);
    var root: string := [];
    if mountPoint in infos {
      root := infos[mountPoint];
    }
    if root == [] {
      root := "/";
    }
    var rightLength := |path| - |mountPoint|;
    assert root == MountRoot(list, mountPoint);
    uri := SCHEME + blockId + root + Right(path, rightLength);
    assert uri == SCHEME + blockId + (root + Right(path, rightLength));
  }

  /** The join as the source writes it: a '/' is added unless the mount
      point already ends with one, even when the remainder starts with
      one. */
  function JoinAsWritten(mountPoint: string, rest: string): (r: string)
    ensures rest != [] && !IsSuffix("/", mountPoint) ==> r == mountPoint + "/" + rest
    ensures rest == [] || IsSuffix("/", mountPoint) ==> r == mountPoint + rest
  {
    if rest == [] then mountPoint
    else if IsSuffix("/", mountPoint) then mountPoint + rest
    else mountPoint + "/" + rest
  }

  /** The join the uri needs: a '/' is added only when neither side
      supplies one. */
  function Join(mountPoint: string, rest: string): (r: string)
    ensures rest != [] && !IsSuffix("/", mountPoint) && rest[0] != '/' ==> r == mountPoint + "/" + rest
    ensures rest == [] || IsSuffix("/", mountPoint) || rest[0] == '/' ==> r == mountPoint + rest
  {
    if rest == [] then mountPoint
    else if IsSuffix("/", mountPoint) || rest[0] == '/' then mountPoint + rest
    else mountPoint + "/" + rest
  }

  /** The join as written, or the corrected one. */
  function JoinWith(mountPoint: string, rest: string, corrected: bool): string
  {
    if corrected then Join(mountPoint, rest) else JoinAsWritten(mountPoint, rest)
  }

  /** A path below its mount point at a component boundary. */
  predicate Below(mountPoint: string, path: string)
  {
    mountPoint != [] && IsPrefix(mountPoint, path) &&
    (|path| == |mountPoint| || mountPoint[|mountPoint| - 1] == '/' || path[|mountPoint|] == '/')
  }

  /** Joining a mount point and the rest of a path below it gives the path
      back: always with the corrected join, and with the join as written
      when nothing is left or the mount point ends with '/'. */
  lemma JoinRestores(mountPoint: string, path: string, corrected: bool)
    requires Below(mountPoint, path)
    requires corrected || |path| == |mountPoint| || IsSuffix("/", mountPoint)
    ensures JoinWith(mountPoint, path[|mountPoint|..], corrected) == path
  {
    assert mountPoint + path[|mountPoint|..] == path;
    if path[|mountPoint|..] != [] && mountPoint[|mountPoint| - 1] == '/' {
      assert mountPoint[|mountPoint| - 1..] == "/";
    }
  }

  /** The path one mount point gives for `path`: none when its root is set
      and is not a prefix of the path, otherwise the mount point joined with
      the path after the root. */
  function Entry(mountPoint: string, root: string, path: string, corrected: bool): Option<string>
  {
    if root != [] && !IsPrefix(root, path) then None
    else Some(JoinWith(mountPoint, if root == [] then path else path[|root|..], corrected))
  }

  /** A mount point is skipped exactly when its root is set and is not a
      prefix of the path; what it gives starts with the mount point, is the
      bare mount point when nothing is left after the root, is the mount
      point and the rest when the mount point ends with '/', and otherwise
      puts one '/' at the seam, which the join as written adds even when
      the rest starts with '/'. */
  lemma EntryMeans(mountPoint: string, root: string, path: string, corrected: bool)
    ensures Entry(mountPoint, root, path, corrected).None? <==> root != [] && !IsPrefix(root, path)
    ensures Entry(mountPoint, root, path, corrected).Some? ==> IsPrefix(mountPoint, Entry(mountPoint, root, path, corrected).value)
    ensures Entry(mountPoint, root, path, corrected).Some? && (path == root || path == []) ==>
              Entry(mountPoint, root, path, corrected).value == mountPoint
    ensures Entry(mountPoint, root, path, corrected).Some? && |path| > |root| && IsSuffix("/", mountPoint) ==>
              Entry(mountPoint, root, path, corrected).value == mountPoint + path[|root|..]
    ensures Entry(mountPoint, root, path, corrected).Some? && |path| > |root| &&
            !IsSuffix("/", mountPoint) && (!corrected || path[|root|] != '/') ==>
              Entry(mountPoint, root, path, corrected).value == mountPoint + "/" + path[|root|..]
  {
    if Entry(mountPoint, root, path, corrected).Some? {
      var r := Entry(mountPoint, root, path, corrected).value;
      var rest := if root == [] then path else path[|root|..];
      assert r == JoinWith(mountPoint, rest, corrected);
      assert r[..|mountPoint|] == mountPoint;
      if path == root {
        assert rest == [];
      }
      if |path| > |root| {
        assert rest == path[|root|..] && rest[0] == path[|root|];
      }
    }
  }

  /** The root `getRootsByPoints` found for a mount point, or "" when it
      found none. */
  function RootOf(roots: map<string, string>, point: string): string
  {
    if point in roots then roots[point] else []
  }

  /** The paths the loop of `fromSerialUri` collects, in mount-point order. */
  function Located(points: seq<string>, roots: map<string, string>, path: string, corrected: bool): (r: seq<string>)
    ensures |r| <= |points|
  {
    if points == [] then []
    else
      var front := Located(points[..|points| - 1], roots, path, corrected);
      var last := points[|points| - 1];
      match Entry(last, RootOf(roots, last), path, corrected)
      case None => front
      case Some(p) => front + [p]
  }

  /** A path is listed exactly when some mount point gives it. */
  lemma {:induction false} LocatedMeans(points: seq<string>, roots: map<string, string>, path: string, corrected: bool, x: string)
    ensures x in Located(points, roots, path, corrected) <==>
              exists k :: 0 <= k < |points| && Entry(points[k], RootOf(roots, points[k]), path, corrected) == Some(x)
  {
    if points != [] {
      var front := points[..|points| - 1];
      LocatedMeans(front, roots, path, corrected, x);
      assert forall k :: 0 <= k < |front| ==> front[k] == points[k];
      if x in Located(points, roots, path, corrected) && x !in Located(front, roots, path, corrected) {
        assert Entry(points[|points| - 1], RootOf(roots, points[|points| - 1]), path, corrected) == Some(x);
      }
    }
  }

  /** The first block device with the given id. */
  function FirstWithId(blocks: seq<Block>, id: string): (r: Option<nat>)
    ensures r.None? <==> forall k :: 0 <= k < |blocks| ==> blocks[k].id != id
    ensures r.Some? ==> r.value < |blocks| && blocks[r.value].id == id
    ensures r.Some? ==> forall j :: 0 <= j < r.value ==> blocks[j].id != id
  {
    if blocks == [] then None
    else if blocks[0].id == id then Some(0)
    else
      var r := FirstWithId(blocks[1..], id);
      if r.Some? then Some(r.value + 1) else None
  }

  /** What `fromSerialUri` returns, with the join as written or the
      corrected one: nothing for a malformed uri or an unknown block id,
      otherwise the paths the first block device with that id gives. */
  function FromSerial(uri: string, blocks: seq<Block>, list: seq<MountTable.MountPoint>, corrected: bool): (r: seq<string>)
    ensures ParseSerialUri(uri).None? ==> r == []
    ensures ParseSerialUri(uri).Some? && FirstWithId(blocks, ParseSerialUri(uri).value.blockId).None? ==> r == []
  {
    match ParseSerialUri(uri)
    case None => []
    case Some(u) =>
      match FirstWithId(blocks, u.blockId)
      case None => []
      case Some(k) =>
        var points := blocks[k].mountPoints;
        Located(points, MountTable.Roots(list, points), u.path, corrected)
  }

  /** The loop of `fromSerialUri` over one block device's mount points,
      with `infos` the roots the mount cache knows for them. */
  method MountPaths(points: seq<string>, infos: map<string, string>, path: string) returns (paths: seq<string>)
    ensures paths == Located(points, infos, path, false)
  {
    paths := [];
    for k := 0 to |points|
      invariant paths == Located(points[..k], infos, path, false)
    {
      assert points[..k + 1][..k] == points[..k];
      var point := points[k];
      var root := RootOf(infos, point);
      if root == [] || IsPrefix(root, path) {
        var newPath := path;
        if root != [] {
          newPath := path[|root|..];
        }
        if newPath == [] {
          paths := paths + [point];
        } else {
          var joined := point;
          if !IsSuffix("/", joined) {
            joined := joined + "/";
          }
          paths := paths + [joined + newPath];
        }
      }
    }
    assert points[..|points|] == points;
  }

  /** `fromSerialUri`: `blocks` are udisks's block devices in the order it
      lists them, `list` the mount cache. */
  method FromSerialUri(uri: string, blocks: seq<Block>, list: seq<MountTable.MountPoint>) returns (paths: seq<string>)
    ensures paths == FromSerial(uri, blocks, list, false)
  {
    var parsed := ParseSerialUri(uri);
    if parsed.None? {
      return [];
    }
    var blockId := parsed.value.blockId;
    var path := parsed.value.path;
    for i := 0 to |blocks|
      invariant forall j :: 0 <= j < i ==> blocks[j].id != blockId
    {
      if blocks[i].id == blockId {
        assert FirstWithId(blocks, blockId) == Some(i);
        var points := blocks[i].mountPoints;
        var infos := MountTable.GetRootsByPoints(list, points);
        paths := MountPaths(points, infos, path);
        return paths;
      }
    }
    return [];
  }

  /** With a known non-empty root, the uri of a path below its mount point
      parses to that root followed by the rest of the path. */
  lemma SerialUriOfBelow(list: seq<MountTable.MountPoint>, path: string, mountPoint: string, block: Option<Block>)
    requires SerialUri(list, path, mountPoint, block) != [] && Below(mountPoint, path)
    requires Free(block.value.id, '/')
    requires MountTable.LastRoot(list, mountPoint).Some? && MountTable.LastRoot(list, mountPoint).value != []
    requires MountTable.LastRoot(list, mountPoint).value[0] == '/'
    ensures ParseSerialUri(SerialUri(list, path, mountPoint, block)) ==
              Some(Uri(block.value.id, MountTable.LastRoot(list, mountPoint).value + path[|mountPoint|..]))
  {
    MountTable.RootsExact(list, [mountPoint], mountPoint);
    assert MountRoot(list, mountPoint) == MountTable.LastRoot(list, mountPoint).value;
    assert Right(path, |path| - |mountPoint|) == path[|mountPoint|..];
    SerialUriParses(list, path, mountPoint, block);
  }

  /** A path some mount point gives is listed. */
  lemma LocatedHas(points: seq<string>, roots: map<string, string>, path: string, corrected: bool, i: nat)
    requires i < |points| && Entry(points[i], RootOf(roots, points[i]), path, corrected).Some?
    ensures Entry(points[i], RootOf(roots, points[i]), path, corrected).value in Located(points, roots, path, corrected)
  {
    LocatedMeans(points, roots, path, corrected, Entry(points[i], RootOf(roots, points[i]), path, corrected).value);
  }

  /** Round trip: a path below a mount point of a partition is among the
      paths its serial uri names, as long as the block id holds no '/' and
      the mount cache knows a non-empty absolute root for that mount point.
      With the join as written this holds only for the mount point itself
      and below a mount point that ends with '/'. */
  lemma SerialRoundTrip(list: seq<MountTable.MountPoint>, path: string, mountPoint: string, block: Option<Block>,
                        blocks: seq<Block>, corrected: bool)
    requires SerialUri(list, path, mountPoint, block) != [] && Below(mountPoint, path)
    requires corrected || |path| == |mountPoint| || IsSuffix("/", mountPoint)
    requires Free(block.value.id, '/')
    requires MountTable.LastRoot(list, mountPoint).Some? && MountTable.LastRoot(list, mountPoint).value != []
    requires MountTable.LastRoot(list, mountPoint).value[0] == '/'
    requires FirstWithId(blocks, block.value.id).Some?
    requires mountPoint in blocks[FirstWithId(blocks, block.value.id).value].mountPoints
    ensures path in FromSerial(SerialUri(list, path, mountPoint, block), blocks, list, corrected)
  {
    var root := MountTable.LastRoot(list, mountPoint).value;
    var rest := path[|mountPoint|..];
    SerialUriOfBelow(list, path, mountPoint, block);
    var k := FirstWithId(blocks, block.value.id).value;
    var points := blocks[k].mountPoints;
    var roots := MountTable.Roots(list, points);
    assert FromSerial(SerialUri(list, path, mountPoint, block), blocks, list, corrected) == Located(points, roots, root + rest, corrected);
    MountTable.RootsExact(list, points, mountPoint);
    assert RootOf(roots, mountPoint) == root;
    assert (root + rest)[..|root|] == root && (root + rest)[|root|..] == rest;
    JoinRestores(mountPoint, path, corrected);
    var i :| 0 <= i < |points| && points[i] == mountPoint;
    assert Entry(points[i], RootOf(roots, points[i]), root + rest, corrected) == Some(path);
    LocatedHas(points, roots, root + rest, corrected, i);
  }

  /** A partition whose directory "/a" is bind-mounted at "/mid" and whose
      directory "/a/b" is bind-mounted at "/deep". */
  const BindList := [MountTable.MountPoint(MountTable.DevNo(8, 2), "ext4", "/dev/sda2", "/mid", "/a", "/dev/sda2"),
                     MountTable.MountPoint(MountTable.DevNo(8, 2), "ext4", "/dev/sda2", "/deep", "/a/b", "/dev/sda2")]
  const BindBlock := Block("ID", false, ["/mid", "/deep"])

  /** The uri of the mount point "/deep" on that partition is
      "serial:ID/a/b". */
  lemma BindMountUri()
    ensures SerialUri(BindList, "/deep", "/deep", ByMountPoint([BindBlock], "/deep")) == "serial:ID/a/b"
  {
    assert "/deep" in BindBlock.mountPoints;
    assert MountTable.FirstAt(BindList, "/deep") == Some(1);
    assert MountTable.LastAt(BindList, "/deep") == Some(1);
    MountTable.RootsExact(BindList, ["/deep"], "/deep");
    assert MountRoot(BindList, "/deep") == "/a/b";
    assert "/dev/sda2"[..5] == "/dev/";
    assert "/dev/sda2"[..9][5] != "/dev/loop"[5];
    assert !IgnoredDevice(DeviceAt(BindList, "/deep"));
    assert Right("/deep", 0) == "";
  }

  /** The roots the mount cache gives the partition's two mount points. */
  lemma BindRoots()
    ensures MountTable.Roots(BindList, BindBlock.mountPoints) == map["/mid" := "/a", "/deep" := "/a/b"]
  {
    assert MountTable.LastAt(BindList, "/mid") == Some(0);
    assert MountTable.LastAt(BindList, "/deep") == Some(1);
    assert BindBlock.mountPoints[..1] == ["/mid"] && ["/mid"][..0] == [];
    assert MountTable.LastRoot(BindList, "/mid") == Some("/a");
    assert MountTable.LastRoot(BindList, "/deep") == Some("/a/b");
    assert MountTable.Roots(BindList, ["/mid"]) == map["/mid" := "/a"];
  }

  /** "serial:ID/a/b" names the path "/a/b" on that partition. */
  lemma BindResolve(corrected: bool)
    ensures FromSerial("serial:ID/a/b", [BindBlock], BindList, corrected)
      == Located(BindBlock.mountPoints, map["/mid" := "/a", "/deep" := "/a/b"], "/a/b", corrected)
  {
    ParseSerialText("ID", "/a/b");
    assert SCHEME + "ID" + "/a/b" == "serial:ID/a/b";
    assert FirstWithId([BindBlock], "ID") == Some(0);
    BindRoots();
  }

  /** What each mount point gives for "/a/b", with either join. */
  lemma BindEntries()
    ensures Entry("/mid", "/a", "/a/b", false) == Some("/mid//b")
    ensures Entry("/mid", "/a", "/a/b", true) == Some("/mid/b")
    ensures Entry("/deep", "/a/b", "/a/b", false) == Some("/deep")
    ensures Entry("/deep", "/a/b", "/a/b", true) == Some("/deep")
  {
    assert IsPrefix("/a", "/a/b") && "/a/b"[2..] == "/b";
    assert IsPrefix("/a/b", "/a/b") && "/a/b"[4..] == "";
    assert !IsSuffix("/", "/mid") by {
      assert "/mid"[3..] != "/";
    }
    assert JoinAsWritten("/mid", "/b") == "/mid" + "/" + "/b" == "/mid//b";
    assert Join("/mid", "/b") == "/mid" + "/b" == "/mid/b";
  }

  /** That uri resolves, with the join as written, to "/mid//b" beside
      "/deep": the rest "/b" after the root "/a" gets a second '/'. */
  lemma BindMountAsWritten()
    ensures FromSerial("serial:ID/a/b", [BindBlock], BindList, false) == ["/mid//b", "/deep"]
  {
    BindResolve(false);
    BindEntries();
    var roots := map["/mid" := "/a", "/deep" := "/a/b"];
    assert RootOf(roots, "/mid") == "/a" && RootOf(roots, "/deep") == "/a/b";
    assert BindBlock.mountPoints[..1] == ["/mid"];
    assert Located(["/mid"], roots, "/a/b", false) == ["/mid//b"];
  }

  /** With the corrected join the same uri resolves to "/mid/b" beside
      "/deep". */
  lemma BindMountCorrected()
    ensures FromSerial("serial:ID/a/b", [BindBlock], BindList, true) == ["/mid/b", "/deep"]
  {
    BindResolve(true);
    BindEntries();
    var roots := map["/mid" := "/a", "/deep" := "/a/b"];
    assert RootOf(roots, "/mid") == "/a" && RootOf(roots, "/deep") == "/a/b";
    assert BindBlock.mountPoints[..1] == ["/mid"];
    assert Located(["/mid"], roots, "/a/b", true) == ["/mid/b"];
  }
}

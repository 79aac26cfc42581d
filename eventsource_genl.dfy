/** The backend's generic-netlink event source
    (src/server/backend/eventsource_genl.cpp). Each kernel message becomes at
    most one event, which is packed into a fixed buffer for `getEvent`:
    rename-from messages are held back by cookie and paired with their
    rename-to, paths are prefixed with the mount point of their device, and
    mount and unmount messages refresh the device table. libnl's message
    parsing is given as its result. */
module EventSourceGenl {
  import opened Common
  import DevNumbers
  import MountTable
  import VfsSysfs
  import UnnamedSync
  import EventMerge

  /** `sizeof(buf)`: `char buf[4096*2]`. */
  const BUF_SIZE: nat := 8192

  const NUL: char := '\0'

  type u16 = x: int | 0 <= x < 0x1_0000

  /** The five attributes `handleMsg` reads from a message. */
  datatype Attrs = Attrs(act: byte, cookie: u32, major: u16, minor: byte, path: string)

  /** `MKDEV(major, minor)` on the message's device. */
  function DeviceKey(major: u16, minor: byte): nat
  {
    DevNumbers.Mkdev8(major as bv32, minor as bv32) as nat
  }

  /** `MKDEV(major(devno), minor(devno))` on an entry of the mount list,
      computed on `unsigned int`. */
  function EntryKey(d: MountTable.DevNo): nat
  {
    DevNumbers.Mkdev8(Wrap32(d.major) as bv32, Wrap32(d.minor) as bv32) as nat
  }

  predicate IsRenameFrom(act: byte)
  {
    act == EventMerge.ACT_RENAME_FROM_FILE || act == EventMerge.ACT_RENAME_FROM_FOLDER
  }

  predicate IsRenameTo(act: byte)
  {
    act == EventMerge.ACT_RENAME_TO_FILE || act == EventMerge.ACT_RENAME_TO_FOLDER
  }

  predicate IsRename(act: byte)
  {
    act == EventMerge.ACT_RENAME_FILE || act == EventMerge.ACT_RENAME_FOLDER
  }

  /** What `handleMsg` does with a message. */
  datatype Outcome =
    | Ignore
    | StoreFrom(cookie: u32, path: string)
    | Refresh
    | Save(act: byte, root: Option<string>, src: string, dst: Option<string>)

  /** The mount point prefixed to paths of a known device: none for "/". */
  function RootOf(partitions: map<nat, string>, key: nat): (r: Option<string>)
    requires key in partitions
    ensures r.None? <==> partitions[key] == "/"
    ensures r.Some? ==> r.value == partitions[key]
  {
    if partitions[key] == "/" then None else Some(partitions[key])
  }

  /** The decision of `handleMsg` for a message, as written: `unset` is
      whatever the uninitialised `_dst` holds when an unmatched rename-to
      reaches `saveData`. */
  function Route(partitions: map<nat, string>, renameFrom: map<u32, string>, a: Attrs, unset: Option<string>): (o: Outcome)
    ensures a.act < EventMerge.ACT_MOUNT && DeviceKey(a.major, a.minor) !in partitions ==> o == Ignore
    ensures o.StoreFrom? <==> IsRenameFrom(a.act) && DeviceKey(a.major, a.minor) in partitions
    ensures o.StoreFrom? ==> o == StoreFrom(a.cookie, a.path)
    ensures o.Refresh? <==> a.act == EventMerge.ACT_MOUNT || a.act == EventMerge.ACT_UNMOUNT
    ensures o.Save? ==> DeviceKey(a.major, a.minor) in partitions && o.root == RootOf(partitions, DeviceKey(a.major, a.minor))
    ensures o.Save? && a.act <= EventMerge.ACT_DEL_FOLDER ==> o.act == a.act && o.src == a.path && o.dst.None?
    ensures o.Save? && IsRename(o.act) ==>
      IsRenameTo(a.act) && a.cookie in renameFrom && o.src == renameFrom[a.cookie] && o.dst == Some(a.path) &&
      (o.act == EventMerge.ACT_RENAME_FILE <==> a.act == EventMerge.ACT_RENAME_TO_FILE)
    ensures o.Save? && !IsRename(o.act) ==> o.act == a.act && o.src == a.path && (a.act <= EventMerge.ACT_DEL_FOLDER || IsRenameTo(a.act))
  {
    var key := DeviceKey(a.major, a.minor);
    if a.act < EventMerge.ACT_MOUNT && key !in partitions then Ignore
    else if a.act <= EventMerge.ACT_DEL_FOLDER then Save(a.act, RootOf(partitions, key), a.path, None)
    else if IsRenameFrom(a.act) then StoreFrom(a.cookie, a.path)
    else if IsRenameTo(a.act) then
      if a.cookie in renameFrom then
        var act := if a.act == EventMerge.ACT_RENAME_TO_FILE then EventMerge.ACT_RENAME_FILE else EventMerge.ACT_RENAME_FOLDER;
        Save(act, RootOf(partitions, key), renameFrom[a.cookie], Some(a.path))
      else Save(a.act, RootOf(partitions, key), a.path, unset)
    else if a.act == EventMerge.ACT_MOUNT || a.act == EventMerge.ACT_UNMOUNT then Refresh
    else Ignore
  }

  /** The outcome for a message, or `Ignore` when it failed to parse. */
  function Taken(partitions: map<nat, string>, renameFrom: map<u32, string>, msg: Option<Attrs>): Outcome
  {
    if msg.Some? then Normalised(partitions, renameFrom, msg.value) else Ignore
  }

  /** An unmatched rename-to as written: the event carries whatever `_dst`
      held, so a rename-to can come out with a destination. */
  lemma UnmatchedRenameToTakesUnset(partitions: map<nat, string>, renameFrom: map<u32, string>, a: Attrs, unset: Option<string>)
    requires IsRenameTo(a.act) && DeviceKey(a.major, a.minor) in partitions && a.cookie !in renameFrom
    ensures Route(partitions, renameFrom, a, unset) == Save(a.act, RootOf(partitions, DeviceKey(a.major, a.minor)), a.path, unset)
  {
  }

  /** The decision with `_dst` null for an unmatched rename-to, as the
      server's own handler keeps `dst` empty: an event has a destination
      exactly when it is a paired rename. */
  function Normalised(partitions: map<nat, string>, renameFrom: map<u32, string>, a: Attrs): (o: Outcome)
    ensures o.Save? ==> (o.dst.Some? <==> IsRename(o.act))
  {
    Route(partitions, renameFrom, a, None)
  }

  // The buffer.

  /** What `saveData` writes: root++src and NUL, then root++dst and NUL
      when there is a destination. */
  function Layout(root: string, src: string, dst: Option<string>): seq<char>
  {
    root + src + [NUL] + if dst.Some? then root + dst.value + [NUL] else []
  }

  /** The size check of `saveData`. */
  predicate Fits(root: string, src: string, dst: Option<string>)
  {
    if dst.Some? then |root| * 2 + |src| + |dst.value| + 2 <= BUF_SIZE else |root| + |src| + 1 <= BUF_SIZE
  }

  /** The check admits exactly the layouts that fit in the buffer. */
  lemma FitsExactly(root: string, src: string, dst: Option<string>)
    ensures Fits(root, src, dst) <==> |Layout(root, src, dst)| <= BUF_SIZE
  {
  }

  /** A C string has no NUL inside. */
  predicate CString(s: string)
  {
    forall i :: 0 <= i < |s| ==> s[i] != NUL
  }

  /** The C string that starts at index `i` of `a`. */
  function CStringAt(a: seq<char>, i: nat): (r: string)
    ensures CString(r) && (i <= |a| ==> i + |r| <= |a|)
    decreases |a| - i
  {
    if i >= |a| || a[i] == NUL then [] else [a[i]] + CStringAt(a, i + 1)
  }

  /** A C string followed by its NUL reads back. */
  lemma {:induction false} ReadCString(a: seq<char>, i: nat, s: string)
    requires CString(s) && i + |s| < |a| && a[i + |s|] == NUL
    requires forall j :: 0 <= j < |s| ==> a[i + j] == s[j]
    ensures CStringAt(a, i) == s
    decreases |s|
  {
    if s != [] {
      assert a[i] == s[0] && s[0] != NUL;
      assert forall j :: 0 <= j < |s[1..]| ==> a[i + 1 + j] == s[1..][j] by {
        forall j | 0 <= j < |s[1..]| ensures a[i + 1 + j] == s[1..][j] {
          assert a[i + (j + 1)] == s[j + 1];
        }
      }
      ReadCString(a, i + 1, s[1..]);
      assert s == [s[0]] + s[1..];
    }
  }

  /** `getEvent` reads back the paths `saveData` packed. */
  lemma ReadLayout(a: seq<char>, root: string, src: string, dst: Option<string>)
    requires CString(root) && CString(src) && (dst.Some? ==> CString(dst.value))
    requires |Layout(root, src, dst)| <= |a| && a[..|Layout(root, src, dst)|] == Layout(root, src, dst)
    ensures CStringAt(a, 0) == root + src
    ensures dst.Some? ==> CStringAt(a, |root| + |src| + 1) == root + dst.value
  {
    var l := Layout(root, src, dst);
    var first := root + src + [NUL];
    assert l[..|first|] == first;
    ReadLayoutSrc(a, l, root, src);
    if dst.Some? {
      var t := root + dst.value;
      AppendAssoc(first, t, [NUL]);
      ReadLayoutDst(a, l, root + src, t);
    }
  }

  lemma ReadLayoutSrc(a: seq<char>, l: seq<char>, root: string, src: string)
    requires CString(root) && CString(src) && |root + src| < |l|
    requires |l| <= |a| && a[..|l|] == l && l[..|root + src| + 1] == root + src + [NUL]
    ensures CStringAt(a, 0) == root + src
  {
    CStringAppend(root, src);
    ReadPart(a, l, 0, root + src);
  }

  lemma ReadLayoutDst(a: seq<char>, l: seq<char>, head: string, t: string)
    requires CString(t) && l == head + [NUL] + t + [NUL]
    requires |l| <= |a| && a[..|l|] == l
    ensures CStringAt(a, |head| + 1) == t
  {
    var pre := head + [NUL];
    AppendAssoc(pre, t, [NUL]);
    assert l[|pre|..] == t + [NUL];
    ReadPart(a, l, |pre|, t);
  }

  /** A C string placed at `at` of a prefix of `a` reads back from `a`. */
  lemma ReadPart(a: seq<char>, l: seq<char>, at: nat, t: string)
    requires |l| <= |a| && a[..|l|] == l && CString(t)
    requires at + |t| < |l| && l[at..at + |t| + 1] == t + [NUL]
    ensures CStringAt(a, at) == t
  {
    forall j | 0 <= j < |t| ensures a[at + j] == t[j] {
      assert a[..|l|][at + j] == l[at..at + |t| + 1][j];
    }
    assert a[..|l|][at + |t|] == l[at..at + |t| + 1][|t|];
    ReadCString(a, at, t);
  }

  lemma CStringAppend(x: string, y: string)
    requires CString(x) && CString(y)
    ensures CString(x + y)
  {
    assert forall i :: 0 <= i < |x + y| ==> (x + y)[i] == if i < |x| then x[i] else y[i - |x|];
  }

  /** `strcpy(a + at, s)`. */
  method StrCpy(a: array<char>, at: nat, s: string)
    requires at + |s| < a.Length
    modifies a
    ensures forall j :: 0 <= j < a.Length ==>
      a[j] == if at <= j < at + |s| then s[j - at] else if j == at + |s| then NUL else old(a[j])
  {
    for k := 0 to |s|
      invariant forall j :: 0 <= j < a.Length ==> a[j] == if at <= j < at + k then s[j - at] else old(a[j])
    {
      a[at + k] := s[k];
    }
    a[at + |s|] := NUL;
  }

  /** The branches of `handleMsg` that decide what a message is: the
      device lookup, the "/" root, and the rename pairing. */
  method Classify(partitions: map<nat, string>, renameFrom: map<u32, string>, m: Attrs) returns (o: Outcome)
    ensures o == Normalised(partitions, renameFrom, m)
  {
    var a, src := m.act, m.path;
    var root: Option<string> := None;
    var d: Option<string> := None;
    if a < EventMerge.ACT_MOUNT {
      var key := DeviceKey(m.major, m.minor);
      if key !in partitions {
        return Ignore;
      }
      root := if partitions[key] == "/" then None else Some(partitions[key]);
    }
    if a <= EventMerge.ACT_DEL_FOLDER {
      d := None;
    } else if IsRenameFrom(a) {
      return StoreFrom(m.cookie, src);
    } else if IsRenameTo(a) {
      if m.cookie in renameFrom {
        a := if a == EventMerge.ACT_RENAME_TO_FILE then EventMerge.ACT_RENAME_FILE else EventMerge.ACT_RENAME_FOLDER;
        d := Some(src);
        src := renameFrom[m.cookie];
      }
    } else if a == EventMerge.ACT_MOUNT || a == EventMerge.ACT_UNMOUNT {
      return Refresh;
    } else {
      return Ignore;
    }
    return Save(a, root, src, d);
  }

  // The event source.

  class EventSource {
    const buf: array<char>
    var newMsg: bool
    var act: byte
    var dst: Option<nat>
    var renameFrom: map<u32, string>
    var partitions: map<nat, string>

    ghost predicate Valid()
      reads this
    {
      buf.Length == BUF_SIZE && (dst.Some? ==> dst.value < BUF_SIZE)
    }

    /** The event `getEvent` hands out: the C strings at `buf` and `dst`. */
    function Event(): (r: (byte, string, Option<string>))
      reads this, buf
    {
      (act, CStringAt(buf[..], 0), if dst.Some? then Some(CStringAt(buf[..], dst.value)) else None)
    }

    /** The constructor: an empty buffer, no event, and a first
        `updatePartitions`. */
    constructor (cacher: MountTable.MountCacher, table: Option<seq<MountTable.MntFs>>,
                 dev: VfsSysfs.UnnamedDevices, readable: bool, failed: set<nat>)
      requires dev.Valid()
      modifies cacher, dev.flags
      ensures Valid() && fresh(buf) && buf[0] == NUL
      ensures !newMsg && act == 255 && dst.None? && renameFrom == map[]
      ensures cacher.mountPointList == if table.Some? then MountTable.Kept(table.value) else old(cacher.mountPointList)
      ensures Refreshed(map[], partitions, cacher.mountPointList)
      ensures dev.Valid()
    {
      buf := new char[BUF_SIZE](_ => NUL);
      newMsg, act, dst := false, 255, None;
      renameFrom, partitions := map[], map[];
      new;
      var _, _ := UpdatePartitions(cacher, table, dev, readable, failed);
    }

    /** `saveData`: nothing changes when the paths do not fit; otherwise
        the buffer starts with their layout and `dst` points at the
        destination. */
    method SaveData(a: byte, root: Option<string>, src: string, d: Option<string>) returns (ok: bool)
      requires Valid()
      modifies this`act, this`dst, buf
      ensures Valid()
      ensures var r := if root.Some? then root.value else ""; ok == Fits(r, src, d)
      ensures !ok ==> act == old(act) && dst == old(dst) && buf[..] == old(buf[..])
      ensures ok ==> var r := if root.Some? then root.value else ""; var l := Layout(r, src, d);
        act == a && |l| <= BUF_SIZE && buf[..|l|] == l && buf[|l|..] == old(buf[|l|..]) &&
        dst == if d.Some? then Some(|r| + |src| + 1) else None
    {
      var r := if root.Some? then root.value else "";
      if !Fits(r, src, d) {
        return false;
      }
      ghost var l := Layout(r, src, d);
      act := a;
      StrCpy(buf, 0, r + src);
      if d.Some? {
        var at := |r| + |src| + 1;
        dst := Some(at);
        StrCpy(buf, at, r + d.value);
      } else {
        dst := None;
      }
      assert forall j :: 0 <= j < |l| ==> buf[j] == l[j];
      return true;
    }

    /** `updatePartitions`: the mount cache is refreshed; when it has
        entries with root "/" the table is rebuilt from them and the
        dlnfs minors are synchronised with the kernel. */
    method UpdatePartitions(cacher: MountTable.MountCacher, table: Option<seq<MountTable.MntFs>>,
                            dev: VfsSysfs.UnnamedDevices, readable: bool, failed: set<nat>)
      returns (ghost removed: seq<string>, ghost added: seq<string>)
      requires dev.Valid()
      modifies this`partitions, cacher, dev.flags
      ensures dev.Valid()
      ensures Refreshes(cacher, dev, table, readable, failed, removed, added)
    {
      removed, added := [], [];
      var _ := cacher.UpdateMountPoints(table);
      var list := MountTable.GetMountPointsByRoot(cacher.mountPointList, "/");
      if list == [] {
        return;
      }
      var m, news := CollectPartitions(list);
      partitions := m;
      removed, added := UnnamedSync.GenlUpdate(dev, news, readable, failed);
    }

    /** `handleMsg`; `msg` is `None` when parsing fails or an attribute is
        missing. A mount or unmount refreshes the table through
        `updatePartitions`. */
    method HandleMsg(msg: Option<Attrs>, cacher: MountTable.MountCacher, table: Option<seq<MountTable.MntFs>>,
                     dev: VfsSysfs.UnnamedDevices, readable: bool, failed: set<nat>)
      returns (ghost removed: seq<string>, ghost added: seq<string>)
      requires Valid() && dev.Valid()
      modifies this, buf, cacher, dev.flags
      ensures Valid() && dev.Valid()
      ensures Handled(Taken(old(partitions), old(renameFrom), msg), if msg.Some? then msg.value.cookie else 0)
      ensures !Taken(old(partitions), old(renameFrom), msg).Refresh? ==> unchanged(cacher, dev.flags)
      ensures Taken(old(partitions), old(renameFrom), msg).Refresh? ==> Refreshes(cacher, dev, table, readable, failed, removed, added)
    {
      removed, added := [], [];
      if msg.None? {
        newMsg := false;
        return;
      }
      var o := Classify(partitions, renameFrom, msg.value);
      match o
      case Ignore =>
        newMsg := false;
      case StoreFrom(cookie, path) =>
        newMsg := false;
        renameFrom := renameFrom[cookie := path];
      case Refresh =>
        removed, added := UpdatePartitions(cacher, table, dev, readable, failed);
        newMsg := false;
      case Save(a, root, src, d) =>
        Emit(a, root, src, d, msg.value.cookie);
    }

    /** The saving part of `handleMsg`: the event is packed, `newMsg` says
        whether it fit, and a paired rename's cookie is dropped either way. */
    method Emit(a: byte, root: Option<string>, src: string, d: Option<string>, cookie: u32)
      requires Valid()
      modifies this`act, this`dst, this`newMsg, this`renameFrom, buf
      ensures Valid()
      ensures Handled(Save(a, root, src, d), cookie)
    {
      var saved := SaveData(a, root, src, d);
      newMsg := saved;
      if IsRename(a) {
        renameFrom := renameFrom - {cookie};
      }
    }

    /** The state after `handleMsg` carried out outcome `o`: only a saved
        event sets `newMsg` and touches the buffer, only a refresh touches
        the table and the kernel set, and the held rename-froms change by
        the stored one or the paired one. */
    twostate predicate Handled(o: Outcome, cookie: u32)
      reads this, buf
    {
      (!o.Save? ==> !newMsg && act == old(act) && dst == old(dst) && buf[..] == old(buf[..])) &&
      (!o.Refresh? ==> partitions == old(partitions)) &&
      match o
      case Ignore => renameFrom == old(renameFrom)
      case StoreFrom(c, path) => renameFrom == old(renameFrom)[c := path]
      case Refresh => renameFrom == old(renameFrom)
      case Save(a, root, src, d) =>
        var r := if root.Some? then root.value else "";
        var l := Layout(r, src, d);
        newMsg == Fits(r, src, d) &&
        (newMsg ==> act == a && |l| <= buf.Length && buf[..|l|] == l && buf[|l|..] == old(buf[|l|..]) &&
                    dst == if d.Some? then Some(|r| + |src| + 1) else None) &&
        (!newMsg ==> act == old(act) && dst == old(dst) && buf[..] == old(buf[..])) &&
        renameFrom == if IsRename(a) then old(renameFrom) - {cookie} else old(renameFrom)
    }

    /** The effect of `updatePartitions`: the cache holds the new parse
        (or the old list when parsing failed); when it has entries with
        root "/" the table is rebuilt from them and the kernel set is sent
        the removals and additions against their dlnfs minors, otherwise the
        table and the kernel set stay as they were. */
    twostate predicate Refreshes(cacher: MountTable.MountCacher, dev: VfsSysfs.UnnamedDevices, table: Option<seq<MountTable.MntFs>>,
                                 readable: bool, failed: set<nat>, removed: seq<string>, added: seq<string>)
      reads this, cacher, dev, dev.flags
    {
      dev.Valid() &&
      cacher.mountPointList == (if table.Some? then MountTable.Kept(table.value) else old(cacher.mountPointList)) &&
      Refreshed(old(partitions), partitions, cacher.mountPointList) &&
      var list := MountTable.WithRoot(cacher.mountPointList, "/");
      var olds := if readable then UnnamedSync.ReadChopped(VfsSysfs.ShowSpec(old(dev.flags[..]))) else {};
      (list == [] ==> dev.flags[..] == old(dev.flags[..])) &&
      (list != [] ==>
        UnnamedSync.Lists(removed, olds - DlnfsDevs(list)) && UnnamedSync.Lists(added, DlnfsDevs(list) - olds) &&
        dev.flags[..] == UnnamedSync.ApplyWrites(old(dev.flags[..]), UnnamedSync.Plan(removed, added, true), failed))
    }

    /** `getEvent`: one message is handled, and the event is handed out
        when it produced one; every event has `end` set. */
    method GetEvent(msg: Option<Attrs>, cacher: MountTable.MountCacher, table: Option<seq<MountTable.MntFs>>,
                    dev: VfsSysfs.UnnamedDevices, readable: bool, failed: set<nat>)
      returns (ok: bool, ev: (byte, string, Option<string>), end: bool)
      requires Valid() && dev.Valid()
      modifies this, buf, cacher, dev.flags
      ensures Valid() && dev.Valid()
      ensures ok == newMsg && (ok ==> ev == Event() && end)
    {
      var _, _ := HandleMsg(msg, cacher, table, dev, readable, failed);
      if newMsg {
        return true, Event(), true;
      }
      return false, (0, "", None), false;
    }
  }

  /** The table after `updatePartitions`: unchanged when the mount list has
      no entry with root "/", otherwise rebuilt from those entries. */
  ghost predicate Refreshed(before: map<nat, string>, after: map<nat, string>, list: seq<MountTable.MountPoint>)
  {
    var roots := MountTable.WithRoot(list, "/");
    after == if roots == [] then before else PartitionMap(roots)
  }

  /** The table built from the mount list: `insert` replaces, so the last
      entry for a key wins. */
  function PartitionMap(list: seq<MountTable.MountPoint>): (m: map<nat, string>)
  {
    if list == [] then map[]
    else
      var e := list[|list| - 1];
      PartitionMap(list[..|list| - 1])[EntryKey(e.device) := e.target]
  }

  /** The minors of the dlnfs entries, in decimal. */
  function DlnfsDevs(list: seq<MountTable.MountPoint>): (r: set<string>)
  {
    if list == [] then {}
    else
      var e := list[|list| - 1];
      DlnfsDevs(list[..|list| - 1]) + if e.fsType == MountTable.DLNFS then {Decimal(Wrap32(e.device.minor))} else {}
  }

  lemma PartitionMapSnoc(list: seq<MountTable.MountPoint>, e: MountTable.MountPoint)
    ensures PartitionMap(list + [e]) == PartitionMap(list)[EntryKey(e.device) := e.target]
  {
    assert (list + [e])[..|list|] == list;
  }

  lemma DlnfsDevsSnoc(list: seq<MountTable.MountPoint>, e: MountTable.MountPoint)
    ensures DlnfsDevs(list + [e]) == DlnfsDevs(list) + if e.fsType == MountTable.DLNFS then {Decimal(Wrap32(e.device.minor))} else {}
  {
    assert (list + [e])[..|list|] == list;
  }

  /** The table has a key exactly when some entry has it. */
  lemma {:induction false} PartitionMapKeys(list: seq<MountTable.MountPoint>, key: nat)
    ensures key in PartitionMap(list) <==> exists k :: 0 <= k < |list| && EntryKey(list[k].device) == key
  {
    if list != [] {
      var front := list[..|list| - 1];
      PartitionMapKeys(front, key);
      assert forall k :: 0 <= k < |front| ==> front[k] == list[k];
      assert list == front + [list[|list| - 1]];
    }
  }

  /** A key maps to the mount point of the last entry with it. */
  lemma {:induction false} PartitionMapLast(list: seq<MountTable.MountPoint>, k: nat)
    requires k < |list|
    requires forall j :: k < j < |list| ==> EntryKey(list[j].device) != EntryKey(list[k].device)
    ensures EntryKey(list[k].device) in PartitionMap(list) && PartitionMap(list)[EntryKey(list[k].device)] == list[k].target
  {
    var front := list[..|list| - 1];
    var last := list[|list| - 1];
    assert list == front + [last];
    PartitionMapSnoc(front, last);
    if k < |list| - 1 {
      assert front[k] == list[k];
      PartitionMapLast(front, k);
    }
  }

  /** A minor is sent exactly when some dlnfs entry has it. */
  lemma {:induction false} DlnfsDevsExact(list: seq<MountTable.MountPoint>, t: string)
    ensures t in DlnfsDevs(list) <==>
      exists k :: 0 <= k < |list| && list[k].fsType == MountTable.DLNFS && Decimal(Wrap32(list[k].device.minor)) == t
  {
    if list != [] {
      var front := list[..|list| - 1];
      DlnfsDevsExact(front, t);
      assert forall k :: 0 <= k < |front| ==> front[k] == list[k];
      assert list == front + [list[|list| - 1]];
    }
  }

  /** The loop of `updatePartitions` over the mount list. */
  method CollectPartitions(list: seq<MountTable.MountPoint>) returns (m: map<nat, string>, news: set<string>)
    ensures m == PartitionMap(list) && news == DlnfsDevs(list)
  {
    m, news := map[], {};
    for i := 0 to |list|
      invariant m == PartitionMap(list[..i]) && news == DlnfsDevs(list[..i])
    {
      var e := list[i];
      assert list[..i + 1] == list[..i] + [e];
      PartitionMapSnoc(list[..i], e);
      DlnfsDevsSnoc(list[..i], e);
      m := m[EntryKey(e.device) := e.target];
      if e.fsType == MountTable.DLNFS {
        news := news + {Decimal(Wrap32(e.device.minor))};
      }
    }
    assert list[..|list|] == list;
  }
}

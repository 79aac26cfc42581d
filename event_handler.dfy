/** The server's file-event handler, `default_event_handler::handle`, in its
    two copies (src/server/src/core/default_event_handler.cpp and the
    earlier src/server/backend/default_event_handler.cpp, which differ only
    in the index directory they skip). An event is normalised (device
    lookup, root prefix, rename pairing by cookie), filtered, and passed on
    to the index. The index manager and the file-record generation are not
    part of this model: the handler's result says what it asks of them. */
module EventHandler {
  import opened Common
  import StringHelper
  import MountTable
  import MountInfo
  import VfsSysfs
  import EventMerge
  import EventSourceGenl

  /** `fs_event`, as the listener builds it. */
  datatype FsEvent = FsEvent(act: byte, cookie: u32, major: EventSourceGenl.u16, minor: byte, src: string, dst: string)

  /** Where normalisation leaves an event. */
  datatype Prepared =
    | Remount
    | Dropped
    | HoldFrom(cookie: u32, path: string)
    | Ready(ev: FsEvent)

  /** What `handle` asks of the rest of the server. */
  datatype Action = NoAction | Remounted | AddIndex(path: string) | RemoveIndex(path: string) | ShowRename(src: string, dst: string)

  const LONGNAME: string := ".longname"

  /** The prefix put before the paths of a known device: empty for "/". */
  function RootPrefix(mounts: map<nat, string>, key: nat): (r: string)
    requires key in mounts
    ensures r == "" <==> mounts[key] == "/" || mounts[key] == ""
    ensures r != "" ==> r == mounts[key]
  {
    if mounts[key] == "/" then "" else mounts[key]
  }

  /** Prefixing as `handle` does it: nothing for an empty root, and the
      destination only when it is non-empty. */
  function Prefix(root: string, e: FsEvent): (r: FsEvent)
    ensures r.act == e.act && r.cookie == e.cookie && r.major == e.major && r.minor == e.minor
    ensures r.src == root + e.src && r.dst == (if e.dst == "" then "" else root + e.dst)
  {
    if root == "" then e else e.(src := root + e.src, dst := if e.dst == "" then "" else root + e.dst)
  }

  /** The normalisation part of `handle`. */
  function Prepare(mounts: map<nat, string>, renameFrom: map<u32, string>, e: FsEvent): (p: Prepared)
    ensures p.Remount? <==> e.act == EventMerge.ACT_MOUNT || e.act == EventMerge.ACT_UNMOUNT
    ensures e.act < EventMerge.ACT_MOUNT && EventSourceGenl.DeviceKey(e.major, e.minor) !in mounts ==> p.Dropped?
    ensures p.HoldFrom? <==> EventSourceGenl.IsRenameFrom(e.act) && EventSourceGenl.DeviceKey(e.major, e.minor) in mounts
    ensures p.HoldFrom? ==> p == HoldFrom(e.cookie, e.src)
    ensures p.Ready? ==>
      var key := EventSourceGenl.DeviceKey(e.major, e.minor);
      key in mounts && p.ev.cookie == e.cookie &&
      (EventSourceGenl.IsRename(p.ev.act) ==>
        EventSourceGenl.IsRenameTo(e.act) && e.cookie in renameFrom &&
        p.ev.src == RootPrefix(mounts, key) + renameFrom[e.cookie] &&
        p.ev.dst == (if e.src == "" then "" else RootPrefix(mounts, key) + e.src) &&
        (p.ev.act == EventMerge.ACT_RENAME_FILE <==> e.act == EventMerge.ACT_RENAME_TO_FILE)) &&
      (!EventSourceGenl.IsRename(p.ev.act) ==>
        p.ev == Prefix(RootPrefix(mounts, key), e) &&
        (e.act <= EventMerge.ACT_DEL_FOLDER || (EventSourceGenl.IsRenameTo(e.act) && e.cookie !in renameFrom)))
  {
    var key := EventSourceGenl.DeviceKey(e.major, e.minor);
    if e.act == EventMerge.ACT_MOUNT || e.act == EventMerge.ACT_UNMOUNT then Remount
    else if e.act < EventMerge.ACT_MOUNT && key !in mounts then Dropped
    else if e.act <= EventMerge.ACT_DEL_FOLDER then Ready(Prefix(RootPrefix(mounts, key), e))
    else if EventSourceGenl.IsRenameFrom(e.act) then HoldFrom(e.cookie, e.src)
    else if EventSourceGenl.IsRenameTo(e.act) then
      if e.cookie in renameFrom then
        var act := if e.act == EventMerge.ACT_RENAME_TO_FILE then EventMerge.ACT_RENAME_FILE else EventMerge.ACT_RENAME_FOLDER;
        Ready(Prefix(RootPrefix(mounts, key), e.(act := act, dst := e.src, src := renameFrom[e.cookie])))
      else Ready(Prefix(RootPrefix(mounts, key), e))
    else Dropped
  }

  /** `ignored_event`: ".longname" files always, and when the previous event
      was not ignored, anything on a dlnfs mount. */
  function Ignored(list: seq<MountTable.MountPoint>, path: string, ignored: bool, mountOf: string -> Option<string>): (b: bool)
    requires MountTable.Shrinks(mountOf)
    ensures StringHelper.EndsWith(path, LONGNAME) ==> b
    ensures ignored ==> (b <==> StringHelper.EndsWith(path, LONGNAME))
  {
    StringHelper.EndsWith(path, LONGNAME) ||
    (!ignored && MountTable.HasTypeAt(list, MountTable.Climb(path, "", false, mountOf, MountTable.VirtualTargets(list)), MountTable.DLNFS))
  }

  /** The dispatch at the end of `handle`: nothing for an ignored event or
      one under the index directory; otherwise creations are indexed,
      deletions unindexed and paired renames reported. */
  function Dispatch(ev: FsEvent, ignored: bool, indexDir: string): (a: Action)
    ensures a.AddIndex? <==> !ignored && !Contains(ev.src, indexDir) && ev.act <= EventMerge.ACT_NEW_FOLDER
    ensures a.RemoveIndex? <==> !ignored && !Contains(ev.src, indexDir) && EventMerge.ACT_NEW_FOLDER < ev.act <= EventMerge.ACT_DEL_FOLDER
    ensures a.ShowRename? <==> !ignored && !Contains(ev.src, indexDir) && EventSourceGenl.IsRename(ev.act)
    ensures (a.AddIndex? || a.RemoveIndex?) ==> a.path == ev.src
    ensures a.ShowRename? ==> a == ShowRename(ev.src, ev.dst)
    ensures !a.Remounted?
  {
    if ignored || StringHelper.ContainsStr(ev.src, indexDir) then NoAction
    else if ev.act <= EventMerge.ACT_NEW_FOLDER then AddIndex(ev.src)
    else if ev.act <= EventMerge.ACT_DEL_FOLDER then RemoveIndex(ev.src)
    else if EventSourceGenl.IsRename(ev.act) then ShowRename(ev.src, ev.dst)
    else NoAction
  }

  /** The path `ignored_event` is asked about: the destination when there is
      one. */
  function Checked(ev: FsEvent): string
  {
    if ev.dst == "" then ev.src else ev.dst
  }

  /** A ".longname" path never reaches the index. */
  lemma LongnameNeverIndexed(list: seq<MountTable.MountPoint>, ev: FsEvent, indexDir: string, mountOf: string -> Option<string>)
    requires MountTable.Shrinks(mountOf) && StringHelper.EndsWith(Checked(ev), LONGNAME)
    ensures Dispatch(ev, Ignored(list, Checked(ev), false, mountOf), indexDir) == NoAction
  {
  }

  /** `ignored_event`, with the mount point found by `path_match_type`. */
  method IgnoredEvent(list: seq<MountTable.MountPoint>, path: string, ignored: bool, mountOf: string -> Option<string>)
    returns (b: bool)
    requires MountTable.Shrinks(mountOf)
    ensures b == Ignored(list, path, ignored, mountOf)
  {
    if StringHelper.EndsWith(path, LONGNAME) {
      return true;
    }
    if !ignored {
      b := MountTable.PathMatchType(list, path, MountTable.DLNFS, mountOf);
      return b;
    }
    return false;
  }

  /** One handler: its held rename-froms, the mount manager it consults,
      and the index directory it leaves alone. */
  class DefaultEventHandler {
    var renameFrom: map<u32, string>
    const mnt: MountInfo.MountManager
    const indexDir: string

    /** The index itself and the first scan are not modelled; the mount
        manager is the one the constructor updated. */
    constructor (mnt: MountInfo.MountManager, indexDir: string)
      ensures this.mnt == mnt && this.indexDir == indexDir && renameFrom == map[]
    {
      this.mnt := mnt;
      this.indexDir := indexDir;
      renameFrom := map[];
    }

    /** `handle`: `lines`, `dev`, `readable` and `failed` feed the mount
        manager's `update` on a mount or unmount, and `mountOf` is
        libmount's mount-point lookup. */
    method Handle(e: FsEvent, lines: Option<seq<string>>, dev: VfsSysfs.UnnamedDevices, readable: bool, failed: set<nat>,
                  mountOf: string -> Option<string>)
      returns (a: Action)
      requires MountTable.Shrinks(mountOf) && dev.Valid()
      requires lines.Some? ==> forall k :: 0 <= k < |lines.value| ==> MountInfo.WellFormed(lines.value[k])
      modifies this, mnt, dev.flags
      ensures dev.Valid()
      ensures var p := Prepare(old(mnt.mounts), old(renameFrom), e);
        match p
        case Remount =>
          a == Remounted && renameFrom == old(renameFrom) && mnt.mountPoints == old(mnt.mountPoints) &&
          mnt.mounts == if lines.Some? then MountInfo.Mounts(old(mnt.mounts), MountInfo.Infos(lines.value)) else old(mnt.mounts)
        case Dropped => a == NoAction && renameFrom == old(renameFrom) && unchanged(mnt, dev.flags)
        case HoldFrom(c, path) =>
          a == NoAction && unchanged(mnt, dev.flags) &&
          renameFrom == if c in old(renameFrom) then old(renameFrom) else old(renameFrom)[c := path]
        case Ready(ev) =>
          unchanged(mnt, dev.flags) &&
          renameFrom == (if EventSourceGenl.IsRename(ev.act) then old(renameFrom) - {e.cookie} else old(renameFrom)) &&
          a == Dispatch(ev, Ignored(mnt.mountPoints, Checked(ev), false, mountOf), indexDir)
    {
      var p := Prepare(mnt.mounts, renameFrom, e);
      match p
      case Remount =>
        var _, _, _ := mnt.Update(lines, dev, readable, failed);
        return Remounted;
      case Dropped =>
        return NoAction;
      case HoldFrom(c, path) =>
        if c !in renameFrom {
          renameFrom := renameFrom[c := path];
        }
        return NoAction;
      case Ready(ev) =>
        if EventSourceGenl.IsRename(ev.act) {
          renameFrom := renameFrom - {ev.cookie};
        }
        var ignored := IgnoredEvent(mnt.mountPoints, Checked(ev), false, mountOf);
        return Dispatch(ev, ignored, indexDir);
    }
  }
}

/** The kernel module's queue of file-system changes: each hooked change is
    stored as an entry with its full path, merged against the entries
    already queued where a later change cancels or folds an earlier one,
    evicted oldest-first when the queue holds too much memory, and handed
    to user space as a byte stream (or as text lines for debugging). */
module VfsChange {
  import opened Common

  type Bytes = seq<byte>

  /** `unsigned short`, the width of an entry's recorded size. */
  type u16 = x: int | 0 <= x < 0x1_0000

  const ACT_NEW_FILE: byte := 0
  const ACT_NEW_LINK: byte := 1
  const ACT_NEW_SYMLINK: byte := 2
  const ACT_NEW_FOLDER: byte := 3
  const ACT_DEL_FILE: byte := 4
  const ACT_DEL_FOLDER: byte := 5
  const ACT_RENAME_FILE: byte := 6
  const ACT_RENAME_FOLDER: byte := 7

  const MAX_VFS_CHANGE_MEM: nat := 0x10_0000
  /** `sizeof(vfs_change)` on a 64-bit kernel: a timeval, two pointers,
      the action byte, the size short and the list links, padded. */
  const HEADER_SIZE: nat := 56
  const MIN_LINE_SIZE: nat := 50
  const ENOMEM: int := 12
  const EINVAL: int := 22

  const NUL: byte := 0
  const SPACE: byte := 32
  const NEWLINE: byte := 10

  /** One queued change. `ts` is the time stamp in microseconds, `dst` is
      present for renames, and `size` is the recorded allocation size. */
  datatype Entry = Entry(ts: nat, action: byte, src: Bytes, dst: Option<Bytes>, size: u16)

  predicate IsRename(action: byte)
  {
    action == ACT_RENAME_FILE || action == ACT_RENAME_FOLDER
  }

  /** An entry as the hooks create it: a known action, C strings, and a
      destination exactly for the renames. */
  predicate WellFormed(e: Entry)
  {
    e.action <= ACT_RENAME_FOLDER && Free(e.src, NUL)
    && (e.dst.Some? <==> IsRename(e.action))
    && (e.dst.Some? ==> Free(e.dst.value, NUL))
  }

  predicate AllWellFormed(es: seq<Entry>)
  {
    forall i :: 0 <= i < |es| ==> WellFormed(es[i])
  }

  /** The destination string, read where the C code uses `dst` as a
      string; empty for an entry without one. */
  function DstOrEmpty(e: Entry): Bytes
  {
    if e.dst.Some? then e.dst.value else []
  }

  /** The sum of the recorded sizes: what `total_memory` must equal. */
  function Memory(es: seq<Entry>): nat
  {
    if es == [] then 0 else es[0].size + Memory(es[1..])
  }

  lemma {:induction false} MemoryAppend(a: seq<Entry>, b: seq<Entry>)
    ensures Memory(a + b) == Memory(a) + Memory(b)
  {
    if a == [] {
      assert a + b == b;
    } else {
      assert (a + b)[1..] == a[1..] + b;
      MemoryAppend(a[1..], b);
    }
  }

  // ---------------------------------------------------------------
  // Creating an entry (vfs_changed)
  // ---------------------------------------------------------------

  /** A null root and an empty one add nothing. */
  function RootBytes(root: Option<Bytes>): Bytes
  {
    if root.Some? then root.value else []
  }

  /** The bytes `vfs_changed` allocates: the header, then `root ++ src`
      and, for a rename, `root ++ dst`, each with its NUL. */
  function AllocSize(root: Option<Bytes>, src: Bytes, dst: Option<Bytes>): nat
  {
    HEADER_SIZE + |src| + |RootBytes(root)| + 1
      + (if dst.Some? then |dst.value| + |RootBytes(root)| + 1 else 0)
  }

  /** The entry `vfs_changed` builds; the size is truncated to the
      `unsigned short` field. */
  function NewEntry(act: byte, root: Option<Bytes>, src: Bytes, dst: Option<Bytes>, ts: nat): Entry
  {
    var full := if dst.Some? then Some(RootBytes(root) + dst.value) else None;
    Entry(ts, act, RootBytes(root) + src, full, AllocSize(root, src, dst) % 0x1_0000)
  }

  // ---------------------------------------------------------------
  // Merge rules
  // ---------------------------------------------------------------

  /** What one merge function does to the queued entry `p` it looks at and
      to the incoming entry: `prev` is what stays in `p`'s place (nothing
      when the entry is removed, or the rewritten entry), and `cur` is the
      incoming entry afterwards, or `None` when it is freed and the scan
      breaks (`MERGE_BRK`). */
  datatype Step = Step(prev: seq<Entry>, cur: Option<Entry>)

  /** `merge_new_file`: a new file/link/symlink `a` cancels a queued
      delete of `a`, and turns a queued rename of `a` into the creation of
      its destination. */
  function MergeNewFile(vc: Entry, cur: Entry): (r: Step)
    ensures |r.prev| <= 1
    ensures r.prev != [] ==> r.prev[0].size == vc.size && r.prev[0].ts == vc.ts
    ensures r.cur.Some? ==> r == Step([vc], Some(cur))
  {
    if vc.action == ACT_DEL_FILE then
      if vc.src != cur.src then Step([vc], Some(cur)) else Step([], None)
    else if vc.action == ACT_RENAME_FILE then
      if vc.src != cur.src then Step([vc], Some(cur))
      else Step([vc.(action := cur.action, src := DstOrEmpty(vc), dst := None)], None)
    else Step([vc], Some(cur))
  }

  /** `merge_del_file`: deleting `a` cancels together with a queued
      creation of `a`, and turns a queued rename to `a` into the delete of
      its source. */
  function MergeDelFile(vc: Entry, cur: Entry): (r: Step)
    ensures |r.prev| <= 1
    ensures r.prev != [] ==> r.prev[0].size == vc.size && r.prev[0].ts == vc.ts
    ensures r.cur.Some? ==> r == Step([vc], Some(cur))
  {
    if vc.action < ACT_NEW_FOLDER then
      if vc.src != cur.src then Step([vc], Some(cur)) else Step([], None)
    else if vc.action == ACT_RENAME_FILE then
      if DstOrEmpty(vc) != cur.src then Step([vc], Some(cur))
      else Step([vc.(action := ACT_DEL_FILE, dst := None)], None)
    else Step([vc], Some(cur))
  }

  /** `merge_rename_file`: renaming `a` to `b` absorbs a queued creation of
      `a` (the incoming entry becomes that creation on `b`), a queued
      delete of `b` (the incoming entry becomes the delete of `a`), and a
      queued rename of `b` to `a`; the scan always goes on. */
  function MergeRenameFile(vc: Entry, cur: Entry): (r: Step)
    ensures r.prev == [] || r.prev == [vc]
    ensures r.cur.Some?
    ensures r.cur.value.size == cur.size && r.cur.value.ts == cur.ts
  {
    if vc.action <= ACT_NEW_SYMLINK then
      if vc.src != cur.src then Step([vc], Some(cur))
      else Step([], Some(cur.(action := vc.action, src := DstOrEmpty(cur), dst := None)))
    else if vc.action == ACT_DEL_FILE then
      if vc.src != DstOrEmpty(cur) then Step([vc], Some(cur))
      else Step([], Some(cur.(action := ACT_DEL_FILE, dst := None)))
    else if vc.action == ACT_RENAME_FILE then
      if DstOrEmpty(vc) != cur.src || vc.src != DstOrEmpty(cur) then Step([vc], Some(cur))
      else Step([], Some(cur))
    else Step([vc], Some(cur))
  }

  /** `action_merge_fns[action] != 0`: only file actions merge. */
  predicate HasMergeFn(action: byte)
  {
    action <= ACT_NEW_SYMLINK || action == ACT_DEL_FILE || action == ACT_RENAME_FILE
  }

  /** The merge function for the incoming entry's current action. */
  function MergeStep(vc: Entry, cur: Entry): (r: Step)
    requires HasMergeFn(cur.action)
    ensures |r.prev| <= 1
    ensures r.prev != [] ==> r.prev[0].size == vc.size
    ensures r.cur.Some? ==> HasMergeFn(r.cur.value.action) && r.cur.value.size == cur.size
  {
    if cur.action <= ACT_NEW_SYMLINK then MergeNewFile(vc, cur)
    else if cur.action == ACT_DEL_FILE then MergeDelFile(vc, cur)
    else MergeRenameFile(vc, cur)
  }

  /** The first loop of `merge_action`: the queued entries from the newest
      back, each shown to the merge function until one breaks. The result
      is the queue afterwards and the incoming entry, if it survives. */
  function MergeScan(es: seq<Entry>, cur: Option<Entry>): (r: (seq<Entry>, Option<Entry>))
    ensures |r.0| <= |es|
    decreases |es|
  {
    if cur.None? || es == [] || !HasMergeFn(cur.value.action) then (es, cur)
    else
      var m := MergeStep(es[|es| - 1], cur.value);
      var rest := MergeScan(es[..|es| - 1], m.cur);
      (rest.0 + m.prev, rest.1)
  }

  /** The comparison of the duplicate pass: same action and source, and the
      same destination when `last` has one. */
  predicate Same(last: Entry, vc: Entry)
  {
    last.action == vc.action && last.src == vc.src && (last.dst.None? || last.dst == vc.dst)
  }

  /** Drops the trailing entries of `es` that repeat `last`. */
  function DropRun(es: seq<Entry>, last: Entry): (r: seq<Entry>)
    ensures IsPrefix(r, es)
    ensures r != [] ==> !Same(last, r[|r| - 1])
    ensures forall i :: |r| <= i < |es| ==> Same(last, es[i])
  {
    if es == [] || !Same(last, es[|es| - 1]) then es
    else DropRun(es[..|es| - 1], last)
  }

  /** The second loop of `merge_action`: a trailing run of equal entries,
      the incoming one included, keeps only its newest queued member. */
  function Dedup(es: seq<Entry>, cur: Option<Entry>): (seq<Entry>, Option<Entry>)
  {
    if es == [] then (es, cur)
    else
      var tail := es[|es| - 1];
      if cur.Some? && !Same(cur.value, tail) then (es, cur)
      else (DropRun(es[..|es| - 1], tail) + [tail], None)
  }

  /** `merge_action`: the queue after merging `cur` in, and `cur` itself
      (possibly rewritten) if it is still to be queued. */
  function MergeResult(es: seq<Entry>, cur: Entry): (seq<Entry>, Option<Entry>)
  {
    if !HasMergeFn(cur.action) then (es, Some(cur))
    else
      var m := MergeScan(es, Some(cur));
      Dedup(m.0, m.1)
  }

  /** The queue after `cur` has been merged in and, if it survived,
      appended. */
  function Queued(es: seq<Entry>, cur: Entry): seq<Entry>
  {
    var r := MergeResult(es, cur);
    r.0 + (if r.1.Some? then [r.1.value] else [])
  }

  /** `MergeScan` on a queue whose newest entry is `vc`, unfolded once. */
  lemma ScanUnfold(p: seq<Entry>, vc: Entry, cur: Entry)
    requires HasMergeFn(cur.action)
    ensures MergeScan(p + [vc], Some(cur)).0 == MergeScan(p, MergeStep(vc, cur).cur).0 + MergeStep(vc, cur).prev
    ensures MergeScan(p + [vc], Some(cur)).1 == MergeScan(p, MergeStep(vc, cur).cur).1
  {
    assert (p + [vc])[..|p|] == p;
  }

  /** One step of `MergeScan`: the entry before the suffix `s` is shown
      to the merge function and replaced by what it leaves, and the scan
      goes on over the prefix `p`. */
  lemma ScanStep(p: seq<Entry>, vc: Entry, s: seq<Entry>, cur: Entry, m: Step, next: seq<Entry>)
    requires HasMergeFn(cur.action) && m == MergeStep(vc, cur) && next == p + m.prev + s
    ensures next[..|p|] == p
    ensures MergeScan(p + [vc], Some(cur)).0 + s == MergeScan(next[..|p|], m.cur).0 + next[|p|..]
    ensures MergeScan(p + [vc], Some(cur)).1 == MergeScan(next[..|p|], m.cur).1
  {
    ScanUnfold(p, vc, cur);
    SplitThree(p, m.prev, s);
    AppendAssoc(MergeScan(p, m.cur).0, m.prev, s);
  }

  /** Replacing an entry by `prev` (itself or nothing) changes the memory
      by the entry's size exactly when it is removed. */
  lemma MemoryReplace(p: seq<Entry>, vc: Entry, prev: seq<Entry>, s: seq<Entry>)
    requires |prev| <= 1 && (prev != [] ==> prev[0].size == vc.size)
    ensures Memory(p + [vc] + s) == Memory(p + prev + s) + (if prev == [] then vc.size as nat else 0)
  {
    MemoryAppend(p + [vc], s);
    MemoryAppend(p, [vc]);
    MemoryAppend(p + prev, s);
    MemoryAppend(p, prev);
    if prev != [] {
      assert prev == [prev[0]];
    }
  }

  /** The first loop of `merge_action`, walking the queue backwards. It
      also returns how many entries it removed and their total size, which
      `REMOVE_ENTRY` takes off the counters. */
  method ScanMerges(es: seq<Entry>, cur: Entry) returns (rs: seq<Entry>, kept: Option<Entry>, removed: nat, freed: nat)
    requires HasMergeFn(cur.action)
    ensures rs == MergeScan(es, Some(cur)).0 && kept == MergeScan(es, Some(cur)).1
    ensures |es| == |rs| + removed
    ensures Memory(es) == Memory(rs) + freed
  {
    rs, kept, removed, freed := es, Some(cur), 0, 0;
    var i := |es|;
    assert rs[..i] == es && rs[i..] == [];
    assert MergeScan(es, Some(cur)).0 + [] == MergeScan(es, Some(cur)).0;
    while i > 0 && kept.Some?
      invariant 0 <= i <= |rs|
      invariant kept.Some? ==> HasMergeFn(kept.value.action)
      invariant MergeScan(es, Some(cur)).0 == MergeScan(rs[..i], kept).0 + rs[i..]
      invariant MergeScan(es, Some(cur)).1 == MergeScan(rs[..i], kept).1
      invariant |es| == |rs| + removed
      invariant Memory(es) == Memory(rs) + freed
      decreases i
    {
      var p, vc, s := rs[..i - 1], rs[i - 1], rs[i..];
      var m := MergeStep(vc, kept.value);
      assert rs[..i] == p + [vc];
      assert rs == p + [vc] + s;
      var next := p + m.prev + s;
      ScanStep(p, vc, s, kept.value, m, next);
      MemoryReplace(p, vc, m.prev, s);
      if m.prev == [] {
        removed, freed := removed + 1, freed + vc.size;
      }
      rs, kept, i := next, m.cur, i - 1;
    }
  }

  /** The state of the duplicate pass once `last` points at the newest
      queued entry: the queue is down to `rs`, whose first `i` entries are
      still to be compared, and dropping the run from there gives what
      dropping it from the whole queue gives. */
  ghost predicate Dropping(es: seq<Entry>, cur: Option<Entry>, rs: seq<Entry>, i: nat, last: Entry)
  {
    es != [] && i < |es| && last == es[|es| - 1]
    && |rs| == i + 1 && rs == rs[..i] + [last]
    && DropRun(es[..|es| - 1], last) == DropRun(rs[..i], last)
    && (cur.None? || Same(cur.value, last))
  }

  /** The pass turns to the newest queued entry. */
  lemma DropStart(es: seq<Entry>, cur: Option<Entry>)
    requires es != [] && (cur.None? || Same(cur.value, es[|es| - 1]))
    ensures Dropping(es, cur, es, |es| - 1, es[|es| - 1])
  {
    assert es == es[..|es| - 1] + [es[|es| - 1]];
  }

  /** Freeing the repeat just before the newest entry. */
  lemma DropStep(es: seq<Entry>, cur: Option<Entry>, rs: seq<Entry>, i: nat, last: Entry, next: seq<Entry>)
    requires Dropping(es, cur, rs, i, last) && i > 0 && Same(last, rs[i - 1])
    requires next == rs[..i - 1] + [last]
    ensures Dropping(es, cur, next, i - 1, last)
    ensures |rs| == |next| + 1 && Memory(rs) == Memory(next) + rs[i - 1].size
  {
    var vc := rs[i - 1];
    assert rs[..i] == rs[..i - 1] + [vc];
    assert rs == rs[..i - 1] + [vc] + [last];
    assert next[..i - 1] == rs[..i - 1];
    MemoryAppend(rs[..i - 1] + [vc], [last]);
    MemoryAppend(rs[..i - 1], [vc]);
    MemoryAppend(rs[..i - 1], [last]);
  }

  /** The duplicate pass of `merge_action`. `last` stands for the C
      pointer of that name: it starts at the incoming entry (or, when that
      was freed, at the newest queued one), and `lastIsCur` records whether
      it still points at the incoming entry. */
  method DedupRun(es: seq<Entry>, cur: Option<Entry>) returns (rs: seq<Entry>, kept: Option<Entry>, removed: nat, freed: nat)
    ensures (rs, kept) == Dedup(es, cur)
    ensures |es| == |rs| + removed
    ensures Memory(es) == Memory(rs) + freed
  {
    rs, kept, removed, freed := es, cur, 0, 0;
    var last := cur;
    var lastIsCur := cur.Some?;
    var i := |es|;
    while i > 0
      invariant 0 <= i <= |es|
      invariant |es| == |rs| + removed
      invariant Memory(es) == Memory(rs) + freed
      invariant last.None? ==> i == |es| && rs == es && kept.None? && cur.None?
      invariant lastIsCur ==> i == |es| && rs == es && kept == cur == last && last.Some?
      invariant last.Some? && !lastIsCur ==> kept.None? && Dropping(es, cur, rs, i, last.value)
      decreases i
    {
      var vc := rs[i - 1];
      if last.None? {
        DropStart(es, cur);
        last := Some(vc);
        i := i - 1;
        continue;
      }
      if !Same(last.value, vc) {
        break;
      }
      if lastIsCur {
        DropStart(es, cur);
        kept, last, lastIsCur := None, Some(vc), false;
        i := i - 1;
      } else {
        var next := rs[..i - 1] + [last.value];
        DropStep(es, cur, rs, i, last.value, next);
        rs, removed, freed := next, removed + 1, freed + vc.size;
        i := i - 1;
      }
    }
    if last.Some? && !lastIsCur {
      assert rs[..i] == DropRun(rs[..i], last.value);
    }
  }

  // ---------------------------------------------------------------
  // What the merge rules achieve
  // ---------------------------------------------------------------

  /** The merge function steps over `vc`: it neither touches it nor
      changes the incoming entry. */
  predicate Passes(vc: Entry, cur: Entry)
    requires HasMergeFn(cur.action)
  {
    MergeStep(vc, cur) == Step([vc], Some(cur))
  }

  /** The merge function steps over every entry of `s`. */
  predicate AllPass(s: seq<Entry>, cur: Entry)
    requires HasMergeFn(cur.action)
  {
    s == [] || (Passes(s[|s| - 1], cur) && AllPass(s[..|s| - 1], cur))
  }

  lemma {:induction false} AllPassMeans(s: seq<Entry>, cur: Entry)
    requires HasMergeFn(cur.action)
    ensures AllPass(s, cur) <==> forall k :: 0 <= k < |s| ==> Passes(s[k], cur)
  {
    if s != [] {
      var n := |s| - 1;
      AllPassMeans(s[..n], cur);
      if forall k :: 0 <= k < |s| ==> Passes(s[k], cur) {
        forall k | 0 <= k < n ensures Passes(s[..n][k], cur) {
          assert s[..n][k] == s[k];
        }
      }
      if AllPass(s, cur) {
        forall k | 0 <= k < |s| ensures Passes(s[k], cur) {
          if k < n {
            assert s[..n][k] == s[k];
          }
        }
      }
    }
  }

  /** Which queued entries each kind of incoming entry steps over. */
  lemma PassesMeans(vc: Entry, cur: Entry)
    requires HasMergeFn(cur.action)
    ensures cur.action <= ACT_NEW_SYMLINK ==>
      (Passes(vc, cur) <==> !((vc.action == ACT_DEL_FILE || vc.action == ACT_RENAME_FILE) && vc.src == cur.src))
    ensures cur.action == ACT_DEL_FILE ==>
      (Passes(vc, cur) <==> !(vc.action < ACT_NEW_FOLDER && vc.src == cur.src)
                            && !(vc.action == ACT_RENAME_FILE && DstOrEmpty(vc) == cur.src))
    ensures cur.action == ACT_RENAME_FILE ==>
      (Passes(vc, cur) <==> !(vc.action <= ACT_NEW_SYMLINK && vc.src == cur.src)
                            && !(vc.action == ACT_DEL_FILE && vc.src == DstOrEmpty(cur))
                            && !(vc.action == ACT_RENAME_FILE && DstOrEmpty(vc) == cur.src && vc.src == DstOrEmpty(cur)))
  {
  }

  /** The scan reaches the entry at `j` unchanged when every newer entry
      is stepped over, and then does there what the merge function says. */
  lemma {:induction false} ScanAt(es: seq<Entry>, j: nat, cur: Entry)
    requires j < |es| && HasMergeFn(cur.action)
    requires AllPass(es[j + 1..], cur)
    ensures MergeScan(es, Some(cur)).0
      == MergeScan(es[..j], MergeStep(es[j], cur).cur).0 + MergeStep(es[j], cur).prev + es[j + 1..]
    ensures MergeScan(es, Some(cur)).1 == MergeScan(es[..j], MergeStep(es[j], cur).cur).1
    decreases |es|
  {
    var n := |es| - 1;
    if j == n {
      assert es == es[..j] + [es[j]];
      ScanUnfold(es[..j], es[j], cur);
      assert es[j + 1..] == [];
    } else {
      assert es == es[..n] + [es[n]];
      ScanUnfold(es[..n], es[n], cur);
      assert es[j + 1..][|es[j + 1..]| - 1] == es[n];
      assert es[j + 1..][..|es[j + 1..]| - 1] == es[..n][j + 1..];
      assert Passes(es[n], cur);
      assert es[..n][..j] == es[..j] && es[..n][j] == es[j];
      ScanAt(es[..n], j, cur);
      assert es[..n][j + 1..] + [es[n]] == es[j + 1..];
    }
  }

  /** new-file(a) after a queued del-file(a): the delete is removed and the
      new entry is freed. */
  lemma NewFileCancelsDelete(es: seq<Entry>, j: nat, cur: Entry)
    requires cur.action <= ACT_NEW_SYMLINK && j < |es|
    requires es[j].action == ACT_DEL_FILE && es[j].src == cur.src
    requires AllPass(es[j + 1..], cur)
    ensures MergeScan(es, Some(cur)).0 == es[..j] + es[j + 1..]
    ensures MergeResult(es, cur) == Dedup(es[..j] + es[j + 1..], None)
  {
    assert MergeStep(es[j], cur) == Step([], None);
    ScanAt(es, j, cur);
    AppendNil(es[..j]);
    assert MergeScan(es[..j], None).0 == es[..j];
  }

  /** new-file(a) after a queued rename-file(a, x): the rename becomes the
      creation of `x` and the new entry is freed. */
  lemma NewFileAfterRename(es: seq<Entry>, j: nat, cur: Entry)
    requires cur.action <= ACT_NEW_SYMLINK && j < |es|
    requires es[j].action == ACT_RENAME_FILE && es[j].src == cur.src
    requires AllPass(es[j + 1..], cur)
    ensures MergeScan(es, Some(cur)).0
      == es[..j] + [es[j].(action := cur.action, src := DstOrEmpty(es[j]), dst := None)] + es[j + 1..]
    ensures MergeScan(es, Some(cur)).1.None?
  {
    assert MergeStep(es[j], cur) == Step([es[j].(action := cur.action, src := DstOrEmpty(es[j]), dst := None)], None);
    ScanAt(es, j, cur);
    assert MergeScan(es[..j], None).0 == es[..j];
  }

  /** del-file(a) after a queued creation of `a`: both vanish. */
  lemma DeleteCancelsNewFile(es: seq<Entry>, j: nat, cur: Entry)
    requires cur.action == ACT_DEL_FILE && j < |es|
    requires es[j].action < ACT_NEW_FOLDER && es[j].src == cur.src
    requires AllPass(es[j + 1..], cur)
    ensures MergeScan(es, Some(cur)).0 == es[..j] + es[j + 1..]
    ensures MergeResult(es, cur) == Dedup(es[..j] + es[j + 1..], None)
  {
    assert MergeStep(es[j], cur) == Step([], None);
    ScanAt(es, j, cur);
    AppendNil(es[..j]);
    assert MergeScan(es[..j], None).0 == es[..j];
  }

  /** del-file(a) after a queued rename-file(x, a): the rename becomes
      del-file(x) and the delete is dropped. */
  lemma DeleteAfterRename(es: seq<Entry>, j: nat, cur: Entry)
    requires cur.action == ACT_DEL_FILE && j < |es|
    requires es[j].action == ACT_RENAME_FILE && DstOrEmpty(es[j]) == cur.src
    requires AllPass(es[j + 1..], cur)
    ensures MergeScan(es, Some(cur)).0 == es[..j] + [es[j].(action := ACT_DEL_FILE, dst := None)] + es[j + 1..]
    ensures MergeScan(es, Some(cur)).1.None?
  {
    assert MergeStep(es[j], cur) == Step([es[j].(action := ACT_DEL_FILE, dst := None)], None);
    ScanAt(es, j, cur);
    assert MergeScan(es[..j], None).0 == es[..j];
  }

  lemma RenameStepOnNew(vc: Entry, cur: Entry)
    requires cur.action == ACT_RENAME_FILE && vc.action <= ACT_NEW_SYMLINK && vc.src == cur.src
    ensures MergeStep(vc, cur) == Step([], Some(cur.(action := vc.action, src := DstOrEmpty(cur), dst := None)))
  {
  }

  /** rename-file(a, b) after a queued creation of `a`: the creation is
      removed and the scan goes on with that creation, now of `b`. */
  lemma RenameAfterNewFile(es: seq<Entry>, j: nat, cur: Entry, next: Entry)
    requires cur.action == ACT_RENAME_FILE && j < |es|
    requires es[j].action <= ACT_NEW_SYMLINK && es[j].src == cur.src
    requires AllPass(es[j + 1..], cur)
    requires next == cur.(action := es[j].action, src := DstOrEmpty(cur), dst := None)
    ensures MergeScan(es, Some(cur)).0 == MergeScan(es[..j], Some(next)).0 + es[j + 1..]
    ensures MergeScan(es, Some(cur)).1 == MergeScan(es[..j], Some(next)).1
  {
    RenameStepOnNew(es[j], cur);
    ScanAt(es, j, cur);
    AppendNil(MergeScan(es[..j], Some(next)).0);
  }

  /** rename-file(a, b) after a queued del-file(b): the delete is removed
      and the scan goes on with del-file(a). */
  lemma RenameAfterDelete(es: seq<Entry>, j: nat, cur: Entry)
    requires cur.action == ACT_RENAME_FILE && j < |es|
    requires es[j].action == ACT_DEL_FILE && es[j].src == DstOrEmpty(cur)
    requires AllPass(es[j + 1..], cur)
    ensures MergeScan(es, Some(cur)).0
      == MergeScan(es[..j], Some(cur.(action := ACT_DEL_FILE, dst := None))).0 + es[j + 1..]
    ensures MergeScan(es, Some(cur)).1 == MergeScan(es[..j], Some(cur.(action := ACT_DEL_FILE, dst := None))).1
  {
    var m := MergeStep(es[j], cur);
    assert m.prev == [] && m.cur == Some(cur.(action := ACT_DEL_FILE, dst := None));
    ScanAt(es, j, cur);
    AppendNil(MergeScan(es[..j], Some(cur.(action := ACT_DEL_FILE, dst := None))).0);
  }

  /** rename-file(a, b) after a queued rename-file(b, a): only the queued
      rename is removed; the incoming one goes on unchanged. */
  lemma RenameAfterReverse(es: seq<Entry>, j: nat, cur: Entry)
    requires cur.action == ACT_RENAME_FILE && j < |es|
    requires es[j].action == ACT_RENAME_FILE && DstOrEmpty(es[j]) == cur.src && es[j].src == DstOrEmpty(cur)
    requires AllPass(es[j + 1..], cur)
    ensures MergeScan(es, Some(cur)).0 == MergeScan(es[..j], Some(cur)).0 + es[j + 1..]
    ensures MergeScan(es, Some(cur)).1 == MergeScan(es[..j], Some(cur)).1
  {
    var m := MergeStep(es[j], cur);
    assert m.prev == [] && m.cur == Some(cur);
    ScanAt(es, j, cur);
    AppendNil(MergeScan(es[..j], Some(cur)).0);
  }

  /** Folder actions have no merge function: they are queued as they
      come. */
  lemma FolderActionsNotMerged(es: seq<Entry>, cur: Entry)
    requires cur.action == ACT_NEW_FOLDER || cur.action == ACT_DEL_FOLDER || cur.action == ACT_RENAME_FOLDER
    ensures Queued(es, cur) == es + [cur]
  {
  }

  /** `r` is `es` with the entries just before the newest one that repeat
      it taken out: the newest entry stays last, what precedes it is a
      prefix of `es`, every entry dropped repeats the newest, and the one
      left before it (if any) does not. */
  ghost predicate KeepsNewest(es: seq<Entry>, r: seq<Entry>)
    requires es != []
  {
    r != [] && r[|r| - 1] == es[|es| - 1] && IsPrefix(r[..|r| - 1], es)
    && (|r| >= 2 ==> !Same(es[|es| - 1], r[|r| - 2]))
    && forall i :: |r| - 1 <= i < |es| - 1 ==> Same(es[|es| - 1], es[i])
  }

  /** What `DropRun` leaves of a queue without its newest entry is a
      prefix of the whole queue, and what it drops before that entry
      repeats it. */
  lemma DropRunPrefix(es: seq<Entry>, d: seq<Entry>)
    requires es != [] && d == DropRun(es[..|es| - 1], es[|es| - 1])
    ensures IsPrefix(d, es)
    ensures forall i :: |d| <= i < |es| - 1 ==> Same(es[|es| - 1], es[i])
  {
    var front := es[..|es| - 1];
    assert es[..|d|] == front[..|d|];
    forall i | |d| <= i < |es| - 1
      ensures Same(es[|es| - 1], es[i])
    {
      assert es[i] == front[i];
    }
  }

  /** The run the duplicate pass drops, with the newest entry put back. */
  lemma DropRunKeeps(es: seq<Entry>)
    requires es != []
    ensures KeepsNewest(es, DropRun(es[..|es| - 1], es[|es| - 1]) + [es[|es| - 1]])
  {
    var tail := es[|es| - 1];
    var d := DropRun(es[..|es| - 1], tail);
    var r := d + [tail];
    DropRunPrefix(es, d);
    assert r[..|r| - 1] == d;
    assert r[|r| - 1] == tail;
    if |r| >= 2 {
      assert r[|r| - 2] == d[|d| - 1];
    }
  }

  /** The duplicate pass: when the incoming entry survives, nothing was
      removed and it differs from the newest entry; otherwise it repeats the
      newest entry and the run of repeats before that entry is gone. */
  lemma DedupMeans(es: seq<Entry>, cur: Option<Entry>)
    requires es != []
    ensures Dedup(es, cur).1.Some? ==> Dedup(es, cur).0 == es && !Same(cur.value, es[|es| - 1])
    ensures Dedup(es, cur).1.None? ==> cur.None? || Same(cur.value, es[|es| - 1])
    ensures Dedup(es, cur).1.None? ==> KeepsNewest(es, Dedup(es, cur).0)
  {
    if !(cur.Some? && !Same(cur.value, es[|es| - 1])) {
      DropRunKeeps(es);
    }
  }

  /** The memory an entry still to be queued holds. */
  function Held(cur: Option<Entry>): nat
  {
    if cur.Some? then cur.value.size as nat else 0
  }

  /** One merge step hands on no more memory than the queued entry and the
      incoming one held. */
  lemma StepMemory(vc: Entry, cur: Entry)
    requires HasMergeFn(cur.action)
    ensures Memory(MergeStep(vc, cur).prev) + Held(MergeStep(vc, cur).cur) <= vc.size + cur.size
  {
    var m := MergeStep(vc, cur);
    if m.prev != [] {
      assert m.prev == [m.prev[0]];
      assert Memory(m.prev[1..]) == 0;
    }
  }

  /** A merge never makes the queue hold more memory than it did plus the
      incoming entry. */
  lemma {:induction false} ScanMemory(es: seq<Entry>, cur: Option<Entry>)
    ensures Memory(MergeScan(es, cur).0) + Held(MergeScan(es, cur).1) <= Memory(es) + Held(cur)
    decreases |es|
  {
    if !(cur.None? || es == [] || !HasMergeFn(cur.value.action)) {
      var n := |es| - 1;
      var m := MergeStep(es[n], cur.value);
      var rest := MergeScan(es[..n], m.cur);
      assert MergeScan(es, cur) == (rest.0 + m.prev, rest.1);
      ScanMemory(es[..n], m.cur);
      StepMemory(es[n], cur.value);
      assert es == es[..n] + [es[n]];
      MemoryAppend(es[..n], [es[n]]);
      assert Memory([es[n]]) == es[n].size by {
        assert [es[n]][1..] == [];
      }
      MemoryAppend(rest.0, m.prev);
    }
  }

  lemma {:induction false} PrefixMemory(p: seq<Entry>, es: seq<Entry>)
    requires IsPrefix(p, es)
    ensures Memory(p) <= Memory(es)
  {
    assert es == p + es[|p|..];
    MemoryAppend(p, es[|p|..]);
  }

  /** The duplicate pass only frees memory. */
  lemma DedupMemory(es: seq<Entry>, cur: Option<Entry>)
    ensures Memory(Dedup(es, cur).0) + Held(Dedup(es, cur).1) <= Memory(es) + Held(cur)
  {
    if es != [] && !(cur.Some? && !Same(cur.value, es[|es| - 1])) {
      var tail := es[|es| - 1];
      var d := DropRun(es[..|es| - 1], tail);
      PrefixMemory(d, es[..|es| - 1]);
      assert es == es[..|es| - 1] + [tail];
      MemoryAppend(es[..|es| - 1], [tail]);
      MemoryAppend(d, [tail]);
    }
  }

  /** Merging `cur` into the queue leaves it holding no more memory than
      before plus `cur`. */
  lemma QueuedMemory(es: seq<Entry>, cur: Entry)
    ensures Memory(Queued(es, cur)) <= Memory(es) + cur.size
  {
    var r := MergeResult(es, cur);
    var last := if r.1.Some? then [r.1.value] else [];
    MemoryAppend(r.0, last);
    assert Memory(last) == Held(r.1) by {
      if r.1.Some? {
        assert last[1..] == [];
      }
    }
    if HasMergeFn(cur.action) {
      var m := MergeScan(es, Some(cur));
      ScanMemory(es, Some(cur));
      DedupMemory(m.0, m.1);
      assert r == Dedup(m.0, m.1);
    }
  }

  // ---------------------------------------------------------------
  // Well-formed entries stay well formed
  // ---------------------------------------------------------------

  lemma StepWellFormed(vc: Entry, cur: Entry)
    requires HasMergeFn(cur.action) && WellFormed(vc) && WellFormed(cur)
    ensures AllWellFormed(MergeStep(vc, cur).prev)
    ensures MergeStep(vc, cur).cur.Some? ==> WellFormed(MergeStep(vc, cur).cur.value)
  {
  }

  lemma {:induction false} ScanWellFormed(es: seq<Entry>, cur: Option<Entry>)
    requires AllWellFormed(es) && (cur.Some? ==> WellFormed(cur.value))
    ensures AllWellFormed(MergeScan(es, cur).0)
    ensures MergeScan(es, cur).1.Some? ==> WellFormed(MergeScan(es, cur).1.value)
    decreases |es|
  {
    if !(cur.None? || es == [] || !HasMergeFn(cur.value.action)) {
      var n := |es| - 1;
      var m := MergeStep(es[n], cur.value);
      assert WellFormed(es[n]);
      StepWellFormed(es[n], cur.value);
      assert AllWellFormed(es[..n]) by {
        forall i | 0 <= i < n ensures WellFormed(es[..n][i]) {
          assert es[..n][i] == es[i];
        }
      }
      ScanWellFormed(es[..n], m.cur);
      var q := MergeScan(es[..n], m.cur).0;
      forall i | 0 <= i < |q + m.prev| ensures WellFormed((q + m.prev)[i]) {
        if i < |q| {
          assert (q + m.prev)[i] == q[i];
        } else {
          assert (q + m.prev)[i] == m.prev[i - |q|];
        }
      }
    }
  }

  /** Merging keeps every queued entry well formed: the stream encoding
      below can then be read back. */
  lemma QueuedWellFormed(es: seq<Entry>, cur: Entry)
    requires AllWellFormed(es) && WellFormed(cur)
    ensures AllWellFormed(Queued(es, cur))
  {
    var r := MergeResult(es, cur);
    if HasMergeFn(cur.action) {
      var m := MergeScan(es, Some(cur));
      ScanWellFormed(es, Some(cur));
      if m.0 != [] && !(m.1.Some? && !Same(m.1.value, m.0[|m.0| - 1])) {
        var tail := m.0[|m.0| - 1];
        var d := DropRun(m.0[..|m.0| - 1], tail);
        forall i | 0 <= i < |d| ensures WellFormed(d[i]) {
          assert d[i] == m.0[i];
        }
      }
    }
    var q := r.0 + (if r.1.Some? then [r.1.value] else []);
    forall i | 0 <= i < |q| ensures WellFormed(q[i]) {
      if i < |r.0| {
        assert q[i] == r.0[i];
      }
    }
  }

  // ---------------------------------------------------------------
  // Eviction
  // ---------------------------------------------------------------

  /** Dropping the `d` oldest entries of `es` is what `remove_oldest`
      does: each dropped entry was dropped while the memory was still over
      the bound, and afterwards the memory is within it or the queue is
      empty. */
  predicate Evicted(es: seq<Entry>, d: nat)
  {
    d <= |es|
    && (Memory(es[d..]) <= MAX_VFS_CHANGE_MEM || d == |es|)
    && forall k :: 0 <= k < d ==> Memory(es[k..]) > MAX_VFS_CHANGE_MEM
  }

  // ---------------------------------------------------------------
  // The byte stream (move_vfs_changes)
  // ---------------------------------------------------------------

  /** One item of the stream: the action byte, the source and its NUL,
      and the destination and its NUL when there is one. */
  function Encode(e: Entry): (r: Bytes)
    ensures |r| == 2 + |e.src| + (if e.dst.Some? then |e.dst.value| + 1 else 0)
    ensures r[0] == e.action && r[1..1 + |e.src|] == e.src && r[1 + |e.src|] == NUL
  {
    [e.action] + e.src + [NUL] + (if e.dst.Some? then e.dst.value + [NUL] else [])
  }

  function EncodeAll(es: seq<Entry>): Bytes
  {
    if es == [] then [] else Encode(es[0]) + EncodeAll(es[1..])
  }

  lemma {:induction false} EncodeAllSnoc(es: seq<Entry>, e: Entry)
    ensures EncodeAll(es + [e]) == EncodeAll(es) + Encode(e)
  {
    if es == [] {
      assert [] + [e] == [e];
    } else {
      assert (es + [e])[1..] == es[1..] + [e];
      EncodeAllSnoc(es[1..], e);
    }
  }

  /** How many of the oldest entries fit, one after the other, into
      `room` bytes, stopping at the first that does not. */
  function Taken(es: seq<Entry>, room: nat): (n: nat)
    ensures n <= |es|
  {
    if es == [] || |Encode(es[0])| > room then 0
    else 1 + Taken(es[1..], room - |Encode(es[0])|)
  }

  /** The copying loop of `move_vfs_changes`: each entry that still fits
      is encoded after the previous ones, and the loop stops at the first
      that does not. `freed` is what `REMOVE_ENTRY` takes off
      `total_memory` for the entries taken. */
  method MoveScan(es: seq<Entry>, size: nat) returns (data: Bytes, items: nat, freed: nat)
    ensures items == Taken(es, size)
    ensures data == EncodeAll(es[..items])
    ensures |data| <= size
    ensures freed == Memory(es[..items])
  {
    data, items, freed := [], 0, 0;
    while items < |es|
      invariant items <= |es|
      invariant data == EncodeAll(es[..items])
      invariant |data| <= size
      invariant Taken(es, size) == items + Taken(es[items..], size - |data|)
      invariant freed == Memory(es[..items])
      decreases |es| - items
    {
      var vc := es[items];
      var thisLen := 1 + |vc.src| + 1;
      if vc.dst.Some? {
        thisLen := thisLen + |vc.dst.value| + 1;
      }
      if thisLen + |data| > size {
        break;
      }
      assert es[..items + 1] == es[..items] + [vc];
      assert es[items..][1..] == es[items + 1..];
      EncodeAllSnoc(es[..items], vc);
      MemoryAppend(es[..items], [vc]);
      data := data + Encode(vc);
      freed := freed + vc.size;
      items := items + 1;
    }
  }

  // ---------------------------------------------------------------
  // The text lines (copy_vfs_changes)
  // ---------------------------------------------------------------

  /** One debugging line: the stamp (the formatted time and action name
      with their trailing space), the source, a space and the destination
      for a rename, and a newline. */
  function Line(e: Entry, stamp: Bytes): Bytes
  {
    stamp + e.src + (if e.dst.Some? then [SPACE] + e.dst.value else []) + [NEWLINE]
  }

  /** What `copy_vfs_changes` writes into `room` bytes: the lines of the
      entries newer than `last` (which moves forward with every line), up
      to the first line that does not fit; and the time stamp it leaves in
      `last`. */
  function CopyScan(es: seq<Entry>, last: nat, room: nat, stamp: (nat, byte) -> Bytes): (r: (Bytes, nat))
    ensures |r.0| <= room
    ensures r.1 >= last
  {
    if es == [] then ([], last)
    else if es[0].ts <= last then CopyScan(es[1..], last, room, stamp)
    else
      var line := Line(es[0], stamp(es[0].ts, es[0].action));
      if |line| > room then ([], last)
      else
        var rest := CopyScan(es[1..], es[0].ts, room - |line|, stamp);
        (line + rest.0, rest.1)
  }

  // ---------------------------------------------------------------
  // The queue
  // ---------------------------------------------------------------

  /** The global list `vfs_changes` and its counters. */
  class ChangeQueue {
    var entries: seq<Entry>
    var discarded: nat
    var totalChanges: nat
    var curChanges: int
    var totalMemory: int
    /** The `merge_actions` module parameter. */
    var mergeActions: bool

    /** `cur_changes` is the queue's length and `total_memory` the sum of
        its recorded sizes. */
    ghost predicate Valid()
      reads this
    {
      curChanges == |entries| && totalMemory == Memory(entries)
    }

    constructor(merge: bool)
      ensures Valid() && entries == [] && mergeActions == merge
      ensures discarded == 0 && totalChanges == 0
    {
      entries, discarded, totalChanges, curChanges, totalMemory := [], 0, 0, 0, 0;
      mergeActions := merge;
    }

    /** `remove_oldest`. */
    method RemoveOldest() returns (ghost dropped: nat)
      requires Valid()
      modifies this
      ensures Valid()
      ensures Evicted(old(entries), dropped)
      ensures entries == old(entries)[dropped..]
      ensures discarded == old(discarded) + dropped
      ensures totalChanges == old(totalChanges) && mergeActions == old(mergeActions)
    {
      dropped := 0;
      while totalMemory > MAX_VFS_CHANGE_MEM as int && entries != []
        invariant Valid()
        invariant dropped <= |old(entries)| && entries == old(entries)[dropped..]
        invariant discarded == old(discarded) + dropped
        invariant totalChanges == old(totalChanges) && mergeActions == old(mergeActions)
        invariant forall k :: 0 <= k < dropped ==> Memory(old(entries)[k..]) > MAX_VFS_CHANGE_MEM
        decreases |entries|
      {
        totalMemory := totalMemory - entries[0].size;
        assert old(entries)[dropped + 1..] == entries[1..];
        entries := entries[1..];
        curChanges := curChanges - 1;
        discarded := discarded + 1;
        dropped := dropped + 1;
      }
    }

    /** `merge_action`, removing and rewriting queued entries. */
    method MergeAction(cur: Entry) returns (kept: Option<Entry>)
      requires Valid()
      modifies this
      ensures Valid()
      ensures (entries, kept) == MergeResult(old(entries), cur)
      ensures discarded == old(discarded) && totalChanges == old(totalChanges)
      ensures mergeActions == old(mergeActions)
    {
      if !HasMergeFn(cur.action) {
        return Some(cur);
      }
      var es, c, n1, m1 := ScanMerges(entries, cur);
      var es2, c2, n2, m2 := DedupRun(es, c);
      entries := es2;
      curChanges := curChanges - (n1 + n2);
      totalMemory := totalMemory - (m1 + m2);
      kept := c2;
    }

    /** `vfs_changed`: evict, build the entry with `root` prefixed to its
        paths, merge it in and queue what is left. `ts` is the clock
        reading and `allocOk` whether the allocation succeeds. */
    method VfsChanged(act: byte, root: Option<Bytes>, src: Bytes, dst: Option<Bytes>, ts: nat, allocOk: bool)
      returns (ghost dropped: nat, ghost queued: bool)
      requires Valid()
      modifies this
      ensures Valid()
      ensures Evicted(old(entries), dropped)
      ensures discarded == old(discarded) + dropped
      ensures !allocOk ==> entries == old(entries)[dropped..] && !queued
      ensures allocOk && !mergeActions ==>
        entries == old(entries)[dropped..] + [NewEntry(act, root, src, dst, ts)] && queued
      ensures allocOk && mergeActions ==>
        entries == Queued(old(entries)[dropped..], NewEntry(act, root, src, dst, ts))
      ensures totalChanges == old(totalChanges) + (if queued then 1 else 0)
      ensures mergeActions == old(mergeActions)
      ensures totalMemory <= MAX_VFS_CHANGE_MEM + 0xFFFF
    {
      dropped := RemoveOldest();
      queued := false;
      if !allocOk {
        return;
      }
      var vc := NewEntry(act, root, src, dst, ts);
      if mergeActions {
        QueuedMemory(entries, vc);
        var kept := MergeAction(vc);
        if kept.None? {
          return;
        }
        vc := kept.value;
      }
      MemoryAppend(entries, [vc]);
      entries := entries + [vc];
      totalChanges := totalChanges + 1;
      curChanges := curChanges + 1;
      totalMemory := totalMemory + vc.size;
      queued := true;
    }

    /** `move_vfs_changes`: hands the oldest entries that fit into `size`
        bytes to the reader, encoded, and removes them; `items` is the
        count reported back in `kira.size`. `allocOk` is whether the
        kernel buffer could be allocated. */
    method MoveChanges(size: nat, allocOk: bool) returns (err: int, data: Bytes, items: nat)
      requires Valid()
      modifies this
      ensures Valid()
      ensures !allocOk ==> err == -ENOMEM && data == [] && items == 0 && entries == old(entries)
      ensures allocOk ==> err == 0 && items == Taken(old(entries), size)
      ensures data == EncodeAll(old(entries)[..items])
      ensures entries == old(entries)[items..]
      ensures |data| <= size
      ensures discarded == old(discarded) && totalChanges == old(totalChanges)
      ensures mergeActions == old(mergeActions)
    {
      data, items := [], 0;
      if !allocOk {
        return -ENOMEM, data, items;
      }
      err := 0;
      var freed;
      data, items, freed := MoveScan(entries, size);
      MemoryAppend(entries[..items], entries[items..]);
      assert entries == entries[..items] + entries[items..];
      entries := entries[items..];
      curChanges := curChanges - items;
      totalMemory := totalMemory - freed;
    }

    /** `copy_vfs_changes`: the debugging text of the entries newer than
        `last`, within `size` bytes; the queue is left as it is. `stamp`
        gives the formatted time and action name of an entry. */
    method CopyChanges(last: nat, size: nat, stamp: (nat, byte) -> Bytes) returns (out: Bytes, newLast: nat)
      ensures out == CopyScan(entries, last, size, stamp).0 && newLast == CopyScan(entries, last, size, stamp).1
      ensures |out| <= size && newLast >= last
    {
      out, newLast := [], last;
      var i := 0;
      assert entries[0..] == entries && out + CopyScan(entries, last, size, stamp).0 == CopyScan(entries, last, size, stamp).0;
      while i < |entries|
        invariant 0 <= i <= |entries| && |out| <= size && newLast >= last
        invariant CopyScan(entries, last, size, stamp).0 == out + CopyScan(entries[i..], newLast, size - |out|, stamp).0
        invariant CopyScan(entries, last, size, stamp).1 == CopyScan(entries[i..], newLast, size - |out|, stamp).1
      {
        var vc := entries[i];
        assert entries[i..][1..] == entries[i + 1..];
        if vc.ts <= newLast {
          i := i + 1;
          continue;
        }
        var line := Line(vc, stamp(vc.ts, vc.action));
        if |line| + |out| > size {
          assert CopyScan(entries[i..], newLast, size - |out|, stamp).0 == [];
          break;
        }
        out := out + line;
        newLast := vc.ts;
        i := i + 1;
      }
    }
  }
}

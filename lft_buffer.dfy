/** The LFT buffer object (`struct __fs_buf__`) and the operations that edit
    it in place: the byte buffer `head` of `capacity` bytes, the end of the
    data `tail`, and the offset of the first name after the root path. */
module LftBuffer {
  import opened Common
  import opened LftLayout
  import opened LftSpec

  /** What `new_fs_buf` accepts: a root of at most `capacity - 2^20` bytes
      that starts and ends with '/', and a capacity of at most 2^30. */
  predicate Accepts(capacity: u32, root: Option<Bytes>)
  {
    root.Some? && capacity <= MAX_FSBUF_SIZE && |root.value| + FS_NEW_BLK_SIZE <= capacity
    && root.value != [] && root.value[0] == SLASH && root.value[|root.value| - 1] == SLASH
  }

  /** `add_capacity`'s allocation: `size` rounded up to whole blocks. */
  function BlockRound(size: nat): (r: nat)
    ensures r % FS_NEW_BLK_SIZE == 0 && size <= r < size + FS_NEW_BLK_SIZE
  {
    var a := size / FS_NEW_BLK_SIZE * FS_NEW_BLK_SIZE;
    if a < size then a + FS_NEW_BLK_SIZE else a
  }

  /** The bytes `insert_new_name` adds: the name, its NUL, its tag, and a
      parent tag when it starts a directory's list. */
  function Extra(name: Bytes, isDir: bool, parentTag: bool): nat
  {
    |name| + 1 + (if isDir then 4 else 1) + (if parentTag then 5 else 0)
  }

  /** The tail once `extra` bytes were inserted before it. */
  function Grown(tail: nat, extra: nat): nat
  {
    tail + extra
  }

  /** `g` is `h` with `name` and its tag inserted at `off` and the old bytes
      from `off` to `tail` moved up by `extra`. */
  ghost predicate Inserted(h: Bytes, g: Bytes, tail: nat, off: nat, name: Bytes, isDir: bool, extra: nat)
  {
    off <= tail && off + |name| + 1 + (if isDir then 4 else 1) <= off + extra && tail + extra <= |g|
    && |h| <= |g| && tail <= |h|
    && g[..off] == h[..off]
    && g[off..off + |name|] == name && g[off + |name|] == 0
    && (if isDir then Get32(g, off + |name| + 1) == FS_TAG_DIR else g[off + |name| + 1] == FS_TAG_FILE)
    && g[off + extra..tail + extra] == h[off..tail]
  }

  /** An inserted entry reads back: its name, its kind, no children, and
      `next_name` skips exactly the name, its NUL and its 1- or 4-byte tag. */
  lemma InsertedEntry(h: Bytes, g: Bytes, tail: nat, off: nat, name: Bytes, isDir: bool, extra: nat)
    requires CString(name) && Inserted(h, g, tail, off, name, isDir, extra)
    ensures Name(g, off) == name && IsFile(g, off) == !isDir && KidsOffset(g, off) == 0
    ensures NextName(g, off) == off + |name| + 1 + (if isDir then 4 else 1)
  {
    StrLenOf(g, off, name);
  }

  /** Equal slices have equal sub-slices. */
  lemma SameRange(a: Bytes, b: Bytes, lo: nat, hi: nat, i: nat, j: nat)
    requires lo <= i <= j <= hi <= |a| && hi <= |b| && a[lo..hi] == b[lo..hi]
    ensures a[i..j] == b[i..j]
  {
    assert forall k :: i <= k < j ==> a[k] == a[lo..hi][k - lo] == b[lo..hi][k - lo] == b[k];
  }

  /** Equal suffixes have equal sub-slices. */
  lemma SameSuffixRange(a: Bytes, b: Bytes, lo: nat, i: nat, j: nat)
    requires lo <= i <= j <= |a| == |b| && a[lo..] == b[lo..]
    ensures a[i..j] == b[i..j]
  {
    assert forall k :: i <= k < j ==> a[k] == a[lo..][k - lo] == b[lo..][k - lo] == b[k];
  }

  /** `memmove` of the bytes from `off` to `tail` up by `extra`. */
  lemma MoveStep(h: Bytes, m: Bytes, tail: nat, off: nat, extra: nat)
    requires off <= tail && tail + extra <= |h|
    requires m == if tail > off then Move(h, off, off + extra, tail - off) else h
    ensures |m| == |h| && m[..off] == h[..off] && m[off + extra..tail + extra] == h[off..tail]
  {
    assert forall k :: 0 <= k < off ==> m[k] == h[k];
  }

  /** `strcpy` of the name and its NUL at `off`. */
  lemma WriteStep(m: Bytes, w: Bytes, off: nat, name: Bytes)
    requires off + |name| + 1 <= |m| && w == Write(m, off, name + [0])
    ensures |w| == |m| && w[..off] == m[..off] && w[off..off + |name| + 1] == name + [0]
    ensures w[off + |name| + 1..] == m[off + |name| + 1..]
  {
    assert forall k :: 0 <= k < off ==> w[k] == m[k];
    assert forall k :: off + |name| + 1 <= k < |m| ==> w[k] == m[k];
  }

  /** Storing a tag leaves the bytes before and after it alone. */
  lemma TagStep(w: Bytes, g: Bytes, t: nat, isDir: bool)
    requires t + (if isDir then 4 else 1) <= |w|
    requires g == if isDir then Put32(w, t, FS_TAG_DIR) else Put(w, t, FS_TAG_FILE)
    ensures |g| == |w| && g[..t] == w[..t] && g[t + (if isDir then 4 else 1)..] == w[t + (if isDir then 4 else 1)..]
    ensures if isDir then Get32(g, t) == FS_TAG_DIR else g[t] == FS_TAG_FILE
  {
    var n := if isDir then 4 else 1;
    if isDir {
      Get32Put32(w, t, FS_TAG_DIR);
    }
    assert forall k :: 0 <= k < t ==> g[k] == w[k] by {
      forall k | 0 <= k < t
        ensures g[k] == w[k]
      {
        assert At(g, k) == At(w, k);
      }
    }
    assert forall k :: t + n <= k < |w| ==> g[k] == w[k] by {
      forall k | t + n <= k < |w|
        ensures g[k] == w[k]
      {
        assert At(g, k) == At(w, k);
      }
    }
  }

  /** The three steps of `insert_new_name` together make an insertion. */
  lemma InsertSteps(h: Bytes, m: Bytes, w: Bytes, g: Bytes, tail: nat, off: nat, name: Bytes, isDir: bool, extra: nat)
    requires off <= tail && tail + extra <= |h|
    requires off + |name| + 1 + (if isDir then 4 else 1) <= off + extra
    requires m == MoveUp(h, tail, off, extra) && w == CopyName(m, off, name) && g == StoreTag(w, off + |name| + 1, isDir)
    ensures Inserted(h, g, tail, off, name, isDir, extra)
  {
    var t := off + |name| + 1;
    var n := if isDir then 4 else 1;
    SameRange(g, w, 0, t, 0, off);
    SameRange(g, w, 0, t, off, off + |name|);
    assert w[off..off + |name|] == (name + [0])[..|name|];
    assert g[off + |name|] == g[..t][off + |name|];
    SameSuffixRange(g, w, t + n, off + extra, tail + extra);
    SameSuffixRange(w, m, t, off + extra, tail + extra);
  }

  /** Growing the buffer first does not matter: the result is an insertion
      into the bytes before the growth. */
  lemma InsertedOnPrefix(h0: Bytes, h: Bytes, g: Bytes, tail: nat, off: nat, name: Bytes, isDir: bool, extra: nat)
    requires |h0| <= |h| && h[..|h0|] == h0 && tail <= |h0|
    requires Inserted(h, g, tail, off, name, isDir, extra)
    ensures Inserted(h0, g, tail, off, name, isDir, extra)
  {
    SameRange(h, h0, 0, |h0|, 0, off);
    SameRange(h, h0, 0, |h0|, off, tail);
  }

  /** `memmove(head + off + extra, head + off, tail - off)` when `tail > off`. */
  function MoveUp(h: Bytes, tail: nat, off: nat, extra: nat): (m: Bytes)
    requires off <= tail && tail + extra <= |h|
    ensures |m| == |h| && m[..off] == h[..off] && m[off + extra..tail + extra] == h[off..tail]
  {
    var m := if tail > off then Move(h, off, off + extra, tail - off) else h;
    MoveStep(h, m, tail, off, extra);
    m
  }

  /** `memcpy(head + off, name, strlen(name) + 1)`. */
  function CopyName(m: Bytes, off: nat, name: Bytes): (w: Bytes)
    requires off + |name| + 1 <= |m|
    ensures |w| == |m| && w[..off] == m[..off] && w[off..off + |name| + 1] == name + [0]
    ensures w[off + |name| + 1..] == m[off + |name| + 1..]
  {
    var w := Write(m, off, name + [0]);
    WriteStep(m, w, off, name);
    w
  }

  /** A fresh tag at `t`: the 4-byte FS_TAG_DIR or the 1-byte FS_TAG_FILE. */
  function StoreTag(w: Bytes, t: nat, isDir: bool): (g: Bytes)
    requires t + (if isDir then 4 else 1) <= |w|
    ensures |g| == |w| && g[..t] == w[..t] && g[t + (if isDir then 4 else 1)..] == w[t + (if isDir then 4 else 1)..]
    ensures if isDir then Get32(g, t) == FS_TAG_DIR else g[t] == FS_TAG_FILE
  {
    var g := if isDir then Put32(w, t, FS_TAG_DIR) else Put(w, t, FS_TAG_FILE);
    TagStep(w, g, t, isDir);
    g
  }

  /** The byte edits of `insert_new_name` once there is room: move the bytes
      from `off` to `tail` up by `extra`, copy the name and its NUL to
      `off`, and store a fresh tag after them. */
  function NameAt(h: Bytes, tail: nat, off: nat, name: Bytes, isDir: bool, extra: nat): (g: Bytes)
    requires off <= tail && tail + extra <= |h| && off + |name| + 1 + (if isDir then 4 else 1) <= off + extra
    ensures |g| == |h|
  {
    var m := MoveUp(h, tail, off, extra);
    var w := CopyName(m, off, name);
    StoreTag(w, off + |name| + 1, isDir)
  }

  /** Those edits make an insertion. */
  lemma NameAtInserted(h: Bytes, tail: nat, off: nat, name: Bytes, isDir: bool, extra: nat)
    requires off <= tail && tail + extra <= |h| && off + |name| + 1 + (if isDir then 4 else 1) <= off + extra
    ensures Inserted(h, NameAt(h, tail, off, name, isDir, extra), tail, off, name, isDir, extra)
  {
    var m := MoveUp(h, tail, off, extra);
    var w := CopyName(m, off, name);
    var g := StoreTag(w, off + |name| + 1, isDir);
    InsertSteps(h, m, w, g, tail, off, name, isDir, extra);
  }

  /** `insert_new_name` makes an insertion into the bytes it was given,
      whether or not it had to grow the buffer first. */
  lemma RoomNameInserted(h: Bytes, tail: nat, off: nat, name: Bytes, isDir: bool, parentTag: bool)
    requires off <= tail <= |h|
    ensures var extra := Extra(name, isDir, parentTag);
      Inserted(h, NameAt(Room(h, tail, extra), tail, off, name, isDir, extra), tail, off, name, isDir, extra)
  {
    var extra := Extra(name, isDir, parentTag);
    NameAtInserted(Room(h, tail, extra), tail, off, name, isDir, extra);
    InsertedOnPrefix(h, Room(h, tail, extra), NameAt(Room(h, tail, extra), tail, off, name, isDir, extra), tail, off, name, isDir, extra);
  }

  /** The buffer with room for `size` more bytes: `add_capacity` grows it by
      whole blocks when the data would reach the capacity (the new bytes
      are taken as zero). */
  function Room(h: Bytes, tail: nat, size: nat): (r: Bytes)
    ensures |h| <= |r| && r[..|h|] == h
    ensures tail <= |h| ==> tail + size <= |r|
    ensures |h| <= MAX_FSBUF_SIZE && !RoomFails(h, tail, size, true) ==> |r| <= MAX_FSBUF_SIZE
  {
    if size + tail >= |h| then h + Zeros(BlockRound(size)) else h
  }

  /** `add_capacity` is called, because `size` more bytes would reach the
      capacity, and fails: the grown buffer would pass 2^30 bytes, or
      `realloc` fails (`allocOk` false). */
  predicate RoomFails(h: Bytes, tail: nat, size: nat, allocOk: bool)
  {
    size + tail >= |h| && (|h| + BlockRound(size) > MAX_FSBUF_SIZE || !allocOk)
  }

  /** `UPDATE_KIDS_OFF`: a directory at `off` with children gets its kids
      offset moved by `delta`, and the parent tag that closes the list
      found there is pointed back at `off`; any other name is left alone. */
  function KidsShift(h: Bytes, tail: nat, off: nat, delta: int): (g: Bytes)
    ensures |g| == |h|
  {
    var kids := KidsOffset(h, off);
    if kids == 0 then h
    else
      var nk := MovedKids(kids, delta);
      var k := SetKidsOff(h, off, nk);
      SetParentOffset(k, FolderTail(k, tail, nk), Wrap32(off))
  }

  /** A kids offset moved by `delta`, as the `uint32_t` it is stored in. */
  function MovedKids(kids: nat, delta: int): u32
  {
    Wrap32(kids + delta)
  }

  /** `KidsShift` of a directory with children, step by step. */
  lemma KidsShiftSteps(h: Bytes, tail: nat, off: nat, delta: int, nk: u32, k: Bytes, ft: nat)
    requires KidsOffset(h, off) != 0 && nk == MovedKids(KidsOffset(h, off), delta)
    requires k == SetKidsOff(h, off, nk) && ft == FolderTail(k, tail, nk)
    ensures KidsShift(h, tail, off, delta) == SetParentOffset(k, ft, Wrap32(off))
  {
  }

  /** A name, its tag and its kids offset read the same from two buffers
      that agree on the bytes from the name to the end of a 4-byte tag. */
  lemma {:induction false} EntryStable(h: Bytes, g: Bytes, off: nat)
    requires |g| == |h|
    requires forall k :: off <= k < TagOff(h, off) + 4 ==> At(g, k) == At(h, k)
    ensures Name(g, off) == Name(h, off) && TagOff(g, off) == TagOff(h, off)
    ensures IsFile(g, off) == IsFile(h, off) && KidsOffset(g, off) == KidsOffset(h, off)
  {
    StrLenStable(h, g, off);
    var t := TagOff(h, off);
    assert Get32(g, t) == Get32(h, t) by {
      assert At(g, t) == At(h, t) && At(g, t + 1) == At(h, t + 1);
      assert At(g, t + 2) == At(h, t + 2) && At(g, t + 3) == At(h, t + 3);
    }
  }

  /** A parent tag reads the same from two buffers that agree on its five
      bytes. */
  lemma ParentTagStable(h: Bytes, g: Bytes, t: nat)
    requires forall k :: t <= k < t + 5 ==> At(g, k) == At(h, k)
    ensures At(g, t) == At(h, t) && ParentAt(g, t) == ParentAt(h, t)
  {
    assert Get32(g, t + 1) == Get32(h, t + 1) by {
      assert At(g, t + 1) == At(h, t + 1) && At(g, t + 2) == At(h, t + 2);
      assert At(g, t + 3) == At(h, t + 3) && At(g, t + 4) == At(h, t + 4);
    }
  }

  /** `UPDATE_KIDS_OFF` touches only the directory's 4-byte tag and the
      five bytes of the parent tag it rewrites. */
  lemma KidsShiftFrame(h: Bytes, tail: nat, off: nat, delta: int)
    requires KidsOffset(h, off) != 0
    ensures var k := SetKidsOff(h, off, MovedKids(KidsOffset(h, off), delta));
      var ft := FolderTail(k, tail, MovedKids(KidsOffset(h, off), delta));
      forall i :: !(TagOff(h, off) <= i < TagOff(h, off) + 4) && !(ft <= i < ft + 5) ==>
        At(KidsShift(h, tail, off, delta), i) == At(h, i)
  {
  }

  /** What `UPDATE_KIDS_OFF` writes reads back when the moved list lies
      after the directory's tag and within the data: the name at `off`
      stays, its kids offset is the old one plus `delta`, and the parent
      tag closing that list, when the walk meets one, names `off`. */
  lemma KidsShiftReadsBack(h: Bytes, tail: nat, off: nat, delta: int)
    requires tail + 4 <= |h| <= MAX_FSBUF_SIZE && 5 <= off && KidsOffset(h, off) != 0
    requires TagOff(h, off) + 4 <= KidsOffset(h, off) + delta < tail
    ensures var nk := MovedKids(KidsOffset(h, off), delta); var ft := FolderTail(SetKidsOff(h, off, nk), tail, nk);
      var g := KidsShift(h, tail, off, delta);
      Name(g, off) == Name(h, off) && KidsOffset(g, off) == KidsOffset(h, off) + delta
      && (ft != 0 ==> At(g, ft) == 0 && ParentAt(g, ft) == off)
  {
    var nk := MovedKids(KidsOffset(h, off), delta);
    Wrap32Small(KidsOffset(h, off) + delta);
    Wrap32Small(off);
    var k := SetKidsOff(h, off, nk);
    KidsRoundTrip(h, off, nk);
    var ft := FolderTail(k, tail, nk);
    var g := SetParentOffset(k, ft, off);
    KidsShiftSteps(h, tail, off, delta, nk, k, ft);
    assert forall i :: off <= i < TagOff(k, off) + 4 ==> At(g, i) == At(k, i);
    EntryStable(k, g, off);
    if ft != 0 {
      ParentRoundTrip(k, ft, off);
    }
  }

  /** The first loop of `update_offsets`: `UPDATE_KIDS_OFF` on each name of
      the list from `off` up to `stop`. */
  function ShiftSiblings(h: Bytes, tail: nat, off: nat, stop: nat, delta: int): (g: Bytes)
    ensures |g| == |h|
    decreases stop - off
  {
    if off >= stop then h
    else
      var k := KidsShift(h, tail, off, delta);
      ShiftSiblings(k, tail, NextName(k, off), stop, delta)
  }

  /** The second loop of `update_offsets`: from `off`, `UPDATE_KIDS_OFF` on
      every name after `start` in its list, climbing at each parent tag to
      the parent, which becomes the new start, until the root's tag. */
  function ShiftAncestors(h: Bytes, tail: nat, off: nat, start: nat, fuel: nat, delta: int): (g: Bytes)
    ensures |g| == |h|
    decreases fuel, tail - off
  {
    if off == 0 || off >= tail then h
    else if At(h, off) == 0 then
      var rel := RelOff(h, off + 1);
      if rel == 0 || fuel == 0 then h
      else
        var up := ParentAt(h, off);
        ShiftAncestors(h, tail, up, up, Spent(fuel), delta)
    else
      var k := if off > start then KidsShift(h, tail, off, delta) else h;
      ShiftAncestors(k, tail, NextName(k, off), start, fuel, delta)
  }

  /** `update_offsets` after `delta` bytes were inserted or removed at
      `startOff`: with `siblings`, the earlier names of its list and then
      the later names of its ancestors' lists; otherwise the later names of
      the lists from `startOff` up. */
  function Offsets(h: Bytes, tail: nat, first: nat, startOff: nat, delta: int, siblings: bool): (g: Bytes)
    ensures |g| == |h|
  {
    if siblings then
      var p := ParentOf(h, tail, startOff);
      var s1 := if p == 0 then first else KidsOffset(h, p);
      if s1 == 0 then h
      else
        var s := ShiftSiblings(h, tail, s1, startOff, delta);
        var up := ParentOf(s, tail, startOff);
        ShiftAncestors(s, tail, up, up, FUEL, delta)
    else ShiftAncestors(h, tail, startOff, startOff, FUEL, delta)
  }

  /** One step of the first loop of `update_offsets`. */
  lemma SiblingsStep(h: Bytes, tail: nat, off: nat, stop: nat, delta: int, k: Bytes)
    requires off < stop && k == KidsShift(h, tail, off, delta)
    ensures ShiftSiblings(h, tail, off, stop, delta) == ShiftSiblings(k, tail, NextName(k, off), stop, delta)
  {
  }

  /** One step of the second loop of `update_offsets` over a name. */
  lemma AncestorsStep(h: Bytes, tail: nat, off: nat, start: nat, fuel: nat, delta: int, k: Bytes)
    requires off != 0 && off < tail && At(h, off) != 0
    requires k == if off > start then KidsShift(h, tail, off, delta) else h
    ensures ShiftAncestors(h, tail, off, start, fuel, delta) == ShiftAncestors(k, tail, NextName(k, off), start, fuel, delta)
  {
  }

  /** One step of the second loop of `update_offsets` at a parent tag:
      the walk stops at a root list or when out of fuel, and otherwise
      climbs to the parent. */
  lemma AncestorsClimb(h: Bytes, tail: nat, off: nat, start: nat, fuel: nat, delta: int, rel: nat, up: nat)
    requires off != 0 && off < tail && At(h, off) == 0 && rel == RelOff(h, off + 1)
    requires up == ParentAt(h, off)
    ensures ShiftAncestors(h, tail, off, start, fuel, delta)
      == if rel == 0 || fuel == 0 then h else ShiftAncestors(h, tail, up, up, Spent(fuel), delta)
  {
  }

  /** The second loop of `update_offsets` ends past the last list. */
  lemma AncestorsDone(h: Bytes, tail: nat, off: nat, start: nat, fuel: nat, delta: int)
    requires off == 0 || off >= tail
    ensures ShiftAncestors(h, tail, off, start, fuel, delta) == h
  {
  }

  /** `update_offsets` with siblings, once the first list is known. */
  lemma OffsetsWithSiblings(h: Bytes, tail: nat, first: nat, startOff: nat, delta: int, s1: nat, s: Bytes, up: nat)
    requires var p := ParentOf(h, tail, startOff); s1 == if p == 0 then first else KidsOffset(h, p)
    requires s1 != 0 && s == ShiftSiblings(h, tail, s1, startOff, delta) && up == ParentOf(s, tail, startOff)
    ensures Offsets(h, tail, first, startOff, delta, true) == ShiftAncestors(s, tail, up, up, FUEL, delta)
  {
  }

  /** No name with children: the first loop changes nothing. */
  lemma {:induction false} SiblingsWithoutKids(h: Bytes, tail: nat, off: nat, stop: nat, delta: int)
    requires forall o :: KidsOffset(h, o) == 0
    ensures ShiftSiblings(h, tail, off, stop, delta) == h
    decreases stop - off
  {
    if off < stop {
      SiblingsWithoutKids(h, tail, NextName(h, off), stop, delta);
    }
  }

  /** No name with children: the second loop changes nothing. */
  lemma {:induction false} AncestorsWithoutKids(h: Bytes, tail: nat, off: nat, start: nat, fuel: nat, delta: int)
    requires forall o :: KidsOffset(h, o) == 0
    ensures ShiftAncestors(h, tail, off, start, fuel, delta) == h
    decreases fuel, tail - off
  {
    if off == 0 || off >= tail {
    } else if At(h, off) == 0 {
      var rel := RelOff(h, off + 1);
      if rel != 0 && fuel != 0 {
        AncestorsWithoutKids(h, tail, ParentAt(h, off), ParentAt(h, off), Spent(fuel), delta);
      }
    } else {
      AncestorsWithoutKids(h, tail, NextName(h, off), start, fuel, delta);
    }
  }

  /** `update_offsets` rewrites only child links: in a buffer where no name
      has children it changes nothing. */
  lemma OffsetsWithoutKids(h: Bytes, tail: nat, first: nat, startOff: nat, delta: int, siblings: bool)
    requires forall o :: KidsOffset(h, o) == 0
    ensures Offsets(h, tail, first, startOff, delta, siblings) == h
  {
    if siblings {
      var p := ParentOf(h, tail, startOff);
      var s1 := if p == 0 then first else KidsOffset(h, p);
      if s1 != 0 {
        SiblingsWithoutKids(h, tail, s1, startOff, delta);
        var up := ParentOf(h, tail, startOff);
        AncestorsWithoutKids(h, tail, up, up, FUEL, delta);
      }
    } else {
      AncestorsWithoutKids(h, tail, startOff, startOff, FUEL, delta);
    }
  }

  /** The links `do_insert_path` writes after a name of `size` bytes was
      placed at `place`: for an empty directory, a parent tag closing its
      new list and its kids offset; below any other directory, the parent
      tag of the list the name joined; under the root, nothing. */
  function Linked(h: Bytes, tail: nat, parent: nat, place: nat, size: nat, empty: bool): (g: Bytes)
    ensures |g| == |h|
  {
    if empty then SetKidsOff(SetParentOffset(h, place + size, Wrap32(parent)), parent, Wrap32(place))
    else if parent != DATA_START then SetParentOffset(h, FolderTail(h, tail, place), Wrap32(parent))
    else h
  }

  /** A parent tag written after the end of an entry leaves the entry. */
  lemma ParentTagKeepsEntry(h: Bytes, t: nat, p: u32, off: nat)
    requires TagOff(h, off) + 4 <= t
    ensures var k := SetParentOffset(h, t, p);
      Name(k, off) == Name(h, off) && TagOff(k, off) == TagOff(h, off)
  {
    var k := SetParentOffset(h, t, p);
    assert forall i :: off <= i < TagOff(h, off) + 4 ==> At(k, i) == At(h, i);
    EntryStable(h, k, off);
  }

  /** A kids offset written before a parent tag leaves the tag. */
  lemma KidsOffKeepsParentTag(h: Bytes, off: nat, kids: u32, t: nat)
    requires TagOff(h, off) + 4 <= t
    ensures var g := SetKidsOff(h, off, kids); At(g, t) == At(h, t) && ParentAt(g, t) == ParentAt(h, t)
  {
    var g := SetKidsOff(h, off, kids);
    assert forall i :: t <= i < t + 5 ==> At(g, i) == At(h, i);
    ParentTagStable(h, g, t);
  }

  /** An empty directory before the new name gets a list: its kids offset
      reads the name's place, and the tag after the name reads the
      directory as its parent. */
  lemma LinkedOpensList(h: Bytes, tail: nat, parent: nat, place: nat, size: nat)
    requires |h| <= MAX_FSBUF_SIZE && 0 < parent && TagOff(h, parent) + 4 <= place && place + size + 5 <= |h|
    ensures var g := Linked(h, tail, parent, place, size, true);
      Name(g, parent) == Name(h, parent) && KidsOffset(g, parent) == place
      && At(g, place + size) == 0 && ParentAt(g, place + size) == parent
  {
    Wrap32Small(parent);
    Wrap32Small(place);
    var k := SetParentOffset(h, place + size, Wrap32(parent));
    OpensListSteps(h, parent, place, place + size, Wrap32(parent), Wrap32(place), k, SetKidsOff(k, parent, Wrap32(place)));
  }

  /** `LinkedOpensList` on the two writes, named, with `t` the tag's offset. */
  lemma OpensListSteps(h: Bytes, parent: nat, place: nat, t: nat, p: u32, q: u32, k: Bytes, g: Bytes)
    requires |h| <= MAX_FSBUF_SIZE && 0 < parent && TagOff(h, parent) + 4 <= place <= t && t + 5 <= |h|
    requires p == parent && q == place
    requires k == SetParentOffset(h, t, p) && g == SetKidsOff(k, parent, q)
    ensures Name(g, parent) == Name(h, parent) && KidsOffset(g, parent) == place
      && At(g, t) == 0 && ParentAt(g, t) == parent
  {
    OpensListTag(h, parent, t, p, k);
    OpensListKids(k, parent, q, t, g);
  }

  /** The first write of `LinkedOpensList`: the parent tag after the name. */
  lemma OpensListTag(h: Bytes, parent: nat, t: nat, p: u32, k: Bytes)
    requires 0 < parent == p && TagOff(h, parent) + 4 <= t && t + 5 <= |h| && t + 1 - p < MAX_FSBUF_SIZE
    requires k == SetParentOffset(h, t, p)
    ensures At(k, t) == 0 && ParentAt(k, t) == p && Name(k, parent) == Name(h, parent) && TagOff(k, parent) == TagOff(h, parent)
  {
    ParentRoundTrip(h, t, p);
    ParentTagKeepsEntry(h, t, p, parent);
  }

  /** The second write of `LinkedOpensList`: the directory's kids offset. */
  lemma OpensListKids(k: Bytes, parent: nat, q: u32, t: nat, g: Bytes)
    requires TagOff(k, parent) + 4 <= t && t + 5 <= |k| && TagOff(k, parent) < q < TagOff(k, parent) + MAX_FSBUF_SIZE
    requires g == SetKidsOff(k, parent, q)
    ensures Name(g, parent) == Name(k, parent) && KidsOffset(g, parent) == q && At(g, t) == At(k, t) && ParentAt(g, t) == ParentAt(k, t)
  {
    KidsRoundTrip(k, parent, q);
    KidsOffKeepsParentTag(k, parent, q, t);
  }

  /** A name joining the list of a directory other than the root: the tag
      that closes the list, when the walk meets one, reads the directory
      as its parent. */
  lemma LinkedClosesList(h: Bytes, tail: nat, parent: nat, place: nat, size: nat)
    requires tail + 4 <= |h| <= MAX_FSBUF_SIZE && 0 < parent <= place && parent != DATA_START
    ensures var ft := FolderTail(h, tail, place); var g := Linked(h, tail, parent, place, size, false);
      ft != 0 ==> At(g, ft) == 0 && ParentAt(g, ft) == parent
  {
    var ft := FolderTail(h, tail, place);
    if ft != 0 {
      Wrap32Small(parent);
      ParentRoundTrip(h, ft, Wrap32(parent));
    }
  }

  /** The links `do_remove_path` rewrites before it cuts `size` bytes at
      `nameOff`: an only child empties its parent's kids offset; any other
      entry below a directory has its list's parent tag store the distance
      to where the parent will be once the cut has moved the tag down. */
  function Unlinked(h: Bytes, tail: nat, nameOff: nat, parent: nat, size: nat, onlyKid: bool): (g: Bytes)
    ensures |g| == |h|
  {
    if onlyKid then (if parent != 0 then SetKidsOff(h, parent, 0) else h)
    else if parent != 0 then SetParentOffset(h, FolderTail(h, tail, nameOff), Wrap32(parent + size))
    else h
  }

  /** `memmove` of the data after `off + size` down to `off`: the bytes
      before `off` stay and those from `off + size` to `tail` move down. */
  function Cut(h: Bytes, off: nat, size: nat, tail: nat): (g: Bytes)
    requires tail <= |h|
    ensures |g| == |h|
    ensures off + size <= tail ==> g[..off] == h[..off] && g[off..tail - size] == h[off + size..tail]
  {
    if off + size < tail then
      var g := Move(h, off + size, off, tail - off - size);
      assert g[..off] == h[..off];
      g
    else h
  }

  /** An only child's parent reads as a directory without children. */
  lemma UnlinkedEmptiesParent(h: Bytes, tail: nat, nameOff: nat, parent: nat, size: nat)
    requires 0 < parent && TagOff(h, parent) + 4 <= |h|
    ensures var g := Unlinked(h, tail, nameOff, parent, size, true);
      Name(g, parent) == Name(h, parent) && KidsOffset(g, parent) == 0
  {
    KidsRoundTrip(h, parent, 0);
  }

  /** Any other entry below a directory: the tag closing its list stores
      the distance to `parent + size`, which is where the parent sits seen
      from the tag once the cut has moved the tag down by `size`. */
  lemma UnlinkedPointsPastCut(h: Bytes, tail: nat, nameOff: nat, parent: nat, size: nat, ft: nat)
    requires tail <= |h| <= MAX_FSBUF_SIZE && 0 < parent && parent + size <= nameOff
    requires ft == FolderTail(h, tail, nameOff) && ft != 0 && ft + 5 <= tail
    ensures var u := Unlinked(h, tail, nameOff, parent, size, false);
      At(u, ft) == 0 && ParentAt(u, ft) == parent + size && RelOff(u, ft + 1) == ft + 1 - (parent + size)
  {
    var p := Wrap32(parent + size);
    Wrap32Small(parent + size);
    UnlinkedWritesTag(h, tail, nameOff, parent, size, ft, p);
    ParentRoundTrip(h, ft, p);
  }

  /** `Unlinked` of an entry with siblings below a directory, named. */
  lemma UnlinkedWritesTag(h: Bytes, tail: nat, nameOff: nat, parent: nat, size: nat, ft: nat, p: u32)
    requires 0 < parent && ft == FolderTail(h, tail, nameOff) && p == Wrap32(parent + size)
    ensures Unlinked(h, tail, nameOff, parent, size, false) == SetParentOffset(h, ft, p)
  {
  }

  /** The cut moves a parent tag that lies past it down by `size`, bytes and
      stored distance alike. */
  lemma CutMovesTag(h: Bytes, off: nat, size: nat, tail: nat, t: nat)
    requires tail <= |h| && off + size <= t && t + 5 <= tail
    ensures var c := Cut(h, off, size, tail);
      At(c, t - size) == At(h, t) && RelOff(c, t - size + 1) == RelOff(h, t + 1)
  {
    var c := Cut(h, off, size, tail);
    assert forall i :: t - size <= i < t - size + 5 ==> At(c, i) == At(h, i + size) by {
      forall i | t - size <= i < t - size + 5
        ensures At(c, i) == At(h, i + size)
      {
        assert c[off..tail - size][i - off] == h[off + size..tail][i - off];
      }
    }
    assert Get32(c, t - size + 1) == Get32(h, t + 1);
  }

  /** Room made for `tree` at `off` and the tree copied there: the bytes
      before `off` stay, the tree follows, and the old bytes from `off` to
      `tail` come after it. */
  function Placed(h: Bytes, tail: nat, off: nat, tree: Bytes): (g: Bytes)
    requires off <= tail && tail + |tree| <= |h|
    ensures |g| == |h| && g[..off] == h[..off] && g[off..off + |tree|] == tree
    ensures g[off + |tree|..tail + |tree|] == h[off..tail]
  {
    var m := MoveUp(h, tail, off, |tree|);
    var g := Write(m, off, tree);
    assert g[..off] == m[..off];
    assert g[off + |tree|..tail + |tree|] == m[off + |tree|..tail + |tree|];
    g
  }

  /** `n` zero bytes. */
  function Zeros(n: nat): (z: Bytes)
    ensures |z| == n
  {
    seq(n, _ => 0 as byte)
  }

  /** A buffer, its tail and its first name in the bounds every operation
      keeps: at most 2^30 bytes, and the first name after the root's
      header and at most the tail, which is within the buffer. */
  predicate Fits(h: Bytes, tail: nat, first: nat)
  {
    |h| <= MAX_FSBUF_SIZE && DATA_START < first <= tail <= |h|
  }

  /** What an operation on the buffer leaves: its error code, the bytes,
      the tail, and the changes it reports. */
  datatype Edit = Edit(err: int, head: Bytes, tail: nat, changes: seq<Change>)

  /** `do_insert_path` on the buffer, with `allocOk` saying whether a
      `realloc` it needs succeeds: its errors in their order, then the
      name placed, linked into its parent's list and the offsets after it
      shifted, reported as one change. */
  function PathInsert(h: Bytes, tail: nat, first: nat, path: Bytes, isDir: bool, v: Variant, allocOk: bool): (e: Edit)
    requires Fits(h, tail, first)
    ensures Fits(e.head, e.tail, first) && |h| <= |e.head| && |e.changes| == 1
    ensures e.err != 0 ==> e.head == h && e.tail == tail && e.changes == [Change(0, 0)]
  {
    if NoParent(h, tail, first, path, v) then Edit(ERR_NO_PATH, h, tail, [Change(0, 0)])
    else if NameTaken(h, tail, first, path, v) then Edit(ERR_PATH_EXISTS, h, tail, [Change(0, 0)])
    else
      var place := InsertPlace(h, tail, first, path, v);
      if place > tail then Edit(CORRUPT, h, tail, [Change(0, 0)])
      else
        var parent := ParentOff(h, tail, first, path, v);
        InsertAt(h, tail, first, parent, place, LastName(path), isDir, KidsStart(h, first, parent) == 0, allocOk)
  }

  /** `do_insert_path` once its checks passed: room for the name, the name
      placed at `place`, linked into the list of `parent` (`empty` when
      that list has no entry yet), and the offsets after it shifted;
      ERR_NO_MEM when the room cannot be had. */
  function InsertAt(h: Bytes, tail: nat, first: nat, parent: nat, place: nat, name: Bytes, isDir: bool, empty: bool,
                    allocOk: bool): (e: Edit)
    requires Fits(h, tail, first) && place <= tail
    ensures Fits(e.head, e.tail, first) && |h| <= |e.head| && |e.changes| == 1
    ensures e.err != 0 ==> e.err == ERR_NO_MEM && e.head == h && e.tail == tail && e.changes == [Change(0, 0)]
  {
    var extra := Extra(name, isDir, empty);
    if RoomFails(h, tail, extra, allocOk) then Edit(ERR_NO_MEM, h, tail, [Change(0, 0)])
    else
      var g := NameAt(Room(h, tail, extra), tail, place, name, isDir, extra);
      var l := Linked(g, Grown(tail, extra), parent, place, |name| + 1 + (if isDir then 4 else 1), empty);
      Edit(0, Offsets(l, Grown(tail, extra), first, place, extra, true), Grown(tail, extra), [Change(place, extra)])
  }

  /** The errors of `do_insert_path` in their order: a missing parent, a
      taken name, a place past the tail, a failed `realloc`; and what a
      success reports: one change at the insertion place, by the bytes the
      new name, its tag and any new parent tag take. */
  lemma PathInsertErrors(h: Bytes, tail: nat, first: nat, path: Bytes, isDir: bool, v: Variant, allocOk: bool)
    requires Fits(h, tail, first)
    ensures var e := PathInsert(h, tail, first, path, isDir, v, allocOk);
      var parent := ParentOff(h, tail, first, path, v);
      var place := InsertPlace(h, tail, first, path, v);
      var extra := Extra(LastName(path), isDir, KidsStart(h, first, parent) == 0);
      (e.err == 0 || e.err == ERR_NO_PATH || e.err == ERR_PATH_EXISTS || e.err == ERR_NO_MEM || e.err == CORRUPT)
      && (e.err == ERR_NO_PATH <==> NoParent(h, tail, first, path, v))
      && (e.err == ERR_PATH_EXISTS <==> NameTaken(h, tail, first, path, v))
      && (e.err == CORRUPT <==> !NoParent(h, tail, first, path, v) && !NameTaken(h, tail, first, path, v) && place > tail)
      && (e.err == ERR_NO_MEM <==> (!NoParent(h, tail, first, path, v) && !NameTaken(h, tail, first, path, v)
                                    && place <= tail && RoomFails(h, tail, extra, allocOk)))
      && (e.err == 0 ==> e.changes == [Change(place, extra)] && e.tail == tail + extra)
      && e.tail == tail + e.changes[0].delta
  {
  }

  /** `do_insert_path` once its checks passed is `InsertAt` at the
      insertion place in the parent's list. */
  lemma PathInsertChecked(h: Bytes, tail: nat, first: nat, path: Bytes, isDir: bool, v: Variant, allocOk: bool)
    requires Fits(h, tail, first) && !NoParent(h, tail, first, path, v) && !NameTaken(h, tail, first, path, v)
    requires InsertPlace(h, tail, first, path, v) <= tail
    ensures PathInsert(h, tail, first, path, isDir, v, allocOk)
      == InsertAt(h, tail, first, ParentOff(h, tail, first, path, v), InsertPlace(h, tail, first, path, v), LastName(path), isDir,
                  KidsStart(h, first, ParentOff(h, tail, first, path, v)) == 0, allocOk)
  {
  }

  /** `InsertAt` on the values its steps compute. */
  lemma InsertAtSteps(h: Bytes, tail: nat, first: nat, parent: nat, place: nat, name: Bytes, isDir: bool, allocOk: bool,
                      empty: bool, t: nat, d: nat, g: Bytes, l: Bytes, o: Bytes)
    requires Fits(h, tail, first) && place <= tail
    requires !RoomFails(h, tail, Extra(name, isDir, empty), allocOk)
    requires t == Grown(tail, Extra(name, isDir, empty)) && d == Extra(name, isDir, empty)
    requires g == NameAt(Room(h, tail, Extra(name, isDir, empty)), tail, place, name, isDir, Extra(name, isDir, empty))
    requires l == Linked(g, t, parent, place, |name| + 1 + (if isDir then 4 else 1), empty)
    requires o == Offsets(l, t, first, place, d, true)
    ensures InsertAt(h, tail, first, parent, place, name, isDir, empty, allocOk) == Edit(0, o, t, [Change(place, d)])
  {
  }

  /** `InsertAt` when the room cannot be had. */
  lemma InsertAtNoRoom(h: Bytes, tail: nat, first: nat, parent: nat, place: nat, name: Bytes, isDir: bool, allocOk: bool,
                       empty: bool)
    requires Fits(h, tail, first) && place <= tail
    requires RoomFails(h, tail, Extra(name, isDir, empty), allocOk)
    ensures InsertAt(h, tail, first, parent, place, name, isDir, empty, allocOk) == Edit(ERR_NO_MEM, h, tail, [Change(0, 0)])
  {
  }

  /** The tail once `size` bytes before it were cut. */
  function Shrunk(tail: nat, size: nat): nat
    requires size <= tail
  {
    tail - size
  }

  /** The length of the range `start..end`. */
  function Span(start: nat, end: nat): nat
    requires start <= end
  {
    end - start
  }

  /** The shift a cut of `size` bytes gives the offsets after it. */
  function CutDelta(size: nat): int
  {
    -(size as int)
  }

  /** The entry at `nameOff` is the only one in its list: no name follows
      it there and it is the first its parent (or the root) points to. */
  function OnlyKid(h: Bytes, first: nat, nameOff: nat, parent: nat): bool
  {
    At(h, NextName(h, nameOff)) == 0 && (if parent == 0 then first else KidsOffset(h, parent)) == nameOff
  }

  /** The bytes `do_remove_path` cuts for the entry at `nameOff`: its name
      and tag, and the parent tag of its list when it is an only child. */
  function NodeSize(h: Bytes, nameOff: nat, onlyKid: bool): nat
  {
    NextName(h, nameOff) - nameOff + (if onlyKid then 5 else 0)
  }

  /** The second half of `do_remove_path` on the buffer: the entry at
      `nameOff` (with its list's parent tag when it is an only child) is
      unlinked and cut out and the offsets after it shifted, or CORRUPT
      when that cut would reach into the root's header. */
  function NodeRemove(h: Bytes, tail: nat, first: nat, nameOff: nat): (e: Edit)
    requires Fits(h, tail, first)
    ensures Fits(e.head, e.tail, first) && |e.head| == |h|
    ensures e.err != 0 ==> e.err == CORRUPT && e.head == h && e.tail == tail && e.changes == []
    ensures e.err == 0 ==> e.tail < tail && e.changes == [Change(nameOff, e.tail - tail)]
  {
    var parent := ParentOf(h, tail, nameOff);
    var onlyKid := OnlyKid(h, first, nameOff, parent);
    var size := NodeSize(h, nameOff, onlyKid);
    if size + first > tail then Edit(CORRUPT, h, tail, [])
    else NodeCut(h, tail, first, nameOff, parent, size, onlyKid)
  }

  /** `NodeRemove` once the cut is known to stay clear of the root's
      header: unlink, cut `size` bytes at `nameOff`, and shift the offsets
      after the cut (the parent's own, for an only child). */
  function NodeCut(h: Bytes, tail: nat, first: nat, nameOff: nat, parent: nat, size: nat, onlyKid: bool): (e: Edit)
    requires Fits(h, tail, first) && size + first <= tail
    ensures Fits(e.head, e.tail, first) && |e.head| == |h|
    ensures e.err == 0 && e.tail == tail - size && e.changes == [Change(nameOff, -(size as int))]
  {
    var c := Cut(Unlinked(h, tail, nameOff, parent, size, onlyKid), nameOff, size, tail);
    var g := if !onlyKid then Offsets(c, Shrunk(tail, size), first, nameOff, CutDelta(size), true)
      else if parent != 0 then Offsets(c, Shrunk(tail, size), first, parent, CutDelta(size), false)
      else c;
    Edit(0, g, Shrunk(tail, size), [Change(nameOff, -(size as int))])
  }

  /** `NodeCut` on the values its steps compute. */
  lemma NodeCutSteps(h: Bytes, tail: nat, first: nat, nameOff: nat, parent: nat, onlyKid: bool, size: nat,
                     u: Bytes, c: Bytes, o: Bytes)
    requires Fits(h, tail, first) && size + first <= tail
    requires u == Unlinked(h, tail, nameOff, parent, size, onlyKid) && c == Cut(u, nameOff, size, tail)
    requires o == if !onlyKid then Offsets(c, Shrunk(tail, size), first, nameOff, CutDelta(size), true)
      else if parent != 0 then Offsets(c, Shrunk(tail, size), first, parent, CutDelta(size), false)
      else c
    ensures NodeCut(h, tail, first, nameOff, parent, size, onlyKid) == Edit(0, o, Shrunk(tail, size), [Change(nameOff, -(size as int))])
  {
  }

  /** `NodeRemove` once the cut is known to stay clear of the header. */
  lemma NodeRemoveChecked(h: Bytes, tail: nat, first: nat, nameOff: nat, parent: nat, onlyKid: bool, size: nat)
    requires Fits(h, tail, first) && parent == ParentOf(h, tail, nameOff) && onlyKid == OnlyKid(h, first, nameOff, parent)
    requires size == NodeSize(h, nameOff, onlyKid) && size + first <= tail
    ensures NodeRemove(h, tail, first, nameOff) == NodeCut(h, tail, first, nameOff, parent, size, onlyKid)
  {
  }

  /** `do_remove_path` for an entry other than the root: a directory with
      children first loses its subtree (saved when `wantTree`, which needs
      a `malloc` that `treeOk` says succeeds), then the entry itself. */
  function EntryRemove(h: Bytes, tail: nat, first: nat, nameOff: nat, wantTree: bool, treeOk: bool): (r: (Edit, Option<Bytes>))
    requires Fits(h, tail, first)
    ensures Fits(r.0.head, r.0.tail, first) && |r.0.head| == |h|
    ensures r.1.Some? ==> wantTree && |r.1.value| <= tail - first
  {
    var kids := KidsOffset(h, nameOff);
    if kids == 0 then (NodeRemove(h, tail, first, nameOff), None)
    else
      var treeEnd := TreeEnd(h, tail, kids, 0, FUEL);
      if !(first <= kids <= treeEnd <= tail) then (Edit(CORRUPT, h, tail, []), None)
      else if wantTree && !treeOk then (Edit(ERR_NO_MEM, h, tail, []), None)
      else KidsRemove(h, tail, first, nameOff, kids, treeEnd, wantTree)
  }

  /** `EntryRemove` for a directory whose subtree `kids..treeEnd` passed
      its checks: the subtree cut out with the offsets after it shifted,
      then the entry itself removed. */
  function KidsRemove(h: Bytes, tail: nat, first: nat, nameOff: nat, kids: nat, treeEnd: nat, wantTree: bool): (r: (Edit, Option<Bytes>))
    requires Fits(h, tail, first) && first <= kids <= treeEnd <= tail
    ensures Fits(r.0.head, r.0.tail, first) && |r.0.head| == |h|
    ensures r.1.Some? ==> wantTree && |r.1.value| <= tail - first
  {
    var t := Shrunk(tail, Span(kids, treeEnd));
    var g := Offsets(Cut(SetKidsOff(h, nameOff, 0), kids, Span(kids, treeEnd), tail), t, first, nameOff, CutDelta(Span(kids, treeEnd)), false);
    var n := NodeRemove(g, t, first, nameOff);
    (Edit(n.err, n.head, n.tail, [Change(kids, kids - treeEnd)] + n.changes),
     if wantTree then Some(h[kids..treeEnd]) else None)
  }

  /** `KidsRemove` on the values its steps compute. */
  lemma KidsRemoveSteps(h: Bytes, tail: nat, first: nat, nameOff: nat, kids: nat, treeEnd: nat, wantTree: bool,
                        t: nat, g: Bytes, n: Edit)
    requires Fits(h, tail, first) && first <= kids <= treeEnd <= tail && t == Shrunk(tail, Span(kids, treeEnd))
    requires g == Offsets(Cut(SetKidsOff(h, nameOff, 0), kids, Span(kids, treeEnd), tail), t, first, nameOff, CutDelta(Span(kids, treeEnd)), false)
    requires Fits(g, t, first) && n == NodeRemove(g, t, first, nameOff)
    ensures KidsRemove(h, tail, first, nameOff, kids, treeEnd, wantTree)
      == (Edit(n.err, n.head, n.tail, [Change(kids, kids - treeEnd)] + n.changes), if wantTree then Some(h[kids..treeEnd]) else None)
  {
  }

  /** What `do_remove_path` reports for an entry: CORRUPT or ERR_NO_MEM
      (the latter only when the saved subtree's `malloc` fails, with
      nothing changed), or success with one or two changes, the subtree's
      cut first and the entry's own last; the changes always sum to the
      change of the tail. */
  lemma EntryRemoveChanges(h: Bytes, tail: nat, first: nat, nameOff: nat, wantTree: bool, treeOk: bool)
    requires Fits(h, tail, first)
    ensures var r := EntryRemove(h, tail, first, nameOff, wantTree, treeOk);
      (r.0.err == 0 || r.0.err == ERR_NO_MEM || r.0.err == CORRUPT)
      && (r.0.err == ERR_NO_MEM ==> wantTree && !treeOk && r.0.head == h && r.0.tail == tail)
      && r.0.tail == tail + TotalDelta(r.0.changes)
      && (r.0.err == 0 ==> (1 <= |r.0.changes| <= 2 && r.0.changes[0].delta <= 0
                            && r.0.changes[|r.0.changes| - 1].startOff == nameOff && r.0.changes[|r.0.changes| - 1].delta < 0))
  {
    var kids := KidsOffset(h, nameOff);
    if kids == 0 {
      var n := NodeRemove(h, tail, first, nameOff);
      if n.err == 0 {
        TotalDeltaAppend([], n.changes[0]);
        assert [] + [n.changes[0]] == n.changes;
      }
    } else {
      var treeEnd := TreeEnd(h, tail, kids, 0, FUEL);
      if first <= kids <= treeEnd <= tail && !(wantTree && !treeOk) {
        KidsRemoveChanges(h, tail, first, nameOff, kids, treeEnd, wantTree);
      }
    }
  }

  /** The changes of `KidsRemove` sum to the change of the tail: the
      subtree's cut, then, unless the entry's cut fails, the entry's. */
  lemma KidsRemoveChanges(h: Bytes, tail: nat, first: nat, nameOff: nat, kids: nat, treeEnd: nat, wantTree: bool)
    requires Fits(h, tail, first) && first <= kids <= treeEnd <= tail
    ensures var r := KidsRemove(h, tail, first, nameOff, kids, treeEnd, wantTree);
      (r.0.err == 0 || r.0.err == CORRUPT)
      && r.0.tail == tail + TotalDelta(r.0.changes)
      && (r.0.err == 0 ==> (|r.0.changes| == 2 && r.0.changes[0].delta <= 0
                            && r.0.changes[1].startOff == nameOff && r.0.changes[1].delta < 0))
  {
    var t := Shrunk(tail, Span(kids, treeEnd));
    var g := Offsets(Cut(SetKidsOff(h, nameOff, 0), kids, Span(kids, treeEnd), tail), t, first, nameOff, CutDelta(Span(kids, treeEnd)), false);
    var n := NodeRemove(g, t, first, nameOff);
    var c := Change(kids, kids - treeEnd);
    TotalDeltaAppend([], c);
    assert [] + [c] == [c];
    if n.err == 0 {
      TotalDeltaAppend([c], n.changes[0]);
      assert [c] + n.changes == [c] + [n.changes[0]];
    } else {
      assert [c] + n.changes == [c];
    }
  }

  /** `do_remove_path` on the buffer: a missing path is ERR_NO_PATH, the
      root empties the whole tree (saved when `wantTree`), and any other
      path is removed as an entry. */
  function PathRemove(h: Bytes, tail: nat, first: nat, path: Bytes, v: Variant, wantTree: bool, treeOk: bool): (r: (Edit, Option<Bytes>))
    requires Fits(h, tail, first)
    ensures Fits(r.0.head, r.0.tail, first) && |r.0.head| == |h|
    ensures r.1.Some? ==> wantTree && |r.1.value| <= tail - first
  {
    var nameOff := Lookup(h, tail, first, path, v);
    if nameOff == 0 then (Edit(ERR_NO_PATH, h, tail, []), None)
    else if nameOff == DATA_START then
      if wantTree && !treeOk then (Edit(ERR_NO_MEM, h, tail, []), None)
      else (Edit(0, h, first, [Change(first, first - tail)]), if wantTree then Some(h[first..tail]) else None)
    else EntryRemove(h, tail, first, nameOff, wantTree, treeOk)
  }

  /** What `do_remove_path` reports: ERR_NO_PATH exactly when the path is
      missing, with nothing changed; ERR_NO_MEM only when the saved
      subtree's `malloc` fails, with nothing changed; the root emptying
      the tree in one change; any other entry removed in one or two
      changes, its own last. The changes always sum to the change of the
      tail. */
  lemma PathRemoveChanges(h: Bytes, tail: nat, first: nat, path: Bytes, v: Variant, wantTree: bool, treeOk: bool)
    requires Fits(h, tail, first)
    ensures var r := PathRemove(h, tail, first, path, v, wantTree, treeOk);
      var nameOff := Lookup(h, tail, first, path, v);
      (r.0.err == 0 || r.0.err == ERR_NO_PATH || r.0.err == ERR_NO_MEM || r.0.err == CORRUPT)
      && (r.0.err == ERR_NO_PATH <==> nameOff == 0)
      && (r.0.err == ERR_NO_MEM ==> wantTree && !treeOk)
      && (r.0.err == ERR_NO_PATH || r.0.err == ERR_NO_MEM ==> r.0.head == h && r.0.tail == tail)
      && (r.0.err == ERR_NO_PATH ==> r.0.changes == [] && r.1 == None)
      && (nameOff == DATA_START && wantTree && !treeOk ==> r.0.err == ERR_NO_MEM)
      && (nameOff == DATA_START && (!wantTree || treeOk) ==>
            (r.0.err == 0 && r.0.head == h && r.0.tail == first && r.0.changes == [Change(first, first - tail)]
             && r.1 == (if wantTree then Some(h[first..tail]) else None)))
      && r.0.tail == tail + TotalDelta(r.0.changes)
      && (r.0.err == 0 ==> (1 <= |r.0.changes| <= 2 && r.0.changes[0].delta <= 0))
      && (r.0.err == 0 && nameOff != DATA_START ==>
            (r.0.changes[|r.0.changes| - 1].startOff == nameOff && r.0.changes[|r.0.changes| - 1].delta < 0))
  {
    var nameOff := Lookup(h, tail, first, path, v);
    if nameOff == DATA_START {
      TotalDeltaAppend([], Change(first, first - tail));
      assert [] + [Change(first, first - tail)] == [Change(first, first - tail)];
    } else if nameOff != 0 {
      EntryRemoveChanges(h, tail, first, nameOff, wantTree, treeOk);
    }
  }

  /** The last step of `do_rename_path` on the buffer: room for the saved
      subtree (`allocOk` saying whether `realloc` succeeds), the subtree
      copied in where `get_insert_offset` points, linked under the target
      at `dstOff`, and the offsets after it shifted. */
  function TreeCopy(h: Bytes, tail: nat, first: nat, dstOff: nat, tree: Bytes, allocOk: bool): (e: Edit)
    requires Fits(h, tail, first)
    ensures Fits(e.head, e.tail, first) && |h| <= |e.head| && |e.changes| == 1
    ensures e.err != 0 ==> e.tail == tail && e.changes == [Change(0, 0)]
    ensures e.err == 0 || e.err == ERR_NO_MEM || e.err == CORRUPT
    ensures e.tail == tail + e.changes[0].delta
  {
    var size := |tree|;
    if RoomFails(h, tail, size, allocOk) then Edit(ERR_NO_MEM, h, tail, [Change(0, 0)])
    else
      var r := Room(h, tail, size);
      var kidsOff := InsertOffset(r, tail, dstOff, dstOff, FUEL);
      if kidsOff > tail then Edit(CORRUPT, r, tail, [Change(0, 0)])
      else
        var t := Grown(tail, size);
        var k := SetKidsOff(Placed(r, tail, kidsOff, tree), dstOff, Wrap32(kidsOff));
        var s := SetParentOffset(k, FolderTail(k, t, kidsOff), Wrap32(dstOff));
        Edit(0, Offsets(s, t, first, kidsOff, size, true), t, [Change(kidsOff, size)])
  }

  /** `do_rename_path` on the buffer: its checks, then the source removed
      with its subtree saved, the target inserted when it did not exist
      (whatever that insert returns), and the subtree copied back under
      the target. The three allocations are `treeOk`, `nameOk`, `roomOk`. */
  function PathRename(h: Bytes, tail: nat, first: nat, src: Bytes, dst: Bytes, v: Variant,
                      treeOk: bool, nameOk: bool, roomOk: bool): (e: Edit)
    requires Fits(h, tail, first)
    ensures Fits(e.head, e.tail, first)
  {
    var check := RenameCheck(h, tail, first, src, dst, v);
    if check != 0 then Edit(check, h, tail, [])
    else
      var removed := PathRemove(h, tail, first, src, v, true, treeOk);
      var r := removed.0;
      if r.err != 0 then r
      else
        var missing := Lookup(h, tail, first, dst, v) == 0;
        var isDir := !IsFile(h, Lookup(h, tail, first, src, v));
        RenameCopy(RenameInsert(r, first, dst, isDir, v, missing, nameOk), first, dst, v, removed.1, roomOk)
  }

  /** The target step of `do_rename_path`: a missing target is inserted,
      as a directory or a file like the source, after the removal `r`. */
  function RenameInsert(r: Edit, first: nat, dst: Bytes, isDir: bool, v: Variant, missing: bool, nameOk: bool): (i: Edit)
    requires Fits(r.head, r.tail, first)
    ensures Fits(i.head, i.tail, first)
  {
    if missing then
      var n := PathInsert(r.head, r.tail, first, dst, isDir, v, nameOk);
      Edit(0, n.head, n.tail, r.changes + n.changes)
    else r
  }

  /** The copy step of `do_rename_path`: a removed subtree is copied back
      under the target's offset; a failed copy keeps the earlier changes. */
  function RenameCopy(i: Edit, first: nat, dst: Bytes, v: Variant, tree: Option<Bytes>, roomOk: bool): (e: Edit)
    requires Fits(i.head, i.tail, first)
    ensures Fits(e.head, e.tail, first)
  {
    if tree.None? then i
    else
      var c := TreeCopy(i.head, i.tail, first, Lookup(i.head, i.tail, first, dst, v), tree.value, roomOk);
      Edit(c.err, c.head, c.tail, if c.err == 0 then i.changes + c.changes else i.changes)
  }

  /** The target step succeeds and keeps the changes summing to the tail's. */
  lemma RenameInsertDelta(tail: nat, r: Edit, first: nat, dst: Bytes, isDir: bool, v: Variant, missing: bool, nameOk: bool)
    requires Fits(r.head, r.tail, first) && r.err == 0 && r.tail == tail + TotalDelta(r.changes)
    ensures var i := RenameInsert(r, first, dst, isDir, v, missing, nameOk);
      i.err == 0 && i.tail == tail + TotalDelta(i.changes)
  {
    if missing {
      PathInsertErrors(r.head, r.tail, first, dst, isDir, v, nameOk);
      var n := PathInsert(r.head, r.tail, first, dst, isDir, v, nameOk);
      DeltaChain(tail, r.changes, r.tail, n.changes, n.tail);
    }
  }

  /** The copy step ends in success, ERR_NO_MEM or CORRUPT and keeps the
      changes summing to the tail's. */
  lemma RenameCopyDelta(tail: nat, i: Edit, first: nat, dst: Bytes, v: Variant, tree: Option<Bytes>, roomOk: bool)
    requires Fits(i.head, i.tail, first) && i.err == 0 && i.tail == tail + TotalDelta(i.changes)
    ensures var e := RenameCopy(i, first, dst, v, tree, roomOk);
      (e.err == 0 || e.err == ERR_NO_MEM || e.err == CORRUPT) && e.tail == tail + TotalDelta(e.changes)
  {
    if tree.Some? {
      var c := TreeCopy(i.head, i.tail, first, Lookup(i.head, i.tail, first, dst, v), tree.value, roomOk);
      if c.err == 0 {
        DeltaChain(tail, i.changes, i.tail, c.changes, c.tail);
      }
    }
  }

  /** What `do_rename_path` reports: a failed check with nothing changed;
      otherwise success, ERR_NO_MEM or CORRUPT, whatever the insert of the
      target returned; the changes always sum to the change of the tail. */
  lemma PathRenameChanges(h: Bytes, tail: nat, first: nat, src: Bytes, dst: Bytes, v: Variant,
                          treeOk: bool, nameOk: bool, roomOk: bool)
    requires Fits(h, tail, first)
    ensures var e := PathRename(h, tail, first, src, dst, v, treeOk, nameOk, roomOk);
      var check := RenameCheck(h, tail, first, src, dst, v);
      (check != 0 ==> e == Edit(check, h, tail, []))
      && (check == 0 ==> (e.err == 0 || e.err == ERR_NO_MEM || e.err == CORRUPT))
      && e.tail == tail + TotalDelta(e.changes)
  {
    var check := RenameCheck(h, tail, first, src, dst, v);
    if check == 0 {
      PathRemoveChanges(h, tail, first, src, v, true, treeOk);
      var removed := PathRemove(h, tail, first, src, v, true, treeOk);
      var r := removed.0;
      if r.err == 0 {
        var isDir := !IsFile(h, Lookup(h, tail, first, src, v));
        var missing := Lookup(h, tail, first, dst, v) == 0;
        RenameInsertDelta(tail, r, first, dst, isDir, v, missing, nameOk);
        RenameCopyDelta(tail, RenameInsert(r, first, dst, isDir, v, missing, nameOk), first, dst, v, removed.1, roomOk);
      }
    }
  }

  /** A tail that moved by one more change keeps the sum of the changes. */
  lemma DeltaChain(tail: nat, cs: seq<Change>, mid: nat, ds: seq<Change>, end: nat)
    requires mid == tail + TotalDelta(cs) && |ds| == 1 && end == mid + ds[0].delta
    ensures end == tail + TotalDelta(cs + ds)
  {
    assert ds == [ds[0]];
    TotalDeltaAppend(cs, ds[0]);
  }

  class FsBuf {
    var head: Bytes
    var capacity: nat
    var tail: nat
    var firstNameOff: nat

    predicate Valid()
      reads this
    {
      |head| == capacity <= MAX_FSBUF_SIZE && DATA_START < firstNameOff <= tail <= capacity
    }

    /** The buffer `new_fs_buf` builds once it accepts its arguments: the
        root path and its NUL at DATA_START and an empty tree after it. */
    constructor (capacity: u32, root: Bytes)
      requires Accepts(capacity, Some(root)) && CString(root)
      ensures Valid() && this.capacity == capacity
      ensures tail == firstNameOff == DATA_START + |root| + 1
      ensures Name(head, DATA_START) == root
    {
      var zeros := seq(capacity, _ => 0 as byte);
      head := Write(zeros, DATA_START, root + [0]);
      this.capacity := capacity;
      firstNameOff := DATA_START + |root| + 1;
      tail := DATA_START + |root| + 1;
      new;
      assert head[DATA_START..DATA_START + |root|] == (root + [0])[..|root|];
      StrLenOf(head, DATA_START, root);
    }

    /** `add_capacity`: grow by whole blocks, failing when that would pass
        2^30 bytes or when `realloc` fails (`allocOk` false). */
    method AddCapacity(size: nat, allocOk: bool) returns (err: int)
      requires Valid() && size <= MAX_FSBUF_SIZE
      modifies this
      ensures Valid() && tail == old(tail) && firstNameOff == old(firstNameOff)
      ensures (err == 1 <==> old(capacity) + BlockRound(size) > MAX_FSBUF_SIZE || !allocOk) && (err == 0 || err == 1)
      ensures err == 1 ==> head == old(head) && capacity == old(capacity)
      ensures err == 0 ==> capacity == old(capacity) + BlockRound(size) && head == old(head) + Zeros(BlockRound(size))
    {
      var alloc := size / FS_NEW_BLK_SIZE;
      alloc := alloc * FS_NEW_BLK_SIZE;
      if alloc < size {
        alloc := alloc + FS_NEW_BLK_SIZE;
      }
      if capacity + alloc > MAX_FSBUF_SIZE {
        return 1;
      }
      if !allocOk {
        return 1;
      }
      head := head + Zeros(alloc);
      capacity := capacity + alloc;
      err := 0;
    }

    /** `insert_new_name`: make room (growing the buffer if the data would
        reach the capacity), move the bytes after `off` up, and write the
        name and a fresh tag at `off`. */
    method InsertNewName(off: nat, name: Bytes, isDir: bool, parentTag: bool, allocOk: bool) returns (err: int)
      requires Valid() && off <= tail && CString(name) && |name| < 0x1000_0000
      modifies this
      ensures Valid() && firstNameOff == old(firstNameOff)
      ensures err == 0 || err == ERR_NO_MEM
      ensures err == ERR_NO_MEM <==> RoomFails(old(head), old(tail), Extra(name, isDir, parentTag), allocOk)
      ensures err != 0 ==> head == old(head) && tail == old(tail) && capacity == old(capacity)
      ensures err == 0 ==> tail == Grown(old(tail), Extra(name, isDir, parentTag))
      ensures err == 0 ==> head == NameAt(Room(old(head), old(tail), Extra(name, isDir, parentTag)), old(tail), off, name, isDir, Extra(name, isDir, parentTag))
    {
      var extra := Extra(name, isDir, parentTag);
      if extra + tail >= capacity {
        var e := AddCapacity(extra, allocOk);
        if e != 0 {
          return ERR_NO_MEM;
        }
      }
      ghost var grown := head;
      assert grown == Room(old(head), old(tail), extra);
      head := NameAt(head, tail, off, name, isDir, extra);
      tail := tail + extra;
      err := 0;
    }

    /** `do_get_path_offset`: the loop of the walk `Find` describes. */
    method DoGetPathOffset(path: Bytes) returns (r: nat)
      requires Valid()
      ensures r == Find(head, tail, firstNameOff, path)
    {
      var h, t, first := head, tail, firstNameOff;
      if path == [] && first == DATA_START + 2 {
        return DATA_START;
      }
      if !IsPrefix(Name(h, DATA_START), path) {
        return 0;
      }
      var pi: nat := first - DATA_START - 1;
      if At(path, pi) == 0 {
        return DATA_START;
      }
      FindWalks(h, t, first, path);
      r := WalkNames(h, t, path, pi, first);
    }

    /** `get_path_offset`: the lookup, retried with the fallback path in the
        current copy. */
    method GetPathOffset(path: Bytes, v: Variant) returns (r: nat)
      requires Valid()
      ensures r == Lookup(head, tail, firstNameOff, path, v)
      ensures r == 0 || r == DATA_START || firstNameOff <= r < tail
    {
      r := DoGetPathOffset(path);
      if r == 0 && v == Current {
        r := DoGetPathOffset(Fallback(path));
      }
      LookupRange(head, tail, firstNameOff, path, v);
    }

    /** `get_folder_tail_offset`. */
    method GetFolderTailOffset(off: nat) returns (r: nat)
      requires Valid()
      ensures r == FolderTail(head, tail, off)
    {
      var nameOff: nat := off;
      while nameOff < tail
        invariant FolderTail(head, tail, nameOff) == FolderTail(head, tail, off)
        decreases tail - nameOff
      {
        if At(head, nameOff) == 0 {
          return nameOff;
        }
        nameOff := NextName(head, nameOff);
      }
      return 0;
    }

    /** `get_parent_offset`. */
    method GetParentOffset(off: nat) returns (r: u32)
      requires Valid()
      ensures r == ParentOf(head, tail, off)
    {
      var t := GetFolderTailOffset(off);
      if t == 0 {
        return 0;
      }
      var rel := RelOff(head, t + 1);
      if rel == 0 {
        return 0;
      }
      r := Wrap32(t + 1 - rel as int);
    }

    /** `get_1st_sibling_offset`: the first name of the list holding `off`. */
    method Get1stSiblingOffset(off: nat) returns (r: nat)
      requires Valid()
      ensures var p := ParentOf(head, tail, off); r == if p == 0 then firstNameOff else KidsOffset(head, p)
    {
      var p := GetParentOffset(off);
      if p == 0 {
        return firstNameOff;
      }
      r := KidsOffset(head, p);
    }

    /** `get_tree_end_offset`. */
    method GetTreeEndOffset(start: nat) returns (r: nat)
      requires Valid()
      ensures r == TreeEnd(head, tail, start, 0, FUEL)
    {
      var h, t := head, tail;
      var nameOff: nat := start;
      var lastKids: nat := 0;
      var fuel: nat := FUEL;
      while nameOff < t
        invariant TreeEnd(h, t, nameOff, lastKids, fuel) == TreeEnd(h, t, start, 0, FUEL)
        decreases fuel, t - nameOff
      {
        if At(h, nameOff) != 0 {
          var kids := KidsOffset(h, nameOff);
          if kids != 0 {
            lastKids := kids;
          }
          nameOff := NextName(h, nameOff);
        } else if lastKids != 0 {
          if fuel == 0 {
            return t;
          }
          nameOff := lastKids;
          lastKids := 0;
          fuel := Spent(fuel);
        } else {
          return nameOff + 5;
        }
      }
      return t;
    }

    /** `get_insert_offset`. */
    method GetInsertOffset(emptyFolderOff: nat) returns (r: nat)
      requires Valid()
      ensures r == InsertOffset(head, tail, emptyFolderOff, emptyFolderOff, FUEL)
    {
      var h, t := head, tail;
      var nameOff: nat := emptyFolderOff;
      var off: nat := nameOff;
      var fuel: nat := FUEL;
      while off < t
        invariant InsertOffset(h, t, nameOff, off, fuel) == InsertOffset(h, t, emptyFolderOff, emptyFolderOff, FUEL)
        decreases fuel, t - off
      {
        if At(h, off) == 0 {
          var rel := RelOff(h, off + 1);
          if rel == 0 || fuel == 0 {
            return t;
          }
          nameOff := Wrap32(off + 1 - rel as int);
          off := nameOff;
          fuel := Spent(fuel);
        } else {
          if off > nameOff {
            var kids := KidsOffset(h, off);
            if kids != 0 {
              return kids;
            }
          }
          off := NextName(h, off);
        }
      }
      return t;
    }

    /** The sibling scan of `do_insert_path`: whether the list continuing at
        `k` holds `name`, and otherwise where the list ends. */
    method ScanSiblings(k: nat, name: Bytes) returns (found: bool, end: nat)
      requires Valid()
      ensures found == HasSibling(head, tail, k, name)
      ensures !found ==> end == ListEnd(head, tail, k)
    {
      end := k;
      while end < tail && At(head, end) != 0
        invariant HasSibling(head, tail, end, name) == HasSibling(head, tail, k, name)
        invariant ListEnd(head, tail, end) == ListEnd(head, tail, k)
        decreases tail - end
      {
        if Name(head, end) == name {
          return true, end;
        }
        end := NextName(head, end);
      }
      found := false;
    }

    /** `append_new_name`: a name and a fresh tag at the tail. */
    method AppendNewName(name: Bytes, isDir: bool, allocOk: bool) returns (err: int)
      requires Valid() && CString(name) && |name| < 0x1000_0000
      modifies this
      ensures Valid() && firstNameOff == old(firstNameOff)
      ensures err == 0 || err == ERR_NO_MEM
      ensures err == ERR_NO_MEM <==> RoomFails(old(head), old(tail), Extra(name, isDir, false), allocOk)
      ensures err != 0 ==> head == old(head) && tail == old(tail) && capacity == old(capacity)
      ensures err == 0 ==> tail == old(tail) + Extra(name, isDir, false)
      ensures err == 0 ==> head == NameAt(Room(old(head), old(tail), Extra(name, isDir, false)), old(tail), old(tail), name, isDir, Extra(name, isDir, false))
    {
      err := InsertNewName(tail, name, isDir, false, allocOk);
    }

    /** `append_parent`: a parent tag pointing at `parentOff` at the tail. */
    method AppendParent(parentOff: u32, allocOk: bool) returns (err: int)
      requires Valid()
      modifies this
      ensures Valid() && firstNameOff == old(firstNameOff)
      ensures err == 0 || err == ERR_NO_MEM
      ensures err == ERR_NO_MEM <==> RoomFails(old(head), old(tail), 5, allocOk)
      ensures err != 0 ==> head == old(head) && tail == old(tail) && capacity == old(capacity)
      ensures err == 0 ==> tail == old(tail) + 5 && head == SetParentOffset(Room(old(head), old(tail), 5), old(tail), parentOff)
      ensures err == 0 ==> At(head, old(tail)) == 0
      ensures err == 0 && (parentOff == 0 || (0 < parentOff <= old(tail) && old(tail) + 1 - parentOff < MAX_FSBUF_SIZE))
        ==> ParentAt(head, old(tail)) == parentOff
    {
      if 5 + tail >= capacity {
        var e := AddCapacity(5, allocOk);
        if e != 0 {
          return ERR_NO_MEM;
        }
      }
      if parentOff == 0 || (0 < parentOff <= tail && tail + 1 - parentOff < MAX_FSBUF_SIZE) {
        ParentRoundTrip(head, tail, parentOff);
      }
      head := SetParentOffset(head, tail, parentOff);
      tail := tail + 5;
      err := 0;
    }

    /** `UPDATE_KIDS_OFF`: shift the child list of the directory at `off`
        by `delta` and point the parent tag of that list back at `off`. */
    method UpdateKidsOff(off: nat, delta: int)
      requires Valid()
      modifies this
      ensures Valid() && tail == old(tail) && capacity == old(capacity) && firstNameOff == old(firstNameOff)
      ensures head == KidsShift(old(head), tail, off, delta)
      ensures old(KidsOffset(head, off)) == 0 ==> head == old(head)
    {
      var kids := KidsOffset(head, off);
      if kids != 0 {
        var nk := MovedKids(kids, delta);
        head := SetKidsOff(head, off, nk);
        var ft := GetFolderTailOffset(nk);
        KidsShiftSteps(old(head), tail, off, delta, nk, head, ft);
        head := SetParentOffset(head, ft, Wrap32(off));
      }
    }

    /** The first loop of `update_offsets`: shift the child lists of the
        names from `off` up to `stop`. */
    method ShiftSiblingKids(off: nat, stop: nat, delta: int)
      requires Valid()
      modifies this
      ensures Valid() && tail == old(tail) && capacity == old(capacity) && firstNameOff == old(firstNameOff)
      ensures head == ShiftSiblings(old(head), tail, off, stop, delta)
    {
      var cur: nat := off;
      while cur < stop
        invariant Valid() && tail == old(tail) && capacity == old(capacity) && firstNameOff == old(firstNameOff)
        invariant ShiftSiblings(head, tail, cur, stop, delta) == ShiftSiblings(old(head), tail, off, stop, delta)
        decreases stop - cur
      {
        ghost var h0 := head;
        UpdateKidsOff(cur, delta);
        SiblingsStep(h0, tail, cur, stop, delta, head);
        cur := NextName(head, cur);
      }
    }

    /** One pass of the second loop of `update_offsets` at `cur`: a parent
        tag climbs to the parent's list (or ends the walk), a name after
        `first` has its child list shifted. */
    method AncestorStep(cur: nat, first: nat, fuel: nat, delta: int) returns (next: nat, nextFirst: nat, nextFuel: nat, stop: bool)
      requires Valid() && cur != 0 && cur < tail
      modifies this
      ensures Valid() && tail == old(tail) && capacity == old(capacity) && firstNameOff == old(firstNameOff)
      ensures stop ==> head == ShiftAncestors(old(head), tail, cur, first, fuel, delta)
      ensures !stop ==> ShiftAncestors(head, tail, next, nextFirst, nextFuel, delta) == ShiftAncestors(old(head), tail, cur, first, fuel, delta)
      ensures !stop ==> nextFuel < fuel || (nextFuel == fuel && next > cur)
    {
      if At(head, cur) == 0 {
        next, nextFirst, nextFuel, stop := ClimbStep(head, tail, cur, first, fuel, delta);
      } else {
        next := ShiftStep(cur, first, fuel, delta);
        nextFirst, nextFuel, stop := first, fuel, false;
      }
    }

    /** `AncestorStep` at a parent tag: stop at the root's tag or when the
        fuel runs out, otherwise climb to the tag's directory. */
    method ClimbStep(h: Bytes, tail: nat, cur: nat, first: nat, fuel: nat, delta: int)
      returns (next: nat, nextFirst: nat, nextFuel: nat, stop: bool)
      requires tail <= |h| <= MAX_FSBUF_SIZE && cur != 0 && cur < tail && At(h, cur) == 0
      ensures stop ==> h == ShiftAncestors(h, tail, cur, first, fuel, delta)
      ensures !stop ==> ShiftAncestors(h, tail, next, nextFirst, nextFuel, delta) == ShiftAncestors(h, tail, cur, first, fuel, delta)
      ensures !stop ==> nextFuel < fuel
    {
      var rel := RelOff(h, cur + 1);
      AncestorsClimb(h, tail, cur, first, fuel, delta, rel, ParentAt(h, cur));
      if rel == 0 || fuel == 0 {
        return cur, first, fuel, true;
      }
      var up: nat := ParentAt(h, cur);
      return up, up, Spent(fuel), false;
    }

    /** `AncestorStep` at a name: its kids offset is shifted when it lies
        past the start, and the walk moves to the next name. */
    method ShiftStep(cur: nat, first: nat, fuel: nat, delta: int) returns (next: nat)
      requires Valid() && cur != 0 && cur < tail && At(head, cur) != 0
      modifies this
      ensures Valid() && tail == old(tail) && capacity == old(capacity) && firstNameOff == old(firstNameOff)
      ensures ShiftAncestors(head, tail, next, first, fuel, delta) == ShiftAncestors(old(head), tail, cur, first, fuel, delta)
      ensures next > cur
    {
      ghost var h0 := head;
      if cur > first {
        UpdateKidsOff(cur, delta);
      }
      AncestorsStep(h0, tail, cur, first, fuel, delta, head);
      next := NextName(head, cur);
    }

    /** The second loop of `update_offsets`: shift the child lists of the
        names after `start` in each list from `off` upward. */
    method ShiftAncestorKids(off: nat, start: nat, delta: int)
      requires Valid()
      modifies this
      ensures Valid() && tail == old(tail) && capacity == old(capacity) && firstNameOff == old(firstNameOff)
      ensures head == ShiftAncestors(old(head), tail, off, start, FUEL, delta)
    {
      var cur: nat := off;
      var first: nat := start;
      var fuel: nat := FUEL;
      ghost var goal := ShiftAncestors(head, tail, off, start, FUEL, delta);
      while cur != 0 && cur < tail
        invariant Valid() && tail == old(tail) && capacity == old(capacity) && firstNameOff == old(firstNameOff)
        invariant ShiftAncestors(head, tail, cur, first, fuel, delta) == goal
        decreases fuel, tail - cur
      {
        var stop;
        cur, first, fuel, stop := AncestorStep(cur, first, fuel, delta);
        if stop {
          return;
        }
      }
      AncestorsDone(head, tail, cur, first, fuel, delta);
    }

    /** `update_offsets`: after `delta` bytes were inserted or removed at
        `startOff`, shift the child lists of the earlier siblings (when
        asked) and of every directory after the start in the lists of the
        start's ancestors. */
    method UpdateOffsets(startOff: nat, delta: int, siblings: bool)
      requires Valid()
      modifies this
      ensures Valid() && tail == old(tail) && capacity == old(capacity) && firstNameOff == old(firstNameOff)
      ensures head == Offsets(old(head), tail, firstNameOff, startOff, delta, siblings)
    {
      if siblings {
        var s1 := Get1stSiblingOffset(startOff);
        if s1 == 0 {
          return;
        }
        ShiftSiblingKids(s1, startOff, delta);
        var p := GetParentOffset(startOff);
        OffsetsWithSiblings(old(head), tail, firstNameOff, startOff, delta, s1, head, p);
        ShiftAncestorKids(p, p, delta);
      } else {
        ShiftAncestorKids(startOff, startOff, delta);
      }
    }

    /** The parent lookup of `do_insert_path`: the path must have a last
        component and its parent must exist and be a directory. */
    method FindParent(path: Bytes, v: Variant) returns (err: int, parent: nat)
      requires Valid()
      ensures err == 0 || err == ERR_NO_PATH
      ensures err == ERR_NO_PATH <==> NoParent(head, tail, firstNameOff, path, v)
      ensures parent == ParentOff(head, tail, firstNameOff, path, v)
    {
      var split := SplitAt(path);
      if split.None? {
        return ERR_NO_PATH, 0;
      }
      parent := GetPathOffset(path[..split.value], v);
      err := if parent == 0 || (parent != DATA_START && IsFile(head, parent)) then ERR_NO_PATH else 0;
    }

    /** The sibling scan of `do_insert_path` in the list of `parent`, and
        otherwise the place for the new name. */
    method FindPlace(parent: nat, name: Bytes) returns (found: bool, place: nat)
      requires Valid()
      ensures var k := KidsStart(head, firstNameOff, parent); found == (k != 0 && HasSibling(head, tail, k, name))
      ensures var k := KidsStart(head, firstNameOff, parent);
        !found ==> place == if k != 0 then ListEnd(head, tail, k) else InsertOffset(head, tail, parent, parent, FUEL)
    {
      var kids := KidsStart(head, firstNameOff, parent);
      if kids != 0 {
        found, place := ScanSiblings(kids, name);
      } else {
        found := false;
        place := GetInsertOffset(parent);
      }
    }

    /** The checks `do_insert_path` makes before it changes anything: the
        parent must exist and be a directory, no sibling may have the name,
        and the place found for the name must lie within the data. */
    method CheckInsert(path: Bytes, v: Variant) returns (err: int, parent: nat, place: nat)
      requires Valid()
      ensures err == 0 || err == ERR_NO_PATH || err == ERR_PATH_EXISTS || err == CORRUPT
      ensures err == ERR_NO_PATH <==> NoParent(head, tail, firstNameOff, path, v)
      ensures err == ERR_PATH_EXISTS <==> NameTaken(head, tail, firstNameOff, path, v)
      ensures err == CORRUPT <==> (!NoParent(head, tail, firstNameOff, path, v)
        && !NameTaken(head, tail, firstNameOff, path, v) && InsertPlace(head, tail, firstNameOff, path, v) > tail)
      ensures err == 0 ==> (parent == ParentOff(head, tail, firstNameOff, path, v)
        && place == InsertPlace(head, tail, firstNameOff, path, v) && place <= tail)
    {
      err, parent := FindParent(path, v);
      if err != 0 {
        return err, parent, 0;
      }
      var found: bool;
      found, place := FindPlace(parent, LastName(path));
      if found {
        return ERR_PATH_EXISTS, parent, 0;
      }
      if place > tail {
        return CORRUPT, parent, place;
      }
    }

    /** `do_insert_path`: insert the last component of `path` into the list
        of its parent directory (opening a new list with its parent tag
        when the directory was empty), link the parent to it and shift the
        offsets after it. */
    method InsertPath(path: Bytes, isDir: bool, v: Variant, allocOk: bool) returns (err: int, change: Change)
      requires Valid() && CString(path) && |path| < 0x1000_0000
      modifies this
      ensures Valid() && firstNameOff == old(firstNameOff)
      ensures Edit(err, head, tail, [change]) == PathInsert(old(head), old(tail), firstNameOff, path, isDir, v, allocOk)
      ensures err != 0 ==> capacity == old(capacity)
    {
      var e, parent, place := CheckInsert(path, v);
      if e != 0 {
        PathInsertErrors(head, tail, firstNameOff, path, isDir, v, allocOk);
        return e, Change(0, 0);
      }
      var name := LastName(path);
      PathInsertChecked(head, tail, firstNameOff, path, isDir, v, allocOk);
      var empty := KidsStart(head, firstNameOff, parent) == 0;
      err, change := AddName(parent, place, name, isDir, empty, allocOk);
    }

    /** The second half of `do_insert_path`: room, the name, its links and
        the offsets past it, as `InsertAt` says. */
    method AddName(parent: nat, place: nat, name: Bytes, isDir: bool, empty: bool, allocOk: bool) returns (err: int, change: Change)
      requires Valid() && place <= tail && CString(name) && |name| < 0x1000_0000
      modifies this
      ensures Valid() && firstNameOff == old(firstNameOff)
      ensures Edit(err, head, tail, [change]) == InsertAt(old(head), old(tail), firstNameOff, parent, place, name, isDir, empty, allocOk)
      ensures err != 0 ==> capacity == old(capacity)
    {
      ghost var h0, t0 := head, tail;
      err := InsertNewName(place, name, isDir, empty, allocOk);
      if err != 0 {
        InsertAtNoRoom(h0, t0, firstNameOff, parent, place, name, isDir, allocOk, empty);
        return err, Change(0, 0);
      }
      ghost var g := head;
      var delta := LinkNewName(parent, place, |name| + 1 + (if isDir then 4 else 1), empty);
      ghost var l := head;
      change := Change(place, delta);
      UpdateOffsets(place, delta, true);
      InsertAtSteps(h0, t0, firstNameOff, parent, place, name, isDir, allocOk, empty, tail, delta, g, l, head);
    }

    /** The links `do_insert_path` writes after the name of `size` bytes was
        placed at `place`: for a directory that was empty, the parent tag
        closing its new list and its kids offset; otherwise the parent tag
        of the list the name joined. The count of bytes added. */
    method LinkNewName(parent: nat, place: nat, size: nat, empty: bool) returns (delta: nat)
      requires Valid()
      modifies this
      ensures Valid() && tail == old(tail) && capacity == old(capacity) && firstNameOff == old(firstNameOff)
      ensures head == Linked(old(head), tail, parent, place, size, empty)
      ensures delta == size + (if empty then 5 else 0)
    {
      delta := size;
      if empty {
        head := SetParentOffset(head, place + delta, Wrap32(parent));
        delta := delta + 5;
        head := SetKidsOff(head, parent, Wrap32(place));
      } else if parent != DATA_START {
        var ft := GetFolderTailOffset(place);
        head := SetParentOffset(head, ft, Wrap32(parent));
      }
    }

    /** The first half of `do_remove_path` for a directory with children:
        clear its kids offset and cut the subtree `[kids, treeEnd)` out. */
    method RemoveKids(nameOff: nat, kids: nat, treeEnd: nat)
      requires Valid() && firstNameOff <= kids <= treeEnd <= tail
      modifies this
      ensures Valid() && capacity == old(capacity) && firstNameOff == old(firstNameOff)
      ensures tail == Shrunk(old(tail), Span(kids, treeEnd))
      ensures head == Offsets(Cut(SetKidsOff(old(head), nameOff, 0), kids, Span(kids, treeEnd), old(tail)),
        tail, firstNameOff, nameOff, CutDelta(Span(kids, treeEnd)), false)
    {
      head := SetKidsOff(head, nameOff, 0);
      CutBytes(kids, Span(kids, treeEnd));
      UpdateOffsets(nameOff, CutDelta(Span(kids, treeEnd)), false);
    }

    /** The second half of `do_remove_path`: cut the entry at `nameOff` out,
        together with the parent tag of its list when it was the only name
        in it. The count of bytes removed, or CORRUPT when that count would
        cut into the root's header. */
    method RemoveNode(nameOff: nat) returns (err: int, size: nat)
      requires Valid()
      modifies this
      ensures Valid() && capacity == old(capacity) && firstNameOff == old(firstNameOff)
      ensures Edit(err, head, tail, if err == 0 then [Change(nameOff, -(size as int))] else [])
        == NodeRemove(old(head), old(tail), firstNameOff, nameOff)
      ensures err == 0 || err == CORRUPT
      ensures err != 0 ==> head == old(head) && tail == old(tail)
      ensures err == 0 ==> size >= NextName(old(head), nameOff) - nameOff > 0 && tail == old(tail) - size
    {
      var parent := GetParentOffset(nameOff);
      var sib1 := Get1stSiblingOffset(nameOff);
      var onlyKid := At(head, NextName(head, nameOff)) == 0 && sib1 == nameOff;
      size := NodeSize(head, nameOff, onlyKid);
      if size + firstNameOff > tail {
        return CORRUPT, size;
      }
      NodeRemoveChecked(head, tail, firstNameOff, nameOff, parent, onlyKid, size);
      CutNode(nameOff, parent, size, onlyKid);
      err := 0;
    }

    /** Unlink the entry at `nameOff`, cut its `size` bytes out and shift
        the offsets after the cut. */
    method CutNode(nameOff: nat, parent: nat, size: nat, onlyKid: bool)
      requires Valid() && size + firstNameOff <= tail
      modifies this
      ensures Valid() && capacity == old(capacity) && firstNameOff == old(firstNameOff)
      ensures NodeCut(old(head), old(tail), firstNameOff, nameOff, parent, size, onlyKid) == Edit(0, head, tail, [Change(nameOff, -(size as int))])
    {
      ghost var h0, t0 := head, tail;
      UnlinkNode(nameOff, parent, size, onlyKid);
      ghost var u := head;
      CutBytes(nameOff, size);
      ghost var c := head;
      if onlyKid {
        if parent != 0 {
          UpdateOffsets(parent, CutDelta(size), false);
        }
      } else {
        UpdateOffsets(nameOff, CutDelta(size), true);
      }
      NodeCutSteps(h0, t0, firstNameOff, nameOff, parent, onlyKid, size, u, c, head);
    }

    /** The links `do_remove_path` rewrites before cutting `size` bytes at
        `nameOff`: an only child empties its parent's kids offset; otherwise
        the parent tag of its list is pointed at the parent's place after
        the cut. */
    method UnlinkNode(nameOff: nat, parent: nat, size: nat, onlyKid: bool)
      requires Valid()
      modifies this
      ensures Valid() && tail == old(tail) && capacity == old(capacity) && firstNameOff == old(firstNameOff)
      ensures head == Unlinked(old(head), tail, nameOff, parent, size, onlyKid)
    {
      if onlyKid {
        if parent != 0 {
          head := SetKidsOff(head, parent, 0);
        }
      } else if parent != 0 {
        var ft := GetFolderTailOffset(nameOff);
        head := SetParentOffset(head, ft, Wrap32(parent + size));
      }
    }

    /** `memmove` the data after `off + size` down to `off` and lower the
        tail by `size`. */
    method CutBytes(off: nat, size: nat)
      requires Valid() && firstNameOff + size <= tail
      modifies this
      ensures Valid() && capacity == old(capacity) && firstNameOff == old(firstNameOff)
      ensures tail == Shrunk(old(tail), size) && head == Cut(old(head), off, size, old(tail))
      ensures off + size <= old(tail) ==> head[..off] == old(head[..off]) && head[off..tail] == old(head[off + size..tail])
    {
      if off + size < tail {
        head := Move(head, off + size, off, tail - off - size);
      }
      tail := tail - size;
    }

    /** `do_remove_path`: the root path empties the whole tree; any other
        path loses its subtree (if a directory with children) and then its
        own entry. The changes, summing to the change of the tail, and,
        when asked as `do_rename_path` asks, a copy of the subtree removed,
        whose `malloc` `treeOk` says succeeds. */
    method RemovePath(path: Bytes, v: Variant, wantTree: bool, treeOk: bool) returns (err: int, changes: seq<Change>, tree: Option<Bytes>)
      requires Valid()
      modifies this
      ensures Valid() && capacity == old(capacity) && firstNameOff == old(firstNameOff)
      ensures (Edit(err, head, tail, changes), tree) == PathRemove(old(head), old(tail), firstNameOff, path, v, wantTree, treeOk)
    {
      changes, tree := [], None;
      var nameOff := GetPathOffset(path, v);
      if nameOff == 0 {
        return ERR_NO_PATH, changes, tree;
      }
      if nameOff == DATA_START {
        if wantTree && !treeOk {
          return ERR_NO_MEM, changes, tree;
        }
        if wantTree {
          tree := Some(head[firstNameOff..tail]);
        }
        changes := [Change(firstNameOff, firstNameOff - tail)];
        tail := firstNameOff;
        return 0, changes, tree;
      }
      err, changes, tree := RemoveEntry(nameOff, wantTree, treeOk);
    }

    /** `do_remove_path` for an entry other than the root. */
    method RemoveEntry(nameOff: nat, wantTree: bool, treeOk: bool) returns (err: int, changes: seq<Change>, tree: Option<Bytes>)
      requires Valid()
      modifies this
      ensures Valid() && capacity == old(capacity) && firstNameOff == old(firstNameOff)
      ensures (Edit(err, head, tail, changes), tree) == EntryRemove(old(head), old(tail), firstNameOff, nameOff, wantTree, treeOk)
    {
      var kids := KidsOffset(head, nameOff);
      if kids == 0 {
        var size: nat;
        err, size := RemoveNode(nameOff);
        changes := if err == 0 then [Change(nameOff, -(size as int))] else [];
        return err, changes, None;
      }
      var treeEnd := GetTreeEndOffset(kids);
      if !(firstNameOff <= kids <= treeEnd <= tail) {
        return CORRUPT, [], None;
      }
      if wantTree && !treeOk {
        return ERR_NO_MEM, [], None;
      }
      err, changes, tree := RemoveDir(nameOff, kids, treeEnd, wantTree);
    }

    /** `do_remove_path` for a directory with children: save the subtree
        when asked, cut it out, then remove the entry itself. */
    method RemoveDir(nameOff: nat, kids: nat, treeEnd: nat, wantTree: bool) returns (err: int, changes: seq<Change>, tree: Option<Bytes>)
      requires Valid() && firstNameOff <= kids <= treeEnd <= tail
      modifies this
      ensures Valid() && capacity == old(capacity) && firstNameOff == old(firstNameOff)
      ensures (Edit(err, head, tail, changes), tree) == KidsRemove(old(head), old(tail), firstNameOff, nameOff, kids, treeEnd, wantTree)
    {
      tree := if wantTree then Some(head[kids..treeEnd]) else None;
      RemoveKids(nameOff, kids, treeEnd);
      ghost var g, t := head, tail;
      var size: nat;
      err, size := RemoveNode(nameOff);
      var own := if err == 0 then [Change(nameOff, -(size as int))] else [];
      changes := [Change(kids, kids - treeEnd)] + own;
      ghost var n := Edit(err, head, tail, own);
      KidsRemoveSteps(old(head), old(tail), firstNameOff, nameOff, kids, treeEnd, wantTree, t, g, n);
    }

    /** The checks `do_rename_path` makes before it changes anything, the
        target's offset and whether the source is a file. */
    method CheckRename(src: Bytes, dst: Bytes, v: Variant) returns (err: int, dstOff: nat, srcIsFile: bool)
      requires Valid()
      ensures err == RenameCheck(head, tail, firstNameOff, src, dst, v)
      ensures dstOff == Lookup(head, tail, firstNameOff, dst, v)
      ensures srcIsFile == IsFile(head, Lookup(head, tail, firstNameOff, src, v))
    {
      dstOff := 0;
      srcIsFile := false;
      if v == Legacy && IsPrefix(src, dst) {
        return ERR_NESTED, Lookup(head, tail, firstNameOff, dst, v), IsFile(head, Lookup(head, tail, firstNameOff, src, v));
      }
      var srcOff := GetPathOffset(src, v);
      dstOff := GetPathOffset(dst, v);
      srcIsFile := IsFile(head, srcOff);
      if srcOff == 0 {
        return ERR_NO_PATH, dstOff, srcIsFile;
      }
      if dstOff == DATA_START {
        return ERR_NESTED, dstOff, srcIsFile;
      }
      if dstOff != 0 && IsFile(head, dstOff) != srcIsFile {
        return ERR_PATH_DIFFER, dstOff, srcIsFile;
      }
      if dstOff != 0 && !srcIsFile && KidsOffset(head, dstOff) != 0 {
        return ERR_NOTEMPTY, dstOff, srcIsFile;
      }
      var parent: nat;
      err, parent := FindParent(dst, v);
    }

    /** Make room for `tree` at `off` and copy it there. */
    method PlaceTree(off: nat, tree: Bytes)
      requires Valid() && off <= tail && tail + |tree| <= capacity
      modifies this
      ensures Valid() && capacity == old(capacity) && firstNameOff == old(firstNameOff)
      ensures tail == Grown(old(tail), |tree|) && head == Placed(old(head), old(tail), off, tree)
      ensures head[off..off + |tree|] == tree
    {
      var m := MoveUp(head, tail, off, |tree|);
      head := Write(m, off, tree);
      tail := tail + |tree|;
    }

    /** The last step of `do_rename_path`: put the directory's saved
        subtree back as the child list of the target at `dstOff`; `allocOk`
        says whether the `realloc` it may need succeeds. */
    method CopyBack(dstOff: nat, tree: Bytes, allocOk: bool) returns (err: int, change: Change)
      requires Valid() && |tree| <= MAX_FSBUF_SIZE
      modifies this
      ensures Valid() && firstNameOff == old(firstNameOff)
      ensures Edit(err, head, tail, [change]) == TreeCopy(old(head), old(tail), firstNameOff, dstOff, tree, allocOk)
      ensures err == 0 || err == ERR_NO_MEM || err == CORRUPT
      ensures err != 0 ==> tail == old(tail) && change == Change(0, 0)
      ensures err == ERR_NO_MEM ==> head == old(head) && capacity == old(capacity)
      ensures err == 0 ==> tail == old(tail) + |tree| && change.delta == |tree| && change.startOff <= old(tail)
    {
      var size := |tree|;
      if size + tail >= capacity {
        var e := AddCapacity(size, allocOk);
        if e != 0 {
          return ERR_NO_MEM, Change(0, 0);
        }
      }
      var kidsOff := GetInsertOffset(dstOff);
      if kidsOff > tail {
        return CORRUPT, Change(0, 0);
      }
      PlaceTree(kidsOff, tree);
      head := SetKidsOff(head, dstOff, Wrap32(kidsOff));
      var ft := GetFolderTailOffset(kidsOff);
      head := SetParentOffset(head, ft, Wrap32(dstOff));
      UpdateOffsets(kidsOff, size, true);
      change := Change(kidsOff, size);
      err := 0;
    }

    /** `do_rename_path`: after its checks, remove the source (saving a
        directory's subtree), insert the target when it did not exist, and
        put the subtree back under the target. The changes account for the
        whole change of the tail. `treeOk`, `nameOk` and `roomOk` say whether
        the allocations for the saved subtree, the target's name and the
        subtree's room succeed. */
    method RenamePath(src: Bytes, dst: Bytes, v: Variant, treeOk: bool, nameOk: bool, roomOk: bool) returns (err: int, changes: seq<Change>)
      requires Valid() && CString(dst) && |dst| < 0x1000_0000
      modifies this
      ensures Valid() && firstNameOff == old(firstNameOff)
      ensures Edit(err, head, tail, changes) == PathRename(old(head), old(tail), firstNameOff, src, dst, v, treeOk, nameOk, roomOk)
      ensures old(RenameCheck(head, tail, firstNameOff, src, dst, v)) != 0 ==> capacity == old(capacity)
    {
      var e, dstOff0, srcIsFile := CheckRename(src, dst, v);
      if e != 0 {
        return e, [];
      }
      var tree: Option<Bytes>;
      err, changes, tree := RemovePath(src, v, true, treeOk);
      if err != 0 {
        return err, changes;
      }
      if dstOff0 == 0 {
        var ie, ch := InsertPath(dst, !srcIsFile, v, nameOk);
        changes := changes + [ch];
      }
      var dstOff := GetPathOffset(dst, v);
      if tree.Some? {
        var e2, ch2 := CopyBack(dstOff, tree.value, roomOk);
        if e2 != 0 {
          return e2, changes;
        }
        changes := changes + [ch2];
      }
      err := 0;
    }

    /** `get_path_range`: the offset of `path` and the range its subtree
        occupies: the whole tree for the root, the child list to the end of
        the subtree otherwise (0 to the end of the subtree at 0 for a
        directory without children). The C code leaves the range unset for
        a path it does not find; the model gives 0 and 0 there. */
    method GetPathRange(path: Bytes, v: Variant) returns (pathOff: nat, startOff: nat, endOff: nat)
      requires Valid()
      ensures pathOff == Lookup(head, tail, firstNameOff, path, v)
      ensures pathOff == 0 ==> startOff == 0 && endOff == 0
      ensures pathOff == DATA_START ==> startOff == firstNameOff && endOff == tail
      ensures pathOff != 0 && pathOff != DATA_START ==>
        startOff == KidsOffset(head, pathOff) && endOff == TreeEnd(head, tail, startOff, 0, FUEL)
    {
      pathOff := GetPathOffset(path, v);
      startOff, endOff := 0, 0;
      if pathOff != 0 {
        if pathOff == DATA_START {
          startOff, endOff := firstNameOff, tail;
        } else {
          startOff := KidsOffset(head, pathOff);
          endOff := GetTreeEndOffset(startOff);
        }
      }
    }

    /** `search_files`: from `start`, the offsets of up to `size` names
        before `end` and the tail that the comparator accepts (in the
        current copy the progress callback may stop the scan), and where
        the scan stopped. */
    method SearchFiles(start: nat, end: nat, size: nat, cmp: Bytes -> int, pcf: Option<(nat, Bytes) -> bool>, v: Variant)
      returns (results: seq<nat>, next: nat)
      requires Valid()
      ensures results == Hits(head, start, next, cmp, v) && OnChain(head, start, next)
      ensures |results| <= size
      ensures forall i :: 0 <= i < |results| ==> start <= results[i] < next && Hit(head, results[i], cmp, v)
      ensures forall i, j :: 0 <= i < j < |results| ==> results[i] < results[j]
      ensures next < (if tail > end then end else tail) && |results| < size ==>
        v == Current && pcf.Some? && pcf.value(|results|, Name(head, next))
      ensures (pcf.None? || v == Legacy) && |results| < size ==> next >= (if tail > end then end else tail)
    {
      results, next := ScanNames(head, start, if tail > end then end else tail, size, cmp, pcf, v);
    }
  }

  /** The loop of `do_get_path_offset`, from the name at `offset` with the
      rest of the path at `pi`. */
  method WalkNames(h: Bytes, t: nat, path: Bytes, pi0: nat, offset0: nat) returns (r: nat)
    ensures r == Walk(h, t, path, pi0, offset0)
  {
    var pi, offset := pi0, offset0;
    while offset < t
      invariant Walk(h, t, path, pi, offset) == Walk(h, t, path, pi0, offset0)
      decreases t - offset
    {
      var v := VisitAt(h, path, pi, offset);
      if v.Stop? {
        return v.found;
      }
      pi, offset := v.pi, v.offset;
    }
    return 0;
  }

  /** The body of that loop for the name at `offset`. */
  method VisitAt(h: Bytes, path: Bytes, pi: nat, offset: nat) returns (v: Visit)
    ensures v == VisitName(h, path, pi, offset)
  {
    if At(h, offset) == 0 {
      return Stop(0);
    }
    var n := StrLen(h, offset);
    if Matches(h, offset, path, pi) {
      if At(path, pi + n) == 0 {
        return Stop(offset);
      }
      var kids := KidsOffset(h, offset);
      if kids == 0 {
        return Stop(0);
      }
      return Next(pi + n + 1, kids);
    }
    return Next(pi, NextName(h, offset));
  }

  /** `new_fs_buf`: null unless the arguments are accepted and the two
      `malloc`s and the lock set-up succeed (`allocOk`); otherwise a
      buffer of the requested capacity holding the root path and an empty
      tree, with the first name and the tail right after the root's NUL. */
  method NewFsBuf(capacity: u32, root: Option<Bytes>, allocOk: bool) returns (b: FsBuf?)
    requires root.Some? ==> CString(root.value)
    ensures b == null <==> !Accepts(capacity, root) || !allocOk
    ensures b != null ==> (fresh(b) && b.Valid() && b.capacity == capacity
      && b.tail == b.firstNameOff == DATA_START + |root.value| + 1 && Name(b.head, DATA_START) == root.value)
  {
    if capacity > MAX_FSBUF_SIZE || root.None? {
      return null;
    }
    var r := root.value;
    if |r| + FS_NEW_BLK_SIZE > capacity {
      return null;
    }
    if At(r, 0) != SLASH || At(r, |r| - 1) != SLASH || !allocOk {
      return null;
    }
    b := new FsBuf(capacity, r);
  }

  /** The loop of `search_files` over the names from `start` up to `min`. */
  method ScanNames(h: Bytes, start: nat, min: nat, size: nat, cmp: Bytes -> int, pcf: Option<(nat, Bytes) -> bool>, v: Variant)
    returns (results: seq<nat>, next: nat)
    ensures results == Hits(h, start, next, cmp, v) && OnChain(h, start, next)
    ensures |results| <= size
    ensures forall i :: 0 <= i < |results| ==> start <= results[i] < next && Hit(h, results[i], cmp, v)
    ensures forall i, j :: 0 <= i < j < |results| ==> results[i] < results[j]
    ensures next < min && |results| < size ==> v == Current && pcf.Some? && pcf.value(|results|, Name(h, next))
    ensures (pcf.None? || v == Legacy) && |results| < size ==> next >= min
  {
    results, next := [], start;
    while next < min && |results| < size
      invariant results == Hits(h, start, next, cmp, v) && OnChain(h, start, next)
      invariant |results| <= size
      decreases min - next
    {
      if v == Current && pcf.Some? && pcf.value(|results|, Name(h, next)) {
        break;
      }
      HitsSnoc(h, start, next, cmp, v);
      if Hit(h, next, cmp, v) {
        results := results + [next];
      }
      OnChainSnoc(h, start, next);
      next := NextName(h, next);
    }
    HitsProps(h, start, next, cmp, v);
  }
}

/** The byte layout of the Linear File Tree (LFT): one buffer holding the
    root path at DATA_START and then, for each directory, the names of its
    entries one after the other, each a NUL-terminated name followed by a
    tag. A file's tag is the single byte 0; a directory's is a little-endian
    uint32_t `(rel << 2) + 1`, where `rel` is the distance from the tag to
    the directory's first child, or 0 when it has none. A directory's list
    of entries ends with a parent tag: an empty name and a uint32_t
    `(rel << 2) + 1`, where `rel` is the distance back from that tag to the
    parent's name, or 0 under the root.

    Offsets are unbounded naturals: a sum of offsets could only wrap
    around in 32 bits more than 2^31 bytes past the largest buffer; a
    difference is wrapped explicitly wherever C computes it in uint32_t.
    Bytes outside the buffer read as 0 and writes outside it are dropped. */
module LftLayout {
  import opened Common

  const DATA_START := 8
  const FS_NEW_BLK_SIZE := 0x10_0000
  const FS_TAG_BITS := 2
  /** `1 << (32 - FS_TAG_BITS)`: a relative offset must fit in a tag. */
  const MAX_FSBUF_SIZE := 0x4000_0000
  const FS_TAG_FILE: byte := 0
  const FS_TAG_DIR := 1
  const SLASH: byte := 0x2F

  type Bytes = seq<byte>

  /** A C string: no NUL inside. */
  predicate CString(s: Bytes)
  {
    Free(s, 0)
  }

  /** `*(head + i)`. */
  function At(h: Bytes, i: int): byte
  {
    if 0 <= i < |h| then h[i] else 0
  }

  /** `strlen(head + off)`: the distance to the first NUL. */
  function StrLen(h: Bytes, off: nat): (n: nat)
    ensures off < |h| ==> off + n <= |h|
    ensures off >= |h| ==> n == 0
    ensures At(h, off + n) == 0
    ensures forall k :: off <= k < off + n ==> At(h, k) != 0
    decreases |h| - off
  {
    if off >= |h| || h[off] == 0 then 0 else 1 + StrLen(h, off + 1)
  }

  /** The C string at `head + off`. */
  function Name(h: Bytes, off: nat): (r: Bytes)
    ensures CString(r) && |r| == StrLen(h, off)
    ensures forall k :: 0 <= k < |r| ==> r[k] == At(h, off + k)
  {
    if off < |h| then
      var n := StrLen(h, off);
      var r := h[off..off + n];
      assert forall k :: 0 <= k < n ==> r[k] == At(h, off + k);
      r
    else []
  }

  /** A C string `s` followed by a NUL at `off` has length `|s|`. */
  lemma {:induction false} StrLenOf(h: Bytes, off: nat, s: Bytes)
    requires CString(s) && off + |s| < |h|
    requires h[off..off + |s|] == s && h[off + |s|] == 0
    ensures StrLen(h, off) == |s| && Name(h, off) == s
    decreases |s|
  {
    if s != [] {
      assert h[off] == s[0];
      assert h[off + 1..off + 1 + |s[1..]|] == s[1..];
      StrLenOf(h, off + 1, s[1..]);
    }
  }

  /** Changing bytes past a string's NUL leaves the string alone. */
  lemma {:induction false} StrLenStable(h: Bytes, g: Bytes, off: nat)
    requires |g| == |h|
    requires forall k :: off <= k <= off + StrLen(h, off) ==> At(g, k) == At(h, k)
    ensures StrLen(g, off) == StrLen(h, off) && Name(g, off) == Name(h, off)
    decreases |h| - off
  {
    if off < |h| && h[off] != 0 {
      StrLenStable(h, g, off + 1);
    }
  }

  /** `head[i] = b`. */
  function Put(h: Bytes, i: int, b: byte): (r: Bytes)
    ensures |r| == |h|
    ensures forall k :: k != i ==> At(r, k) == At(h, k)
    ensures 0 <= i < |h| ==> At(r, i) == b
  {
    if 0 <= i < |h| then h[i := b] else h
  }

  /** The little-endian uint32_t at `head + i`. */
  function Get32(h: Bytes, i: int): u32
  {
    At(h, i) as int + 0x100 * At(h, i + 1) as int + 0x1_0000 * At(h, i + 2) as int
    + 0x100_0000 * At(h, i + 3) as int
  }

  /** `*(uint32_t *)(head + i) = v` on a little-endian machine. */
  function Put32(h: Bytes, i: int, v: u32): (r: Bytes)
    ensures |r| == |h|
    ensures forall k :: !(i <= k < i + 4) ==> At(r, k) == At(h, k)
  {
    var q1 := v / 0x100;
    var q2 := q1 / 0x100;
    var q3 := q2 / 0x100;
    Put(Put(Put(Put(h, i, (v % 0x100) as byte), i + 1, (q1 % 0x100) as byte), i + 2, (q2 % 0x100) as byte),
        i + 3, q3 as byte)
  }

  /** A stored uint32_t reads back; its low byte is its value modulo 256. */
  lemma Get32Put32(h: Bytes, i: int, v: u32)
    requires 0 <= i && i + 4 <= |h|
    ensures Get32(Put32(h, i, v), i) == v
    ensures At(Put32(h, i, v), i) as int == v % 0x100
  {
    var q1 := v / 0x100;
    var q2 := q1 / 0x100;
    var r := Put32(h, i, v);
    assert At(r, i) as int == v % 0x100;
    assert At(r, i + 1) as int == q1 % 0x100;
    assert At(r, i + 2) as int == q2 % 0x100;
    assert At(r, i + 3) as int == q2 / 0x100;
  }

  /** `memmove(head + dst, head + src, n)`: the result holds at `dst` the `n`
      bytes that were at `src`. */
  function Move(h: Bytes, src: nat, dst: nat, n: nat): (r: Bytes)
    requires src + n <= |h| && dst + n <= |h|
    ensures |r| == |h| && r[dst..dst + n] == h[src..src + n]
    ensures forall k :: 0 <= k < |h| && !(dst <= k < dst + n) ==> r[k] == h[k]
  {
    h[..dst] + h[src..src + n] + h[dst + n..]
  }

  /** `memcpy(head + i, bs, |bs|)`, dropping what falls past the buffer. */
  function Write(h: Bytes, i: nat, bs: Bytes): (r: Bytes)
    ensures |r| == |h|
    ensures i + |bs| <= |h| ==> r[i..i + |bs|] == bs
    ensures forall k :: 0 <= k < |h| && !(i <= k < i + |bs|) ==> r[k] == h[k]
  {
    if i + |bs| <= |h| then h[..i] + bs + h[i + |bs|..]
    else if i < |h| then h[..i] + bs[..|h| - i]
    else h
  }

  /** The `n` bytes at `head + i` (`memcpy` out of the buffer). */
  function Slice(h: Bytes, i: nat, n: nat): (r: Bytes)
    ensures |r| == n && forall k :: 0 <= k < n ==> r[k] == At(h, i + k)
  {
    seq(n, k requires 0 <= k < n => At(h, i + k))
  }

  /** Where the tag of the name at `off` starts. */
  function TagOff(h: Bytes, off: nat): nat
  {
    off + StrLen(h, off) + 1
  }

  /** `do_is_file`: the byte after the name is FS_TAG_FILE. */
  predicate IsFile(h: Bytes, off: nat)
  {
    At(h, TagOff(h, off)) == FS_TAG_FILE
  }

  /** `next_name`: the offset just past the name, its NUL and its tag. */
  function NextName(h: Bytes, off: nat): (r: nat)
    ensures r == off + |Name(h, off)| + 1 + (if IsFile(h, off) then 1 else 4)
    ensures off < |h| ==> r <= |h| + 4
  {
    if IsFile(h, off) then TagOff(h, off) + 1 else TagOff(h, off) + 4
  }

  /** `get_reloff_by_tag`: `(tag - (tag & 3)) >> 2`, the tag without its
      two flag bits. */
  function RelOff(h: Bytes, tagOff: int): (r: nat)
    ensures r < MAX_FSBUF_SIZE
  {
    Get32(h, tagOff) / 4
  }

  /** `get_kids_offset`: 0 for a file or a directory without children,
      otherwise the tag's offset plus the relative offset stored in it. */
  function KidsOffset(h: Bytes, off: nat): (r: nat)
    ensures r == 0 || r > off
  {
    if IsFile(h, off) then 0
    else
      var rel := RelOff(h, TagOff(h, off));
      if rel == 0 then 0 else TagOff(h, off) + rel
  }

  /** `(rel << FS_TAG_BITS) + FS_TAG_DIR` in uint32_t. */
  function DirTag(rel: u32): u32
  {
    Wrap32(Wrap32(rel * 4) + FS_TAG_DIR)
  }

  /** A relative offset below 2^30 survives the tag encoding, and the tag's
      low byte is odd, so it never reads as FS_TAG_FILE. */
  lemma DirTagDecode(rel: u32)
    requires rel < MAX_FSBUF_SIZE
    ensures DirTag(rel) / 4 == rel && DirTag(rel) % 0x100 % 4 == 1
  {
    assert DirTag(rel) == rel * 4 + 1;
  }

  /** `do_set_kids_off`: store the distance from the tag to `kids`, or 0. */
  function SetKidsOff(h: Bytes, off: nat, kids: u32): (r: Bytes)
    ensures |r| == |h|
  {
    var t := TagOff(h, off);
    var rel := if kids != 0 then Wrap32(kids - t) else 0;
    Put32(h, t, DirTag(rel))
  }

  /** `set_parent_offset`: an empty name at `off` and a tag holding the
      distance back to `parent`, or 0 for the root. */
  function SetParentOffset(h: Bytes, off: nat, parent: u32): (r: Bytes)
    ensures |r| == |h|
  {
    var rel := if parent > 0 then Wrap32(off + 1 - parent) else 0;
    Put32(Put(h, off, 0), off + 1, DirTag(rel))
  }

  /** The parent a parent tag at `t` points to: the tag's offset minus the
      stored distance, or 0 for the root. */
  function ParentAt(h: Bytes, t: nat): u32
  {
    var rel := RelOff(h, t + 1);
    if rel == 0 then 0 else Wrap32(t + 1 - rel)
  }

  /** Round trip of the child link: after `do_set_kids_off(n, k)` the name at
      `n` is unchanged, reads as a directory, and `get_kids_offset(n)` is `k`;
      storing 0 reads back as "no children". */
  lemma KidsRoundTrip(h: Bytes, off: nat, kids: u32)
    requires TagOff(h, off) + 4 <= |h|
    requires kids == 0 || TagOff(h, off) < kids < TagOff(h, off) + MAX_FSBUF_SIZE
    ensures var g := SetKidsOff(h, off, kids);
      Name(g, off) == Name(h, off) && !IsFile(g, off) && KidsOffset(g, off) == kids
  {
    var t := TagOff(h, off);
    var rel := if kids != 0 then Wrap32(kids - t) else 0;
    assert rel == if kids != 0 then kids - t else 0;
    var g := SetKidsOff(h, off, kids);
    StrLenStable(h, g, off);
    DirTagDecode(rel);
    Get32Put32(h, t, DirTag(rel));
  }

  /** Round trip of the parent link: after `set_parent_offset(t, p)` the entry
      at `t` is an empty name whose parent, as `get_parent_offset` reads it,
      is `p`: the root's 0, or a name before the tag within 2^30 bytes. */
  lemma ParentRoundTrip(h: Bytes, t: nat, p: u32)
    requires t + 5 <= |h|
    requires p == 0 || (0 < p <= t && t + 1 - p < MAX_FSBUF_SIZE)
    ensures var g := SetParentOffset(h, t, p);
      At(g, t) == 0 && ParentAt(g, t) == p && RelOff(g, t + 1) == if p > 0 then t + 1 - p else 0
  {
    var rel := if p > 0 then Wrap32(t + 1 - p) else 0;
    assert rel == if p > 0 then t + 1 - p else 0;
    DirTagDecode(rel);
    Get32Put32(Put(h, t, 0), t + 1, DirTag(rel));
  }

  /** `get_folder_tail_offset`: walking the names from `off`, the first empty
      one (a parent tag) before `tail`, or 0 when none is met. */
  function FolderTail(h: Bytes, tail: nat, off: nat): (r: nat)
    ensures r != 0 ==> off <= r < tail && At(h, r) == 0
    decreases tail - off
  {
    if off >= tail then 0
    else if At(h, off) != 0 then FolderTail(h, tail, NextName(h, off))
    else off
  }

  /** `get_parent_offset`: the parent named by the tag that ends the list of
      names holding `off`, or 0 under the root or when no tag is met. */
  function ParentOf(h: Bytes, tail: nat, off: nat): u32
  {
    var t := FolderTail(h, tail, off);
    if t == 0 then 0 else ParentAt(h, t)
  }

  /** `strrchr(path, '/')`: the index of the last '/'. */
  function LastSlash(path: Bytes): (r: Option<nat>)
    ensures r.Some? ==> r.value < |path| && path[r.value] == SLASH && Free(path[r.value + 1..], SLASH)
    ensures r.None? ==> Free(path, SLASH)
  {
    if path == [] then None
    else if path[|path| - 1] == SLASH then Some(|path| - 1)
    else
      var r := LastSlash(path[..|path| - 1]);
      assert r.Some? ==> path[r.value + 1..] == path[..|path| - 1][r.value + 1..] + [path[|path| - 1]];
      r
  }
  /** The two copies of the library: `Current` is src/library/src/fs_buf.c,
      `Legacy` the older library/src/fs_buf.c. */
  datatype Variant = Current | Legacy

  /** The test of `do_get_path_offset`'s loop: the name at `offset` occurs
      in the path at `pi`, followed by its end or a '/'. */
  predicate Matches(h: Bytes, offset: nat, path: Bytes, pi: nat)
  {
    var n := StrLen(h, offset);
    OccursAt(Name(h, offset), path, pi) && (At(path, pi + n) == 0 || At(path, pi + n) == SLASH)
  }

  /** What one name does to the walk: it ends with `found` (0 for "not
      found"), or goes on with the rest of the path at `pi` from the name at
      `offset`. */
  datatype Visit = Stop(found: nat) | Next(pi: nat, offset: nat)

  /** One pass of `do_get_path_offset`'s loop over the name at `offset`: an
      empty name (a parent tag) ends the walk, a name that matches up to
      the path's end is the answer, one that matches up to a '/' descends
      into its children (or ends the walk when it has none), and any other
      name passes to the next one. */
  function VisitName(h: Bytes, path: Bytes, pi: nat, offset: nat): (v: Visit)
    ensures v.Next? ==> v.offset > offset && v.pi >= pi
    ensures v.Stop? && v.found != 0 ==>
      v.found == offset && At(h, offset) != 0 && Matches(h, offset, path, pi) && At(path, pi + StrLen(h, offset)) == 0
  {
    if At(h, offset) == 0 then Stop(0)
    else if Matches(h, offset, path, pi) then
      var n := StrLen(h, offset);
      if At(path, pi + n) == 0 then Stop(offset)
      else
        var kids := KidsOffset(h, offset);
        if kids == 0 then Stop(0) else Next(pi + n + 1, kids)
    else Next(pi, NextName(h, offset))
  }

  /** The walk of `do_get_path_offset` from the name at `offset`, with the
      rest of the path starting at index `pi`, while `offset` is below
      `tail`. */
  function Walk(h: Bytes, tail: nat, path: Bytes, pi: nat, offset: nat): (r: nat)
    decreases tail - offset
  {
    if offset >= tail then 0
    else
      match VisitName(h, path, pi, offset)
      case Stop(found) => found
      case Next(pi', offset') => Walk(h, tail, path, pi', offset')
  }

  /** What the walk finds is a non-empty name between where it starts and
      `tail`, and, for a C-string path, the name is the path's last
      component. */
  lemma WalkFinds(h: Bytes, tail: nat, path: Bytes, pi: nat, offset: nat)
    ensures var r := Walk(h, tail, path, pi, offset);
      r != 0 ==> (offset <= r < tail && At(h, r) != 0
                  && (CString(path) ==> pi + |Name(h, r)| <= |path| && IsSuffix(Name(h, r), path)))
  {
    WalkBounds(h, tail, path, pi, offset);
    if CString(path) {
      WalkSuffix(h, tail, path, pi, offset);
    }
  }

  lemma {:induction false} WalkBounds(h: Bytes, tail: nat, path: Bytes, pi: nat, offset: nat)
    ensures var r := Walk(h, tail, path, pi, offset); r != 0 ==> offset <= r < tail && At(h, r) != 0
    decreases tail - offset
  {
    if offset < tail {
      var v := VisitName(h, path, pi, offset);
      if v.Next? {
        WalkBounds(h, tail, path, v.pi, v.offset);
      }
    }
  }

  /** A name matching the path up to the path's end is its last component. */
  lemma MatchEndsPath(h: Bytes, offset: nat, path: Bytes, pi: nat)
    requires CString(path) && Matches(h, offset, path, pi) && At(path, pi + StrLen(h, offset)) == 0
    ensures EndsPath(h, path, pi, offset)
  {
    var n := StrLen(h, offset);
    assert |Name(h, offset)| == n && pi + n <= |path|;
    if pi + n < |path| {
      assert false;
    }
    assert path[|path| - n..] == path[pi..pi + n];
  }

  /** The name at `r` is the last component of `path`, which starts at or
      after `pi`. */
  ghost predicate EndsPath(h: Bytes, path: Bytes, pi: nat, r: nat)
  {
    pi + |Name(h, r)| <= |path| && IsSuffix(Name(h, r), path)
  }

  lemma EndsPathEarlier(h: Bytes, path: Bytes, pi: nat, pj: nat, r: nat)
    requires pi <= pj && EndsPath(h, path, pj, r)
    ensures EndsPath(h, path, pi, r)
  {
  }

  lemma {:induction false} WalkSuffix(h: Bytes, tail: nat, path: Bytes, pi: nat, offset: nat)
    requires CString(path)
    ensures Walk(h, tail, path, pi, offset) != 0 ==> EndsPath(h, path, pi, Walk(h, tail, path, pi, offset))
    decreases tail - offset
  {
    if offset < tail {
      var v := VisitName(h, path, pi, offset);
      if v.Stop? && v.found != 0 {
        MatchEndsPath(h, offset, path, pi);
      } else if v.Next? {
        WalkSuffix(h, tail, path, v.pi, v.offset);
        var r := Walk(h, tail, path, v.pi, v.offset);
        if r != 0 {
          EndsPathEarlier(h, path, pi, v.pi, r);
        }
      }
    }
  }

  /** `do_get_path_offset`: DATA_START for the root (and for the empty path
      when the root is "/"), 0 when the root is not a prefix of the path,
      otherwise the walk from the first name. */
  function Find(h: Bytes, tail: nat, first: nat, path: Bytes): (r: nat)
    requires first > DATA_START
  {
    if path == [] && first == DATA_START + 2 then DATA_START
    else if !IsPrefix(Name(h, DATA_START), path) then 0
    else if At(path, first - DATA_START - 1) == 0 then DATA_START
    else Walk(h, tail, path, first - DATA_START - 1, first)
  }

  /** Past the root, the lookup is the walk from the first name. */
  lemma FindWalks(h: Bytes, tail: nat, first: nat, path: Bytes)
    requires first > DATA_START && !(path == [] && first == DATA_START + 2)
    requires IsPrefix(Name(h, DATA_START), path) && At(path, first - DATA_START - 1) != 0
    ensures Find(h, tail, first, path) == Walk(h, tail, path, first - DATA_START - 1, first)
  {
  }

  /** The path `get_path_offset` retries with: without its trailing '/', or
      with one added. */
  function Fallback(path: Bytes): Bytes
  {
    if At(path, |path| - 1) == SLASH then path[..|path| - 1] else path + [SLASH]
  }

  /** `get_path_offset`: the current copy retries a failed lookup with the
      fallback path; the older one does not. */
  function Lookup(h: Bytes, tail: nat, first: nat, path: Bytes, v: Variant): nat
    requires first > DATA_START
  {
    var r := Find(h, tail, first, path);
    if r != 0 || v == Legacy then r else Find(h, tail, first, Fallback(path))
  }

  /** A lookup that finds a name finds the last component of the path it
      searched: the result is 0, DATA_START, or a non-empty name before
      `tail` that ends the path (or, in the current copy, its fallback). */
  lemma LookupFindsSuffix(h: Bytes, tail: nat, first: nat, path: Bytes, v: Variant)
    requires first > DATA_START && CString(path)
    ensures var r := Lookup(h, tail, first, path, v);
      r == 0 || r == DATA_START
      || (first <= r < tail && Name(h, r) != []
          && (IsSuffix(Name(h, r), path) || (v == Current && IsSuffix(Name(h, r), Fallback(path)))))
  {
    FindFinds(h, tail, first, path);
    if Find(h, tail, first, path) == 0 && v == Current {
      FallbackIsCString(path);
      FindFinds(h, tail, first, Fallback(path));
    }
  }

  /** `Find` of a C-string path yields 0, DATA_START, or a non-empty name
      that ends the path. */
  lemma FindFinds(h: Bytes, tail: nat, first: nat, path: Bytes)
    requires first > DATA_START && CString(path)
    ensures var r := Find(h, tail, first, path);
      r == 0 || r == DATA_START || (first <= r < tail && Name(h, r) != [] && IsSuffix(Name(h, r), path))
  {
    WalkFinds(h, tail, path, first - DATA_START - 1, first);
  }

  lemma FallbackIsCString(path: Bytes)
    requires CString(path)
    ensures CString(Fallback(path))
  {
    var fb := Fallback(path);
    if At(path, |path| - 1) != SLASH {
      assert forall k :: 0 <= k < |fb| ==> fb[k] == if k < |path| then path[k] else SLASH;
    }
  }

  /** A lookup yields 0, DATA_START, or a non-empty name between the first
      name and `tail`. */
  lemma LookupRange(h: Bytes, tail: nat, first: nat, path: Bytes, v: Variant)
    requires first > DATA_START
    ensures var r := Lookup(h, tail, first, path, v);
      r == 0 || r == DATA_START || (first <= r < tail && At(h, r) != 0)
  {
    WalkFinds(h, tail, path, first - DATA_START - 1, first);
    WalkFinds(h, tail, Fallback(path), first - DATA_START - 1, first);
  }

  /** The root path itself is found at DATA_START, in both copies, when the
      root string at DATA_START is intact. */
  lemma RootLookup(h: Bytes, tail: nat, first: nat, root: Bytes, v: Variant)
    requires first > DATA_START && Name(h, DATA_START) == root && first == DATA_START + |root| + 1
    ensures Lookup(h, tail, first, root, v) == DATA_START
  {
    assert root[..|root|] == root;
  }

  /** The current copy also finds the root without its trailing '/' (the
      form a caller strips off), provided the root is "/" or does not end
      in "//". */
  lemma RootLookupWithoutSlash(h: Bytes, tail: nat, first: nat, root: Bytes)
    requires first > DATA_START && Name(h, DATA_START) == root && first == DATA_START + |root| + 1
    requires |root| >= 1 && root[|root| - 1] == SLASH
    requires |root| == 1 || root[|root| - 2] != SLASH
    ensures Lookup(h, tail, first, root[..|root| - 1], Current) == DATA_START
  {
    var p := root[..|root| - 1];
    if |root| > 1 {
      assert At(p, |p| - 1) == root[|root| - 2];
      assert Fallback(p) == root;
      RootLookup(h, tail, first, root, Current);
    }
  }
}

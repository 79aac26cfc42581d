/** Reference definitions of the LFT walks that the buffer's methods run as
    loops: the end of a subtree, the place for a new child list, the list of
    names a directory holds, and the offsets a search collects. The walks
    that may climb back up the tree carry a fuel bound on those climbs so
    that they are total even on a buffer whose offsets form a cycle. */
module LftSpec {
  import opened Common
  import opened LftLayout

  /** The error codes of the library. */
  const ERR_NO_MEM := 1
  const ERR_NO_PATH := 2
  const ERR_PATH_EXISTS := 3
  const ERR_NESTED := 4
  const ERR_PATH_DIFFER := 5
  const ERR_NOTEMPTY := 6
  /** Not a code of the library: the model stops with it where the C code
      would move `tail` below the first name or write a subtree past the
      data, which only a corrupt buffer can cause and after which the C
      code reads and writes out of bounds. */
  const CORRUPT := -1

  /** The bound on the climbs and descents of one walk. */
  const FUEL: nat := 0x1_0000_0000

  /** The fuel left after one climb or descent. */
  function Spent(fuel: nat): (r: nat)
    requires 0 < fuel
    ensures r < fuel
  {
    fuel - 1
  }

  /** `get_tree_end_offset` from `off`, remembering the last child list met
      (`last`, 0 for none): past the parent tag that ends the deepest last
      list, or `tail` when the walk runs off the data. */
  function TreeEnd(h: Bytes, tail: nat, off: nat, last: nat, fuel: nat): (r: nat)
    ensures r == tail || (5 <= r <= tail + 4 && At(h, r - 5) == 0)
    decreases fuel, tail - off
  {
    if off >= tail then tail
    else if At(h, off) != 0 then
      var kids := KidsOffset(h, off);
      TreeEnd(h, tail, NextName(h, off), if kids != 0 then kids else last, fuel)
    else if last != 0 then
      if fuel == 0 then tail else TreeEnd(h, tail, last, 0, Spent(fuel))
    else off + 5
  }

  /** `get_insert_offset`: walking on from `off` in the list of `nameOff`
      and climbing to the parent at each parent tag, the child list of the
      first directory after the start that has one, or `tail`. */
  function InsertOffset(h: Bytes, tail: nat, nameOff: nat, off: nat, fuel: nat): (r: nat)
    decreases fuel, tail - off
  {
    if off >= tail then tail
    else if At(h, off) == 0 then
      var rel := RelOff(h, off + 1);
      if rel == 0 || fuel == 0 then tail
      else
        var up := Wrap32(off + 1 - rel);
        InsertOffset(h, tail, up, up, Spent(fuel))
    else if off > nameOff && KidsOffset(h, off) != 0 then KidsOffset(h, off)
    else InsertOffset(h, tail, nameOff, NextName(h, off), fuel)
  }

  /** The insert offset is `tail` or the child list of a name `o` before
      `tail`. */
  lemma {:induction false} InsertOffsetIsKids(h: Bytes, tail: nat, nameOff: nat, off: nat, fuel: nat) returns (o: nat)
    ensures var r := InsertOffset(h, tail, nameOff, off, fuel);
      r == tail || (r != 0 && o < tail && At(h, o) != 0 && KidsOffset(h, o) == r)
    decreases fuel, tail - off
  {
    o := 0;
    if off < tail {
      if At(h, off) == 0 {
        var rel := RelOff(h, off + 1);
        if rel != 0 && fuel != 0 {
          var up := Wrap32(off + 1 - rel);
          o := InsertOffsetIsKids(h, tail, up, up, Spent(fuel));
        }
      } else if off > nameOff && KidsOffset(h, off) != 0 {
        o := off;
      } else {
        o := InsertOffsetIsKids(h, tail, nameOff, NextName(h, off), fuel);
      }
    }
  }

  /** `o` is one of the names of the list that continues at `k`: the walk
      from `k` meets it before a parent tag or `tail`. */
  predicate InList(h: Bytes, tail: nat, k: nat, o: nat)
    decreases tail - k
  {
    k < tail && At(h, k) != 0 && (k == o || InList(h, tail, NextName(h, k), o))
  }

  /** The scan of `do_insert_path` for a sibling with the new name. */
  predicate HasSibling(h: Bytes, tail: nat, k: nat, name: Bytes)
    decreases tail - k
  {
    k < tail && At(h, k) != 0 && (Name(h, k) == name || HasSibling(h, tail, NextName(h, k), name))
  }

  /** Where that scan stops: the list's parent tag, or where it runs off
      the data. */
  function ListEnd(h: Bytes, tail: nat, k: nat): (r: nat)
    ensures k <= r && (r >= tail || At(h, r) == 0)
    decreases tail - k
  {
    if k >= tail || At(h, k) == 0 then k else ListEnd(h, tail, NextName(h, k))
  }

  /** The scan finds the name exactly when some name of the list is it. */
  lemma {:induction false} HasSiblingMeans(h: Bytes, tail: nat, k: nat, name: Bytes)
    ensures HasSibling(h, tail, k, name) <==> exists o :: InList(h, tail, k, o) && Name(h, o) == name
    decreases tail - k
  {
    if k < tail && At(h, k) != 0 {
      HasSiblingMeans(h, tail, NextName(h, k), name);
      if HasSibling(h, tail, k, name) && Name(h, k) == name {
        assert InList(h, tail, k, k);
      }
      if exists o :: InList(h, tail, k, o) && Name(h, o) == name {
        var o :| InList(h, tail, k, o) && Name(h, o) == name;
        if o != k {
          assert InList(h, tail, NextName(h, k), o);
        }
      }
    }
  }

  /** `o` is met by repeated `next_name` from `from`. */
  predicate OnChain(h: Bytes, from: nat, o: nat)
    ensures OnChain(h, from, o) ==> from <= o
    decreases o - from
  {
    from == o || (from < o && OnChain(h, NextName(h, from), o))
  }

  /** The chain goes on past `o`. */
  lemma {:induction false} OnChainSnoc(h: Bytes, from: nat, o: nat)
    requires OnChain(h, from, o)
    ensures OnChain(h, from, NextName(h, o))
    decreases o - from
  {
    if from != o {
      OnChainSnoc(h, NextName(h, from), o);
    }
  }

  /** A name that `search_files` records: in the current copy a non-empty
      name the comparator returns 0 for; in the older copy one it returns
      non-zero for. */
  predicate Hit(h: Bytes, o: nat, cmp: Bytes -> int, v: Variant)
  {
    At(h, o) != 0 && (if v == Current then cmp(Name(h, o)) == 0 else cmp(Name(h, o)) != 0)
  }

  /** The offsets recorded by a scan from `from` up to `to`. */
  function Hits(h: Bytes, from: nat, to: nat, cmp: Bytes -> int, v: Variant): seq<nat>
    decreases to - from
  {
    if from >= to then []
    else (if Hit(h, from, cmp, v) then [from] else []) + Hits(h, NextName(h, from), to, cmp, v)
  }

  /** One more step of the scan appends the name it visits, if recorded. */
  lemma {:induction false} HitsSnoc(h: Bytes, from: nat, o: nat, cmp: Bytes -> int, v: Variant)
    requires OnChain(h, from, o)
    ensures Hits(h, from, NextName(h, o), cmp, v) == Hits(h, from, o, cmp, v) + (if Hit(h, o, cmp, v) then [o] else [])
    decreases o - from
  {
    if from != o {
      HitsSnoc(h, NextName(h, from), o, cmp, v);
    }
  }

  /** What a scan records is in increasing order, between its ends, and
      recorded for a reason. */
  lemma {:induction false} HitsProps(h: Bytes, from: nat, to: nat, cmp: Bytes -> int, v: Variant)
    ensures forall i :: 0 <= i < |Hits(h, from, to, cmp, v)| ==>
      from <= Hits(h, from, to, cmp, v)[i] < to && Hit(h, Hits(h, from, to, cmp, v)[i], cmp, v)
    ensures forall i, j :: 0 <= i < j < |Hits(h, from, to, cmp, v)| ==>
      Hits(h, from, to, cmp, v)[i] < Hits(h, from, to, cmp, v)[j]
    decreases if from < to then to - from else 0
  {
    if from < to {
      HitsProps(h, NextName(h, from), to, cmp, v);
    }
  }

  /** `fs_change`: where bytes were inserted (delta > 0) or removed. */
  datatype Change = Change(startOff: nat, delta: int)

  /** The sum of the deltas of a list of changes. */
  function TotalDelta(cs: seq<Change>): int
  {
    if cs == [] then 0 else TotalDelta(cs[..|cs| - 1]) + cs[|cs| - 1].delta
  }

  /** Recording one more change adds its delta. */
  lemma TotalDeltaAppend(cs: seq<Change>, c: Change)
    ensures TotalDelta(cs + [c]) == TotalDelta(cs) + c.delta
  {
    assert (cs + [c])[..|cs|] == cs;
  }

  /** The index of the '/' before the last component of `path`, when the
      path has a '/' that is not its last character. */
  function SplitAt(path: Bytes): (r: Option<nat>)
    ensures r.Some? ==> r.value + 1 < |path| && path[r.value] == SLASH && Free(path[r.value + 1..], SLASH)
    ensures r.None? <==> (LastSlash(path).None? || LastSlash(path).value + 1 == |path|)
  {
    var s := LastSlash(path);
    if s.None? || s.value + 1 == |path| then None else s
  }

  /** The offset of the parent directory of `path`, as `do_insert_path`
      looks it up: 0 when the path has no last component. */
  function ParentOff(h: Bytes, tail: nat, first: nat, path: Bytes, v: Variant): nat
    requires first > DATA_START
  {
    match SplitAt(path)
    case None => 0
    case Some(i) => Lookup(h, tail, first, path[..i], v)
  }

  /** `do_insert_path`'s first error: the path has no '/' or ends in one,
      or its parent directory is missing or is a file. */
  predicate NoParent(h: Bytes, tail: nat, first: nat, path: Bytes, v: Variant)
    requires first > DATA_START
  {
    var p := ParentOff(h, tail, first, path, v);
    p == 0 || (p != DATA_START && IsFile(h, p))
  }

  /** Where the parent's list starts: the first name for the root, else
      the parent's child list (0 for an empty directory). */
  function KidsStart(h: Bytes, first: nat, p: nat): nat
  {
    if p == DATA_START then first else KidsOffset(h, p)
  }

  /** The last component of a path with a parent: a suffix of the path
      without a '/'. */
  function LastName(path: Bytes): (r: Bytes)
    ensures IsSuffix(r, path) && Free(r, SLASH) && (CString(path) ==> CString(r))
    ensures SplitAt(path).Some? ==> r != []
  {
    match SplitAt(path)
    case None => []
    case Some(i) => path[i + 1..]
  }

  /** `do_insert_path`'s second error: a sibling already has the name. */
  predicate NameTaken(h: Bytes, tail: nat, first: nat, path: Bytes, v: Variant)
    requires first > DATA_START
  {
    var k := KidsStart(h, first, ParentOff(h, tail, first, path, v));
    !NoParent(h, tail, first, path, v) && k != 0 && HasSibling(h, tail, k, LastName(path))
  }

  /** Where the new name goes: the end of the parent's list, or, for an
      empty directory, the place `get_insert_offset` picks. */
  function InsertPlace(h: Bytes, tail: nat, first: nat, path: Bytes, v: Variant): nat
    requires first > DATA_START
  {
    var p := ParentOff(h, tail, first, path, v);
    var k := KidsStart(h, first, p);
    if k != 0 then ListEnd(h, tail, k) else InsertOffset(h, tail, p, p, FUEL)
  }

  /** The checks of `do_rename_path` that depend on the source and target
      entries, in their order: the older copy refuses a target that starts
      with the source path; the source must exist; the target may not be
      the root, may not differ in kind from the source, and, for a
      directory, may not have children. */
  function RenameEntryCheck(h: Bytes, tail: nat, first: nat, src: Bytes, dst: Bytes, v: Variant): int
    requires first > DATA_START
  {
    var srcOff := Lookup(h, tail, first, src, v);
    var dstOff := Lookup(h, tail, first, dst, v);
    if v == Legacy && IsPrefix(src, dst) then ERR_NESTED
    else if srcOff == 0 then ERR_NO_PATH
    else if dstOff == DATA_START then ERR_NESTED
    else if dstOff != 0 && IsFile(h, dstOff) != IsFile(h, srcOff) then ERR_PATH_DIFFER
    else if dstOff != 0 && !IsFile(h, srcOff) && KidsOffset(h, dstOff) != 0 then ERR_NOTEMPTY
    else 0
  }

  /** All checks `do_rename_path` makes before it changes anything, with
      the target's parent held to the rule `do_insert_path` applies to it:
      it must exist and be the root or a directory. */
  function RenameCheck(h: Bytes, tail: nat, first: nat, src: Bytes, dst: Bytes, v: Variant): (r: int)
    requires first > DATA_START
    ensures r == 0 || r == ERR_NESTED || r == ERR_NO_PATH || r == ERR_PATH_DIFFER || r == ERR_NOTEMPTY
    ensures r == 0 ==> Lookup(h, tail, first, src, v) != 0 && Lookup(h, tail, first, dst, v) != DATA_START
    ensures r == 0 ==> !NoParent(h, tail, first, dst, v)
  {
    var e := RenameEntryCheck(h, tail, first, src, dst, v);
    if e != 0 then e
    else if NoParent(h, tail, first, dst, v) then ERR_NO_PATH
    else 0
  }

  /** The target-parent test as both copies of `do_rename_path` write it:
      a parent that is missing, or that is the root and a file. */
  predicate RenameParentRefusedAsWritten(h: Bytes, p: nat)
  {
    p == 0 || (p == DATA_START && IsFile(h, p))
  }

  /** The checks as written. */
  function RenameCheckAsWritten(h: Bytes, tail: nat, first: nat, src: Bytes, dst: Bytes, v: Variant): (r: int)
    requires first > DATA_START
    ensures r == 0 || r == ERR_NESTED || r == ERR_NO_PATH || r == ERR_PATH_DIFFER || r == ERR_NOTEMPTY
    ensures r == 0 ==> Lookup(h, tail, first, src, v) != 0 && Lookup(h, tail, first, dst, v) != DATA_START
    ensures r == 0 ==> SplitAt(dst).Some? && ParentOff(h, tail, first, dst, v) != 0
  {
    var e := RenameEntryCheck(h, tail, first, src, dst, v);
    if e != 0 then e
    else if SplitAt(dst).None? || RenameParentRefusedAsWritten(h, ParentOff(h, tail, first, dst, v)) then ERR_NO_PATH
    else 0
  }

  /** The written test lets a parent through that is a file other than the
      root: the rename then goes ahead, removes the source, and the insert
      of the target that follows fails on that same parent. */
  lemma RenameFileParentPassesAsWritten(h: Bytes, tail: nat, first: nat, src: Bytes, dst: Bytes, v: Variant)
    requires first > DATA_START && SplitAt(dst).Some?
    requires RenameEntryCheck(h, tail, first, src, dst, v) == 0
    requires var p := ParentOff(h, tail, first, dst, v); p != 0 && p != DATA_START && IsFile(h, p)
    ensures RenameCheckAsWritten(h, tail, first, src, dst, v) == 0
    ensures NoParent(h, tail, first, dst, v) && RenameCheck(h, tail, first, src, dst, v) == ERR_NO_PATH
  {
  }

  /** The two tests disagree exactly when the target's parent exists and
      its tag byte reads as a file. */
  lemma RenameChecksDisagree(h: Bytes, tail: nat, first: nat, src: Bytes, dst: Bytes, v: Variant)
    requires first > DATA_START
    ensures RenameCheck(h, tail, first, src, dst, v) != RenameCheckAsWritten(h, tail, first, src, dst, v)
      <==> (RenameEntryCheck(h, tail, first, src, dst, v) == 0 && SplitAt(dst).Some?
        && ParentOff(h, tail, first, dst, v) != 0 && IsFile(h, ParentOff(h, tail, first, dst, v)))
  {
  }

  /** The older copy's prefix test refuses renaming "/a.txt" to "/a.txts",
      whatever the buffer holds. */
  lemma LegacyRefusesLongerName(h: Bytes, tail: nat, first: nat)
    requires first > DATA_START
    ensures RenameCheck(h, tail, first, ['/' as byte, 'a' as byte, '.' as byte, 't' as byte, 'x' as byte, 't' as byte],
      ['/' as byte, 'a' as byte, '.' as byte, 't' as byte, 'x' as byte, 't' as byte, 's' as byte], Legacy) == ERR_NESTED
  {
  }
}

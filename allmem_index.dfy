/** The in-memory keyword index: `count` hash buckets, each an array of
    keywords; each keyword keeps a strictly increasing array of offsets into
    the file tree buffer. Arrays grow by `realloc` in blocks of four slots;
    `empty` counts the free slots. The keyword string cell is abstracted to its
    characters (its storage is modelled in `CompositeStr`), and each
    allocation's success is an oracle parameter. */
module AllmemIndex {
  import opened Common
  import opened IndexUtils

  const IDX_KW_BLK: nat := 4
  const FSBUF_BLK: nat := 4

  /** `sizeof` of the packed structures on x86-64 (`#pragma pack(4)`). */
  const SIZEOF_INDEX_HASH: nat := 12
  const SIZEOF_INDEX_KEYWORD: nat := 20
  const SIZEOF_INKW_COUNT_OFF: nat := 12

  /** Length of `"FSI"` with its NUL, then the `uint32_t` bucket count. */
  const FILE_HEADER: nat := 8

  datatype Keyword = Keyword(name: seq<byte>, offsets: seq<u32>, empty: nat)

  datatype Bucket = Bucket(keywords: seq<Keyword>, empty: nat)

  /** One entry of the table `save_allmem_index` writes after the header. */
  datatype CountOff = CountOff(len: nat, off: nat)

  function BucketOf(name: seq<byte>, count: nat): nat
    requires count > 0
  {
    Hash(name) % count
  }

  /** The index invariant: every keyword sits in the bucket its hash selects,
      at most once there, with a C-string name and strictly increasing
      offsets; free-slot counters fit their 4-bit fields. */
  ghost predicate WellFormed(ind: seq<Bucket>)
  {
    0 < |ind| < TWO32
    && forall i :: 0 <= i < |ind| ==> ind[i].empty <= IDX_KW_BLK && BucketOk(ind[i], i, |ind|)
  }

  ghost predicate BucketOk(b: Bucket, i: nat, count: nat)
    requires count > 0
  {
    (forall j :: 0 <= j < |b.keywords| ==> KeywordOk(b.keywords[j]) && BucketOf(b.keywords[j].name, count) == i)
    && (forall j, k :: 0 <= j < k < |b.keywords| ==> b.keywords[j].name != b.keywords[k].name)
  }

  ghost predicate KeywordOk(k: Keyword)
  {
    Free(k.name, 0) && Increasing(k.offsets) && k.empty <= FSBUF_BLK
  }

  /** The first keyword of `kws` named `name`, as the `strcmp` loop finds it. */
  function FindIn(kws: seq<Keyword>, name: seq<byte>): (r: Option<nat>)
    ensures r.Some? ==> r.value < |kws| && kws[r.value].name == name
                        && forall j :: 0 <= j < r.value ==> kws[j].name != name
    ensures r.None? ==> forall j :: 0 <= j < |kws| ==> kws[j].name != name
  {
    if kws == [] then None
    else if kws[0].name == name then Some(0)
    else match FindIn(kws[1..], name)
      case None => None
      case Some(j) => Some(j + 1)
  }

  /** In a well-formed index a keyword is found by `get_index_keyword_allmem`
      exactly when it is stored anywhere, and where it is stored. */
  lemma LookupComplete(ind: seq<Bucket>, name: seq<byte>, i: nat, j: nat)
    requires WellFormed(ind) && i < |ind| && j < |ind[i].keywords| && ind[i].keywords[j].name == name
    ensures i == BucketOf(name, |ind|)
    ensures FindIn(ind[i].keywords, name) == Some(j)
  {
    assert BucketOk(ind[i], i, |ind|);
  }

  // ---------------------------------------------------------------------------
  // Specifications of the updating operations

  /** `get_index_keyword_for_append` on values: the keyword's index in its
      bucket (or None) and the buckets afterwards. */
  function ForAppend(ind: seq<Bucket>, name: seq<byte>, growOk: bool, initOk: bool): (Option<nat>, seq<Bucket>)
    requires |ind| > 0
  {
    var ih := BucketOf(name, |ind|);
    var b := ind[ih];
    match FindIn(b.keywords, name)
    case Some(j) => (Some(j), ind)
    case None =>
      if b.empty == 0 && !growOk then (None, ind)
      else
        var e := if b.empty == 0 then IDX_KW_BLK else b.empty;
        if !initOk then (None, ind[ih := Bucket(b.keywords, e)])
        else (Some(|b.keywords|), ind[ih := Bucket(b.keywords + [Keyword(name, [], FSBUF_BLK)], e - 1)])
  }

  /** The offsets after inserting `off` at its lower-bound position. */
  function InsertAt(offs: seq<u32>, off: u32): seq<u32>
  {
    var pos := GetInsertPos(off, offs, true);
    offs[..pos] + [off] + offs[pos..]
  }

  /** `add_index_allmem` on values. */
  function Add(ind: seq<Bucket>, name: seq<byte>, off: u32, growOk: bool, initOk: bool, offsGrowOk: bool): seq<Bucket>
    requires |ind| > 0
  {
    var (r, ind1) := ForAppend(ind, name, growOk, initOk);
    InsertOffset(ind1, BucketOf(name, |ind|), r, off, offsGrowOk)
  }

  /** The second half of `add_index_allmem`: the offset goes into keyword `r`
      of bucket `ih` unless it is already there or its array cannot grow. */
  function InsertOffset(ind1: seq<Bucket>, ih: nat, r: Option<nat>, off: u32, offsGrowOk: bool): seq<Bucket>
  {
    if r.None? || ih >= |ind1| || r.value >= |ind1[ih].keywords| then ind1
    else
      var kw := ind1[ih].keywords[r.value];
      var pos := GetInsertPos(off, kw.offsets, true);
      if |kw.offsets| > pos && kw.offsets[pos] == off then ind1
      else if kw.empty == 0 && !offsGrowOk then ind1
      else
        var e := if kw.empty == 0 then FSBUF_BLK else kw.empty;
        var kw' := Keyword(kw.name, InsertAt(kw.offsets, off), e - 1);
        ind1[ih := Bucket(ind1[ih].keywords[r.value := kw'], ind1[ih].empty)]
  }

  /** `add_fsbuf_offsets_allmem` on values: every keyword of every bucket
      shifted as `add_inkw_fsbuf_offsets` does. */
  function ShiftAll(ind: seq<Bucket>, start: u32, delta: int): (r: seq<Bucket>)
    ensures |r| == |ind|
  {
    seq(|ind|, i requires 0 <= i < |ind| =>
      Bucket(seq(|ind[i].keywords|, j requires 0 <= j < |ind[i].keywords| =>
               var k := ind[i].keywords[j];
               Keyword(k.name, Shifted(k.offsets, start, delta), k.empty)),
             ind[i].empty))
  }

  // ---------------------------------------------------------------------------
  // Properties of the specifications

  /** Inserting at the lower bound keeps the offsets strictly increasing and
      adds exactly `off`. */
  lemma InsertAtIncreasing(offs: seq<u32>, off: u32)
    requires Increasing(offs) && !(off in offs)
    ensures Increasing(InsertAt(offs, off))
    ensures multiset(InsertAt(offs, off)) == multiset(offs) + multiset{off}
  {
    var pos := GetInsertPos(off, offs, true);
    LowerBound(off, offs);
    SplitInsertMultiset(offs, pos, off);
    if pos < |offs| {
      assert offs[pos] in offs;
    }
    SplitInsertIncreasing(offs, pos, off);
  }

  /** Putting `x` between a smaller prefix and a larger suffix keeps an
      increasing sequence increasing. */
  lemma SplitInsertIncreasing(s: seq<u32>, pos: nat, x: u32)
    requires Increasing(s) && pos <= |s|
    requires forall j :: 0 <= j < pos ==> s[j] < x
    requires pos < |s| ==> x < s[pos]
    ensures Increasing(s[..pos] + [x] + s[pos..])
  {
    var r := s[..pos] + [x] + s[pos..];
    forall a, b | 0 <= a < b < |r| ensures r[a] < r[b] {
      if b < pos {
        assert r[a] == s[a] && r[b] == s[b];
      } else if b == pos {
        assert r[a] == s[a];
      } else if a < pos {
        assert r[a] == s[a] && r[b] == s[b - 1];
      } else if a == pos {
        assert r[b] == s[b - 1];
      } else {
        assert r[a] == s[a - 1] && r[b] == s[b - 1];
      }
    }
  }

  /** Putting `x` between the two halves of `s` adds exactly `x`. */
  lemma SplitInsertMultiset(s: seq<u32>, pos: nat, x: u32)
    requires pos <= |s|
    ensures multiset(s[..pos] + [x] + s[pos..]) == multiset(s) + multiset{x}
  {
    assert s == s[..pos] + s[pos..];
  }

  lemma UpdateBucketWellFormed(ind: seq<Bucket>, ih: nat, nb: Bucket)
    requires WellFormed(ind) && ih < |ind| && nb.empty <= IDX_KW_BLK && BucketOk(nb, ih, |ind|)
    ensures WellFormed(ind[ih := nb])
  {
    var ind1 := ind[ih := nb];
    forall i | 0 <= i < |ind1| ensures ind1[i].empty <= IDX_KW_BLK && BucketOk(ind1[i], i, |ind1|) {
      if i != ih {
        assert ind1[i] == ind[i];
      }
    }
  }

  lemma AppendBucketOk(b: Bucket, ih: nat, count: nat, name: seq<byte>, e: nat)
    requires count > 0 && BucketOk(b, ih, count) && FindIn(b.keywords, name).None?
    requires Free(name, 0) && BucketOf(name, count) == ih
    ensures BucketOk(Bucket(b.keywords + [Keyword(name, [], FSBUF_BLK)], e), ih, count)
  {
  }

  lemma ReplaceKeywordOk(b: Bucket, ih: nat, count: nat, j: nat, k: Keyword)
    requires count > 0 && BucketOk(b, ih, count) && j < |b.keywords|
    requires k.name == b.keywords[j].name && KeywordOk(k)
    ensures BucketOk(Bucket(b.keywords[j := k], b.empty), ih, count)
  {
  }

  lemma ForAppendWellFormed(ind: seq<Bucket>, name: seq<byte>, growOk: bool, initOk: bool)
    requires WellFormed(ind) && Free(name, 0)
    ensures WellFormed(ForAppend(ind, name, growOk, initOk).1)
    ensures |ForAppend(ind, name, growOk, initOk).1| == |ind|
    ensures var (r, ind1) := ForAppend(ind, name, growOk, initOk);
      r.Some? ==> r.value < |ind1[BucketOf(name, |ind|)].keywords|
                  && FindIn(ind1[BucketOf(name, |ind|)].keywords, name) == r
  {
    var ih := BucketOf(name, |ind|);
    var b := ind[ih];
    assert BucketOk(b, ih, |ind|);
    if FindIn(b.keywords, name).None? && !(b.empty == 0 && !growOk) {
      var e := if b.empty == 0 then IDX_KW_BLK else b.empty;
      if initOk {
        AppendBucketOk(b, ih, |ind|, name, e - 1);
        var nb := Bucket(b.keywords + [Keyword(name, [], FSBUF_BLK)], e - 1);
        UpdateBucketWellFormed(ind, ih, nb);
        FindAppended(b.keywords, name);
      } else {
        UpdateBucketWellFormed(ind, ih, Bucket(b.keywords, e));
      }
    }
  }

  /** A new keyword appended after the others is found at the end. */
  lemma FindAppended(kws: seq<Keyword>, name: seq<byte>)
    requires FindIn(kws, name).None?
    ensures FindIn(kws + [Keyword(name, [], FSBUF_BLK)], name) == Some(|kws|)
  {
    var kws1 := kws + [Keyword(name, [], FSBUF_BLK)];
    assert kws1[|kws|].name == name;
  }

  /** `add_index_allmem` keeps the index invariant. */
  lemma AddWellFormed(ind: seq<Bucket>, name: seq<byte>, off: u32, growOk: bool, initOk: bool, offsGrowOk: bool)
    requires WellFormed(ind) && Free(name, 0)
    ensures WellFormed(Add(ind, name, off, growOk, initOk, offsGrowOk))
  {
    ForAppendWellFormed(ind, name, growOk, initOk);
    var res := ForAppend(ind, name, growOk, initOk);
    InsertOffsetWellFormed(res.1, BucketOf(name, |ind|), res.0, off, offsGrowOk);
  }

  /** The offset insertion keeps the index invariant. */
  lemma InsertOffsetWellFormed(ind1: seq<Bucket>, ih: nat, r: Option<nat>, off: u32, offsGrowOk: bool)
    requires WellFormed(ind1)
    ensures WellFormed(InsertOffset(ind1, ih, r, off, offsGrowOk))
  {
    if r.Some? && ih < |ind1| && r.value < |ind1[ih].keywords| {
      var b := ind1[ih];
      var kw := b.keywords[r.value];
      assert BucketOk(b, ih, |ind1|);
      var pos := GetInsertPos(off, kw.offsets, true);
      if !(|kw.offsets| > pos && kw.offsets[pos] == off) && !(kw.empty == 0 && !offsGrowOk) {
        if off in kw.offsets {
          var k :| 0 <= k < |kw.offsets| && kw.offsets[k] == off;
          FindsPresent(off, kw.offsets, true, k);
        }
        InsertAtIncreasing(kw.offsets, off);
        var e := if kw.empty == 0 then FSBUF_BLK else kw.empty;
        var kw' := Keyword(kw.name, InsertAt(kw.offsets, off), e - 1);
        ReplaceKeywordOk(b, ih, |ind1|, r.value, kw');
        UpdateBucketWellFormed(ind1, ih, Bucket(b.keywords[r.value := kw'], b.empty));
      }
    }
  }

  /** After a successful `add_index_allmem(name, off)` (no allocation fails),
      looking the keyword up finds it, and its offsets contain `off`. */
  lemma AddThenFind(ind: seq<Bucket>, name: seq<byte>, off: u32)
    requires WellFormed(ind) && Free(name, 0)
    ensures var ind2 := Add(ind, name, off, true, true, true);
      |ind2| == |ind|
      && FindIn(ind2[BucketOf(name, |ind|)].keywords, name).Some?
      && off in ind2[BucketOf(name, |ind|)].keywords[FindIn(ind2[BucketOf(name, |ind|)].keywords, name).value].offsets
  {
    ForAppendWellFormed(ind, name, true, true);
    var (r, ind1) := ForAppend(ind, name, true, true);
    InsertOffsetFinds(ind1, BucketOf(name, |ind|), r.value, name, off);
  }

  /** The second half of `add_index_allmem` keeps the keyword where it was
      found and leaves `off` among its offsets. */
  lemma InsertOffsetFinds(ind1: seq<Bucket>, ih: nat, j: nat, name: seq<byte>, off: u32)
    requires ih < |ind1| && j < |ind1[ih].keywords| && FindIn(ind1[ih].keywords, name) == Some(j)
    ensures var ind2 := InsertOffset(ind1, ih, Some(j), off, true);
      |ind2| == |ind1|
      && FindIn(ind2[ih].keywords, name) == Some(j)
      && j < |ind2[ih].keywords|
      && off in ind2[ih].keywords[j].offsets
  {
    var b := ind1[ih];
    var kw := b.keywords[j];
    var pos := GetInsertPos(off, kw.offsets, true);
    if !(|kw.offsets| > pos && kw.offsets[pos] == off) {
      var e := if kw.empty == 0 then FSBUF_BLK else kw.empty;
      var kw' := Keyword(kw.name, InsertAt(kw.offsets, off), e - 1);
      assert InsertAt(kw.offsets, off)[pos] == off;
      FindSame(b.keywords, j, kw', name);
    }
  }

  /** Replacing a keyword by one of the same name does not change lookups. */
  lemma {:induction false} FindSame(kws: seq<Keyword>, j: nat, k: Keyword, name: seq<byte>)
    requires j < |kws| && kws[j].name == k.name
    ensures FindIn(kws[j := k], name) == FindIn(kws, name)
  {
    if j > 0 {
      assert kws[j := k][1..] == kws[1..][j - 1 := k];
      FindSame(kws[1..], j - 1, k, name);
    }
  }

  /** Re-adding an offset the keyword already holds changes nothing. */
  lemma ReAddIsNoOp(ind: seq<Bucket>, name: seq<byte>, off: u32, j: nat, k: nat,
                    growOk: bool, initOk: bool, offsGrowOk: bool)
    requires WellFormed(ind)
    requires var b := ind[BucketOf(name, |ind|)];
      j < |b.keywords| && b.keywords[j].name == name
      && k < |b.keywords[j].offsets| && b.keywords[j].offsets[k] == off
    ensures Add(ind, name, off, growOk, initOk, offsGrowOk) == ind
  {
    var ih := BucketOf(name, |ind|);
    LookupComplete(ind, name, ih, j);
    assert KeywordOk(ind[ih].keywords[j]);
    FindsPresent(off, ind[ih].keywords[j].offsets, true, k);
  }

  /** A successful insertion adds one offset and spends one free slot, taking
      a fresh block of four slots first when none was free. */
  lemma AddCounts(ind: seq<Bucket>, name: seq<byte>, off: u32, j: nat)
    requires WellFormed(ind)
    requires var b := ind[BucketOf(name, |ind|)];
      j < |b.keywords| && b.keywords[j].name == name && !(off in b.keywords[j].offsets)
    ensures var ih := BucketOf(name, |ind|);
      var kw := ind[ih].keywords[j];
      var kw2 := Add(ind, name, off, true, true, true)[ih].keywords[j];
      |kw2.offsets| == |kw.offsets| + 1
      && kw2.empty == (if kw.empty == 0 then FSBUF_BLK else kw.empty) - 1
      && |kw2.offsets| + kw2.empty == |kw.offsets| + kw.empty + (if kw.empty == 0 then FSBUF_BLK else 0)
  {
    var ih := BucketOf(name, |ind|);
    LookupComplete(ind, name, ih, j);
    var kw := ind[ih].keywords[j];
    var pos := GetInsertPos(off, kw.offsets, true);
    assert !(|kw.offsets| > pos && kw.offsets[pos] == off) by {
      if |kw.offsets| > pos {
        assert kw.offsets[pos] in kw.offsets;
      }
    }
  }

  /** A new keyword starts with no offsets and a full block of free slots. */
  lemma NewKeywordFresh(ind: seq<Bucket>, name: seq<byte>)
    requires WellFormed(ind) && Free(name, 0)
    requires FindIn(ind[BucketOf(name, |ind|)].keywords, name).None?
    ensures var (r, ind1) := ForAppend(ind, name, true, true);
      r == Some(|ind[BucketOf(name, |ind|)].keywords|)
      && ind1[BucketOf(name, |ind|)].keywords[r.value] == Keyword(name, [], FSBUF_BLK)
  {
  }

  /** The shift keeps each keyword in place (same names, same buckets) and,
      when it preserves order, keeps the index well formed: no entry below
      `start` may land at or above a shifted one, and no shifted entry may
      wrap around. */
  lemma ShiftAllWellFormed(ind: seq<Bucket>, start: u32, delta: int)
    requires WellFormed(ind)
    requires forall i, j, n :: 0 <= i < |ind| && 0 <= j < |ind[i].keywords| && 0 <= n < |ind[i].keywords[j].offsets| ==>
      var e := ind[i].keywords[j].offsets[n];
      (e >= start ==> 0 <= e + delta < TWO32) && (e < start ==> e < start + delta)
    ensures WellFormed(ShiftAll(ind, start, delta))
  {
    var r := ShiftAll(ind, start, delta);
    forall i | 0 <= i < |r| ensures r[i].empty <= IDX_KW_BLK && BucketOk(r[i], i, |r|) {
      assert BucketOk(ind[i], i, |ind|);
      forall j | 0 <= j < |r[i].keywords| ensures KeywordOk(r[i].keywords[j]) {
        var offs := ind[i].keywords[j].offsets;
        assert KeywordOk(ind[i].keywords[j]);
        assert r[i].keywords[j].offsets == Shifted(offs, start, delta);
        ShiftSorted(offs, start, delta);
        ShiftKeepsIncreasing(offs, start, delta);
      }
    }
  }

  lemma ShiftKeepsIncreasing(offs: seq<u32>, start: u32, delta: int)
    requires Increasing(offs)
    requires forall n :: 0 <= n < |offs| ==>
      (offs[n] >= start ==> 0 <= offs[n] + delta < TWO32) && (offs[n] < start ==> offs[n] < start + delta)
    ensures Increasing(Shifted(offs, start, delta))
  {
    var r := Shifted(offs, start, delta);
    var last := |offs| - 1;
    forall a, b | 0 <= a < b < |r| ensures r[a] < r[b] {
      if b < last {
        assert offs[b] < offs[last];
      }
      ShiftedAt(offs, start, delta, a);
      ShiftedAt(offs, start, delta, b);
      ShiftPair(offs[a], offs[b], start, delta);
    }
  }

  lemma ShiftPair(x: u32, y: u32, start: u32, delta: int)
    requires x < y
    requires x >= start ==> 0 <= x + delta < TWO32
    requires y >= start ==> 0 <= y + delta < TWO32
    requires x < start ==> x < start + delta
    ensures (if x >= start then Wrap32(x + delta) else x) < (if y >= start then Wrap32(y + delta) else y)
  {
  }

  // ---------------------------------------------------------------------------
  // Sizes

  /** The bytes `get_stats_allmem` charges to one keyword: its offset array
      (used and free slots) and, for a long name, the heap copy of the name. */
  function KeywordMemory(k: Keyword): nat
  {
    4 * (|k.offsets| + k.empty) + (if |k.name| >= 7 then |k.name| + 1 else 0)
  }

  function KeywordsMemory(kws: seq<Keyword>): nat
  {
    if kws == [] then 0 else KeywordsMemory(kws[..|kws| - 1]) + KeywordMemory(kws[|kws| - 1])
  }

  /** A bucket with no keywords is skipped, free slots included. */
  function BucketMemory(b: Bucket): nat
  {
    if |b.keywords| == 0 then 0
    else SIZEOF_INDEX_KEYWORD * (|b.keywords| + b.empty) + KeywordsMemory(b.keywords)
  }

  function OffsetCount(kws: seq<Keyword>): nat
  {
    if kws == [] then 0 else OffsetCount(kws[..|kws| - 1]) + |kws[|kws| - 1].offsets|
  }

  /** Sums over the first `n` buckets. */
  function MemoryUpTo(ind: seq<Bucket>, n: nat): nat
    requires n <= |ind|
  {
    if n == 0 then 0 else MemoryUpTo(ind, n - 1) + BucketMemory(ind[n - 1])
  }

  function KeywordsUpTo(ind: seq<Bucket>, n: nat): nat
    requires n <= |ind|
  {
    if n == 0 then 0 else KeywordsUpTo(ind, n - 1) + |ind[n - 1].keywords|
  }

  function OffsetsUpTo(ind: seq<Bucket>, n: nat): nat
    requires n <= |ind|
  {
    if n == 0 then 0 else OffsetsUpTo(ind, n - 1) + OffsetCount(ind[n - 1].keywords)
  }

  /** The size of one saved keyword record: two `uint32_t` words, the name
      with its NUL, and the offsets. */
  function RecordSize(k: Keyword): nat
  {
    8 + |k.name| + 1 + 4 * |k.offsets|
  }

  function RecordsSize(kws: seq<Keyword>): nat
  {
    if kws == [] then 0 else RecordsSize(kws[..|kws| - 1]) + RecordSize(kws[|kws| - 1])
  }

  /** Bytes of all records of the first `n` buckets. */
  function RecordsUpTo(ind: seq<Bucket>, n: nat): nat
    requires n <= |ind|
  {
    if n == 0 then 0 else RecordsUpTo(ind, n - 1) + RecordsSize(ind[n - 1].keywords)
  }

  /** Where the records start: magic, count and the table itself. */
  function TableEnd(count: nat): nat
  {
    FILE_HEADER + SIZEOF_INKW_COUNT_OFF * count
  }

  lemma {:induction false} RecordsSizeAtLeast(kws: seq<Keyword>)
    ensures RecordsSize(kws) >= 9 * |kws|
  {
    if kws != [] {
      RecordsSizeAtLeast(kws[..|kws| - 1]);
    }
  }

  /** The table places each bucket's records right after the previous
      bucket's, and a bucket with keywords occupies at least 9 bytes per
      keyword, so non-empty buckets get distinct, increasing offsets. */
  lemma TableOffsetsAdvance(ind: seq<Bucket>, i: nat)
    requires i < |ind|
    ensures RecordsUpTo(ind, i + 1) == RecordsUpTo(ind, i) + RecordsSize(ind[i].keywords)
    ensures |ind[i].keywords| > 0 ==> RecordsUpTo(ind, i + 1) >= RecordsUpTo(ind, i) + 9
  {
    RecordsSizeAtLeast(ind[i].keywords);
  }

  // ---------------------------------------------------------------------------
  // The index object

  class Index {
    var indice: seq<Bucket>

    ghost predicate Valid()
      reads this
    {
      WellFormed(indice)
    }

    /** `new_allmem_index`: `calloc` gives every bucket no keywords and no
        free slots. */
    constructor (count: nat)
      requires 0 < count < TWO32
      ensures Valid() && indice == seq(count, _ => Bucket([], 0))
    {
      indice := seq(count, _ => Bucket([], 0));
    }

    /** `get_index_keyword_allmem`: the bucket is fixed by the hash, then a
        linear `strcmp` scan; the result is the keyword's index in it. */
    method GetIndexKeyword(query: seq<byte>) returns (r: Option<nat>)
      requires |indice| > 0
      ensures r == FindIn(indice[BucketOf(query, |indice|)].keywords, query)
    {
      var ih := Hash(query) % |indice|;
      var kws := indice[ih].keywords;
      var i := 0;
      while i < |kws|
        invariant 0 <= i <= |kws|
        invariant forall j :: 0 <= j < i ==> kws[j].name != query
      {
        if kws[i].name == query {
          return Some(i);
        }
        i := i + 1;
      }
      return None;
    }

    /** `get_index_keyword_for_append`. */
    method GetIndexKeywordForAppend(query: seq<byte>, growOk: bool, initOk: bool) returns (r: Option<nat>)
      requires |indice| > 0
      modifies this
      ensures (r, indice) == ForAppend(old(indice), query, growOk, initOk)
    {
      r := GetIndexKeyword(query);
      var ih := Hash(query) % |indice|;
      var b := indice[ih];
      assert ih == BucketOf(query, |indice|);
      if r.Some? {
        assert ForAppend(indice, query, growOk, initOk) == (r, indice);
        return;
      }
      assert FindIn(b.keywords, query).None?;
      if b.empty == 0 {
        if !growOk {
          return None;
        }
        b := Bucket(b.keywords, IDX_KW_BLK);
        indice := indice[ih := b];
      }
      assert indice == old(indice)[ih := b];
      if !initOk {
        return None;
      }
      indice := indice[ih := Bucket(b.keywords + [Keyword(query, [], FSBUF_BLK)], b.empty - 1)];
      assert indice == old(indice)[ih := Bucket(b.keywords + [Keyword(query, [], FSBUF_BLK)], b.empty - 1)];
      r := Some(|b.keywords|);
    }

    /** `add_index_allmem`: find or create the keyword, then insert the offset
        at its lower-bound position unless it is already there. */
    method AddIndexAllmem(name: seq<byte>, off: u32, growOk: bool, initOk: bool, offsGrowOk: bool)
      requires Valid() && Free(name, 0)
      modifies this
      ensures Valid()
      ensures indice == Add(old(indice), name, off, growOk, initOk, offsGrowOk)
    {
      AddWellFormed(indice, name, off, growOk, initOk, offsGrowOk);
      var r := GetIndexKeywordForAppend(name, growOk, initOk);
      var ih := Hash(name) % |indice|;
      InsertOffsetAllmem(ih, r, off, offsGrowOk);
    }

    /** The second half of `add_index_allmem`: the sorted insertion of `off`
        into keyword `r` of bucket `ih`. */
    method InsertOffsetAllmem(ih: nat, r: Option<nat>, off: u32, offsGrowOk: bool)
      modifies this
      ensures indice == InsertOffset(old(indice), ih, r, off, offsGrowOk)
    {
      var ind := indice;
      if r.Some? && ih < |ind| && r.value < |ind[ih].keywords| {
        var kw := ind[ih].keywords[r.value];
        var pos := GetInsertPos(off, kw.offsets, true);
        if !(|kw.offsets| > pos && kw.offsets[pos] == off) && !(kw.empty == 0 && !offsGrowOk) {
          var e := if kw.empty == 0 then FSBUF_BLK else kw.empty;
          var offs := kw.offsets[..pos] + [off] + kw.offsets[pos..];
          var kw' := Keyword(kw.name, offs, e - 1);
          indice := ind[ih := Bucket(ind[ih].keywords[r.value := kw'], ind[ih].empty)];
        }
      }
    }

    /** `add_fsbuf_offsets_allmem`: every keyword of every bucket. */
    method AddFsbufOffsetsAllmem(start: u32, delta: int)
      modifies this
      ensures indice == ShiftAll(old(indice), start, delta)
    {
      ghost var orig := indice;
      var i := 0;
      while i < |indice|
        invariant 0 <= i <= |indice| == |orig|
        invariant indice[..i] == ShiftAll(orig, start, delta)[..i]
        invariant indice[i..] == orig[i..]
      {
        var kws := indice[i].keywords;
        var j := 0;
        while j < |kws|
          invariant 0 <= j <= |kws| == |orig[i].keywords|
          invariant kws[..j] == ShiftAll(orig, start, delta)[i].keywords[..j]
          invariant kws[j..] == orig[i].keywords[j..]
        {
          var k := kws[j];
          kws := kws[j := Keyword(k.name, Shifted(k.offsets, start, delta), k.empty)];
          j := j + 1;
        }
        assert kws == ShiftAll(orig, start, delta)[i].keywords;
        indice := indice[i := Bucket(kws, indice[i].empty)];
        i := i + 1;
      }
      assert indice == ShiftAll(orig, start, delta);
    }

    /** `get_stats_allmem`: memory in bytes, keyword count and offset count.
        The C accumulators wrap at 64 and 32 bits; the sums are reduced once
        at the end, which gives the same values. */
    method GetStatsAllmem() returns (memory: nat, keywords: u32, fsbufOffsets: u32)
      ensures memory == (SIZEOF_INDEX_HASH * |indice| + MemoryUpTo(indice, |indice|)) % 0x1_0000_0000_0000_0000
      ensures keywords == Wrap32(KeywordsUpTo(indice, |indice|))
      ensures fsbufOffsets == Wrap32(OffsetsUpTo(indice, |indice|))
    {
      var ind := indice;
      var mem := SIZEOF_INDEX_HASH * |ind|;
      var kwc := 0;
      var offc := 0;
      var i := 0;
      while i < |ind|
        invariant 0 <= i <= |ind|
        invariant mem == SIZEOF_INDEX_HASH * |ind| + MemoryUpTo(ind, i)
        invariant kwc == KeywordsUpTo(ind, i)
        invariant offc == OffsetsUpTo(ind, i)
      {
        var b := ind[i];
        if |b.keywords| == 0 {
          i := i + 1;
          continue;
        }
        kwc := kwc + |b.keywords|;
        var bm, bo := KeywordsStats(b.keywords);
        mem := mem + SIZEOF_INDEX_KEYWORD * (|b.keywords| + b.empty) + bm;
        offc := offc + bo;
        i := i + 1;
      }
      memory := mem % 0x1_0000_0000_0000_0000;
      keywords := Wrap32(kwc);
      fsbufOffsets := Wrap32(offc);
    }

    /** The count/offset table of `save_allmem_index`: bucket `i`'s records
        start after the header, the table and every earlier bucket's records. */
    method SaveTable() returns (table: seq<CountOff>)
      ensures |table| == |indice|
      ensures forall i :: 0 <= i < |indice| ==> table[i] == TableRow(indice, i)
    {
      var ind := indice;
      var offset := TableEnd(|ind|);
      table := [];
      var i := 0;
      while i < |ind|
        invariant 0 <= i <= |ind| && |table| == i
        invariant offset == TableEnd(|ind|) + RecordsUpTo(ind, i)
        invariant forall b :: 0 <= b < i ==> table[b] == TableRow(ind, b)
      {
        var kws := ind[i].keywords;
        table := table + [CountOff(|kws|, offset)];
        var size := BucketRecordsSize(kws);
        offset := offset + size;
        i := i + 1;
      }
    }
  }

  /** Bucket `i`'s entry of the count/offset table: its keyword count and
      where its records start, after the header, the table and every
      earlier bucket's records. */
  function TableRow(ind: seq<Bucket>, i: nat): CountOff
    requires i < |ind|
  {
    CountOff(|ind[i].keywords|, TableEnd(|ind|) + RecordsUpTo(ind, i))
  }

  /** The inner loop of `get_stats_allmem`: the memory one bucket's
      keywords charge and how many offsets they hold. */
  method KeywordsStats(kws: seq<Keyword>) returns (memory: nat, offsets: nat)
    ensures memory == KeywordsMemory(kws)
    ensures offsets == OffsetCount(kws)
  {
    memory, offsets := 0, 0;
    var j := 0;
    while j < |kws|
      invariant 0 <= j <= |kws|
      invariant memory == KeywordsMemory(kws[..j])
      invariant offsets == OffsetCount(kws[..j])
    {
      var k := kws[j];
      assert kws[..j + 1][..j] == kws[..j];
      offsets := offsets + |k.offsets|;
      memory := memory + 4 * (|k.offsets| + k.empty);
      if |k.name| >= 7 {
        memory := memory + |k.name| + 1;
      }
      j := j + 1;
    }
    assert kws[..j] == kws;
  }

  /** The inner loop of the table computation: the bytes of one bucket's
      records. */
  method BucketRecordsSize(kws: seq<Keyword>) returns (size: nat)
    ensures size == RecordsSize(kws)
  {
    size := 0;
    var j := 0;
    while j < |kws|
      invariant 0 <= j <= |kws|
      invariant size == RecordsSize(kws[..j])
    {
      assert kws[..j + 1][..j] == kws[..j];
      size := size + 8 + |kws[j].name| + 1 + 4 * |kws[j].offsets|;
      j := j + 1;
    }
    assert kws[..j] == kws;
  }
}

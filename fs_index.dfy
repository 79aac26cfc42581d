/** The index front end: the keywords `add_index` derives from a file name,
    the on-disk keyword record, and the header check of `load_fs_index`.
    File descriptors are modelled by the bytes that remain to be read; the
    character-set conversions done with iconv are oracle functions. */
module FsIndex {
  import opened Common
  import opened CompositeStr
  import AllmemIndex

  /** Longest keyword, in wide characters. */
  const MAX_KW_LEN: nat := 8

  const LOAD_ALL: int := 0
  const LOAD_NONE: int := 1

  /** The magic `"FSI"` with its NUL. */
  const INDEX_MAGIC: seq<byte> := [0x46, 0x53, 0x49]

  function Min(a: nat, b: nat): nat
  {
    if a <= b then a else b
  }

  // ---------------------------------------------------------------------------
  // add_index

  /** `wcslen`: the wide characters before the first NUL. */
  function WcsLen(w: seq<int>): (r: seq<int>)
    ensures IsPrefix(r, w) && Free(r, 0)
  {
    if w == [] || w[0] == 0 then [] else [w[0]] + WcsLen(w[1..])
  }

  /** The keywords starting at the first character: lengths 1 up to
      `MAX_KW_LEN`, as far as the string reaches. */
  function Run(w: seq<int>): (r: seq<seq<int>>)
    ensures |r| == Min(MAX_KW_LEN, |w|)
    ensures forall l :: 0 <= l < |r| ==> r[l] == w[..l + 1]
  {
    seq(Min(MAX_KW_LEN, |w|), l requires 0 <= l < Min(MAX_KW_LEN, |w|) => w[..l + 1])
  }

  /** Every keyword of `w`, in the order of the two nested loops of
      `add_index`: by start position, then by length. */
  function Windows(w: seq<int>): seq<seq<int>>
  {
    if w == [] then [] else Run(w) + Windows(w[1..])
  }

  /** The keywords that survive the conversion back to UTF-8. */
  function Keep(ws: seq<seq<int>>, toUtf8: seq<int> -> Option<seq<byte>>): seq<seq<byte>>
  {
    if ws == [] then [] else Keep1(ws[0], toUtf8) + Keep(ws[1..], toUtf8)
  }

  /** The call one keyword makes: none when its conversion fails. */
  function Keep1(x: seq<int>, toUtf8: seq<int> -> Option<seq<byte>>): seq<seq<byte>>
  {
    match toUtf8(x) case Some(u) => [u] case None => []
  }

  /** Keeping one more keyword appends its call. */
  lemma KeepSnoc(ws: seq<seq<int>>, k: nat, toUtf8: seq<int> -> Option<seq<byte>>)
    requires k < |ws|
    ensures Keep(ws[..k + 1], toUtf8) == Keep(ws[..k], toUtf8) + Keep1(ws[k], toUtf8)
  {
    assert ws[..k + 1] == ws[..k] + [ws[k]];
    KeepAppend(ws[..k], [ws[k]], toUtf8);
    assert Keep([ws[k]], toUtf8) == Keep1(ws[k], toUtf8) + Keep([], toUtf8);
  }

  /** The outer loop's step: the run at `i`, then the keywords after it. */
  lemma KeepStep(w: seq<int>, i: nat, toUtf8: seq<int> -> Option<seq<byte>>)
    requires i < |w|
    ensures Keep(Windows(w[i..]), toUtf8) == Keep(Run(w[i..]), toUtf8) + Keep(Windows(w[i + 1..]), toUtf8)
  {
    assert w[i..][1..] == w[i + 1..];
    KeepAppend(Run(w[i..]), Windows(w[i + 1..]), toUtf8);
  }

  lemma {:induction false} KeepAppend(a: seq<seq<int>>, b: seq<seq<int>>, toUtf8: seq<int> -> Option<seq<byte>>)
    ensures Keep(a + b, toUtf8) == Keep(a, toUtf8) + Keep(b, toUtf8)
  {
    if a == [] {
      assert a + b == b;
    } else {
      assert (a + b)[0] == a[0];
      assert (a + b)[1..] == a[1..] + b;
      KeepAppend(a[1..], b, toUtf8);
    }
  }

  /** What `add_index` passes to `fsi->add_index`, one entry per call. */
  function Emitted(name: seq<byte>, toWide: seq<byte> -> Option<seq<int>>,
                   toUtf8: seq<int> -> Option<seq<byte>>): seq<seq<byte>>
  {
    match toWide(name)
    case None => []
    case Some(c) => Keep(Windows(WcsLen(c)), toUtf8)
  }

  /** `add_index`: the keywords sent to the index, in call order (each
      call carries the same buffer offset). */
  method AddIndex(name: seq<byte>, toWide: seq<byte> -> Option<seq<int>>,
                  toUtf8: seq<int> -> Option<seq<byte>>) returns (calls: seq<seq<byte>>)
    ensures calls == Emitted(name, toWide, toUtf8)
  {
    var converted := toWide(name);
    if converted.None? {
      return [];
    }
    var w := WcsLen(converted.value);
    ghost var total := Keep(Windows(w), toUtf8);
    calls := [];
    var i := 0;
    while i < |w|
      invariant 0 <= i <= |w|
      invariant calls + Keep(Windows(w[i..]), toUtf8) == total
    {
      KeepStep(w, i, toUtf8);
      var more := AddRun(w, i, toUtf8);
      calls := calls + more;
      i := i + 1;
    }
    assert w[i..] == [];
  }

  /** The inner loop of `add_index`: the keywords starting at `i`, from one
      character up to `MAX_KW_LEN` or the end of the name. */
  method AddRun(w: seq<int>, i: nat, toUtf8: seq<int> -> Option<seq<byte>>) returns (calls: seq<seq<byte>>)
    requires i < |w|
    ensures calls == Keep(Run(w[i..]), toUtf8)
  {
    ghost var run := Run(w[i..]);
    calls := [];
    var j := i + 1;
    while j <= |w| && j <= i + MAX_KW_LEN
      invariant i + 1 <= j <= i + 1 + |run|
      invariant calls == Keep(run[..j - i - 1], toUtf8)
    {
      var index := w[i..j];
      RunAt(w, i, j);
      KeepSnoc(run, j - i - 1, toUtf8);
      var utf8 := toUtf8(index);
      if utf8.Some? {
        calls := calls + [utf8.value];
      }
      j := j + 1;
    }
    assert run[..j - i - 1] == run;
  }

  lemma RunAt(w: seq<int>, i: nat, j: nat)
    requires i < j <= |w| && j - i <= MAX_KW_LEN
    ensures j - i - 1 < |Run(w[i..])| && Run(w[i..])[j - i - 1] == w[i..j]
  {
    assert w[i..][..j - i] == w[i..j];
  }

  /** Σ over start positions i < n of min(MAX_KW_LEN, n - i). */
  function KwCount(n: nat): nat
  {
    if n == 0 then 0 else Min(MAX_KW_LEN, n) + KwCount(n - 1)
  }

  /** There is one keyword per (start, length) pair: an n-character name
      yields `KwCount(n)` keywords. */
  lemma {:induction false} WindowsCount(w: seq<int>)
    ensures |Windows(w)| == KwCount(|w|)
  {
    if w != [] {
      WindowsCount(w[1..]);
    }
  }

  /** Σ over the first `i` start positions of an n-character name of
      min(MAX_KW_LEN, n - k): how many calls come before start `i`. */
  function Before(n: nat, i: nat): nat
    requires i <= n
  {
    if i == 0 then 0 else Min(MAX_KW_LEN, n) + Before(n - 1, i - 1)
  }

  /** Each keyword `w[i..j]` with 1 <= j - i <= MAX_KW_LEN is sent, at the
      position the nested loops reach it. */
  lemma {:induction false} WindowAt(w: seq<int>, i: nat, j: nat)
    requires i < j <= |w| && j - i <= MAX_KW_LEN
    ensures Before(|w|, i) + (j - i - 1) < |Windows(w)|
    ensures Windows(w)[Before(|w|, i) + (j - i - 1)] == w[i..j]
  {
    if i == 0 {
      assert Windows(w)[j - 1] == Run(w)[j - 1];
    } else {
      WindowAt(w[1..], i - 1, j - 1);
      assert w[1..][i - 1..j - 1] == w[i..j];
    }
  }

  /** Every keyword sent is a substring of the name of 1 to MAX_KW_LEN characters. */
  lemma {:induction false} WindowsAreKeywords(w: seq<int>, k: nat)
    requires k < |Windows(w)|
    ensures 1 <= |Windows(w)[k]| <= MAX_KW_LEN
    ensures exists i :: 0 <= i <= |w| && OccursAt(Windows(w)[k], w, i)
  {
    if k < |Run(w)| {
      assert OccursAt(Windows(w)[k], w, 0);
    } else {
      WindowsAreKeywords(w[1..], k - |Run(w)|);
      var i :| 0 <= i <= |w[1..]| && OccursAt(Windows(w[1..])[k - |Run(w)|], w[1..], i);
      assert w[1..][i..i + |Windows(w)[k]|] == w[i + 1..i + 1 + |Windows(w)[k]|];
      assert OccursAt(Windows(w)[k], w, i + 1);
    }
  }

  /** When every conversion succeeds, one call per keyword. */
  lemma {:induction false} KeepAll(ws: seq<seq<int>>, toUtf8: seq<int> -> Option<seq<byte>>)
    requires forall k :: 0 <= k < |ws| ==> toUtf8(ws[k]).Some?
    ensures |Keep(ws, toUtf8)| == |ws|
  {
    if ws != [] {
      assert toUtf8(ws[0]).Some?;
      KeepAll(ws[1..], toUtf8);
    }
  }

  /** `add_index` on a name whose conversions all succeed makes exactly
      Σ min(8, n - i) calls. */
  lemma AddIndexCount(name: seq<byte>, toWide: seq<byte> -> Option<seq<int>>,
                      toUtf8: seq<int> -> Option<seq<byte>>)
    requires toWide(name).Some?
    requires forall k :: 0 <= k < |Windows(WcsLen(toWide(name).value))| ==>
      toUtf8(Windows(WcsLen(toWide(name).value))[k]).Some?
    ensures |Emitted(name, toWide, toUtf8)| == KwCount(|WcsLen(toWide(name).value)|)
  {
    var w := WcsLen(toWide(name).value);
    KeepAll(Windows(w), toUtf8);
    WindowsCount(w);
  }

  // ---------------------------------------------------------------------------
  // The keyword record: u32 record size (excluding itself), u32 offset
  // count, the name and its NUL, then the offsets, all little-endian.

  /** The four little-endian bytes of a `uint32_t`. */
  function U32Bytes(x: u32): (b: seq<byte>)
    ensures |b| == 4
  {
    var q1 := x / 256;
    var q2 := q1 / 256;
    [(x % 256) as byte, (q1 % 256) as byte, (q2 % 256) as byte, (q2 / 256) as byte]
  }

  function EncodeOffsets(offs: seq<u32>): (b: seq<byte>)
    ensures |b| == 4 * |offs|
  {
    if offs == [] then [] else U32Bytes(offs[0]) + EncodeOffsets(offs[1..])
  }

  function DecodeOffsets(b: seq<byte>, n: nat): (r: seq<u32>)
    requires |b| >= 4 * n
    ensures |r| == n
  {
    if n == 0 then [] else [DecodeU32(b[..4])] + DecodeOffsets(b[4..], n - 1)
  }

  /** The `uint32_t` stored little-endian in four bytes. */
  function DecodeU32(b: seq<byte>): u32
    requires |b| == 4
  {
    var hi := b[2] as int + 256 * b[3] as int;
    assert hi < 65536;
    var mid := b[1] as int + 256 * hi;
    assert mid < 0x100_0000;
    b[0] as int + 256 * mid
  }

  lemma U32RoundTrip(x: u32)
    ensures DecodeU32(U32Bytes(x)) == x
  {
    var q1 := x / 256;
    var q2 := q1 / 256;
    assert x == x % 256 + 256 * q1;
    assert q1 == q1 % 256 + 256 * q2;
    assert q2 == q2 % 256 + 256 * (q2 / 256);
  }

  lemma {:induction false} OffsetsRoundTrip(offs: seq<u32>)
    ensures DecodeOffsets(EncodeOffsets(offs), |offs|) == offs
  {
    if offs != [] {
      U32RoundTrip(offs[0]);
      OffsetsRoundTrip(offs[1..]);
    }
  }

  /** `inkw_size`: the record's length after its first field. */
  function InkwSize(name: seq<byte>, offs: seq<u32>): u32
  {
    Wrap32(4 + |name| + 1 + 4 * |offs|)
  }

  /** The bytes `save_index_keyword` writes for a keyword. */
  function EncodeRecord(name: seq<byte>, offs: seq<u32>): (b: seq<byte>)
    ensures |b| == 8 + |name| + 1 + 4 * |offs|
  {
    RecordHead(name, offs) + (name + [0]) + EncodeOffsets(offs)
  }

  /** The record's two `uint32_t` fields: `inkw_size` and `len`. */
  function RecordHead(name: seq<byte>, offs: seq<u32>): (b: seq<byte>)
    ensures |b| == 8
  {
    U32Bytes(InkwSize(name, offs)) + U32Bytes(|offs| % TWO32)
  }

  /** `save_index_keyword`'s return value: the record size, or 0 when a
      write fails. */
  function SaveIndexKeyword(name: seq<byte>, offs: seq<u32>, writeOk: bool): (size: nat)
    ensures !writeOk ==> size == 0
  {
    if !writeOk then 0 else InkwSize(name, offs) + 4
  }

  /** The size returned is the length of the record written, and the size
      `save_allmem_index` charges to the keyword in its offset table. */
  lemma SaveSize(k: AllmemIndex.Keyword)
    requires 8 + |k.name| + 1 + 4 * |k.offsets| < TWO32
    ensures SaveIndexKeyword(k.name, k.offsets, true) == |EncodeRecord(k.name, k.offsets)|
    ensures SaveIndexKeyword(k.name, k.offsets, true) == AllmemIndex.RecordSize(k)
  {
    NoWrap(4 + |k.name| + 1 + 4 * |k.offsets|);
  }

  lemma NoWrap(x: int)
    requires 0 <= x < TWO32
    ensures Wrap32(x) == x
  {
  }

  /** The outcome of `load_index_keyword`: a loaded keyword (its name, the
      offsets read, its 28-bit `len` field) and the bytes consumed; a
      skipped record; or an error code. */
  datatype Loaded =
    | Keyword(name: seq<byte>, offsets: seq<u32>, len: nat, consumed: nat)
    | Skipped(consumed: nat)
    | Failed(code: int)

  /** The integer `load_index_keyword` returns. */
  function LoadCode(r: Loaded): int
  {
    match r
    case Keyword(_, _, _, _) => 0
    case Skipped(_) => -1
    case Failed(c) => c
  }

  /** `load_index_keyword` reading from `input`. `dupOk` and `mallocOk` are
      the outcomes of the name's `strdup` (used for names of 7 or more bytes)
      and of the offset array's `malloc`. */
  function LoadIndexKeyword(input: seq<byte>, query: Option<seq<byte>>, dupOk: bool, mallocOk: bool): (r: Loaded)
    ensures r.Keyword? ==> r.consumed <= |input| && Free(r.name, 0)
  {
    if |input| < 8 then Failed(1)
    else LoadBody(DecodeU32(input[..4]), DecodeU32(input[4..8]), input[8..], query, dupOk, mallocOk)
  }

  /** The rest of `load_index_keyword` once its two header fields are read:
      the name takes `sizes[0] - 4 - 4*sizes[1]` bytes (in `uint32_t`
      arithmetic), the offsets `4*sizes[1]`. */
  function LoadBody(size0: u32, count: u32, body: seq<byte>, query: Option<seq<byte>>,
                    dupOk: bool, mallocOk: bool): (r: Loaded)
    ensures r.Keyword? ==> r.consumed <= 8 + |body| && Free(r.name, 0)
  {
    var strBytes := Wrap32(size0 - 4 - 4 * count);
    if |body| < strBytes then Failed(2)
    else LoadNamed(CString(body[..strBytes]), strBytes, count, body[strBytes..], query, dupOk, mallocOk)
  }

  /** After the name `s` (read from `strBytes` bytes): the comparison with
      the query and the two allocations. */
  function LoadNamed(s: seq<byte>, strBytes: nat, count: u32, tail: seq<byte>, query: Option<seq<byte>>,
                     dupOk: bool, mallocOk: bool): (r: Loaded)
    requires Free(s, 0)
    ensures r.Keyword? ==> r.consumed <= 8 + strBytes + |tail| && r.name == s
  {
    if query.Some? && query.value != s then Skipped(8 + strBytes + 4 * count)
    else if |s| >= SHORT_CAP && !dupOk then Failed(4)
    else if !mallocOk then Failed(6)
    else LoadOffsets(s, strBytes, count, tail)
  }

  /** The last read: `4*count` offset bytes (in `uint32_t` arithmetic). */
  function LoadOffsets(s: seq<byte>, strBytes: nat, count: u32, tail: seq<byte>): (r: Loaded)
    ensures r.Keyword? ==> r.consumed <= 8 + strBytes + |tail| && r.name == s
  {
    var offBytes := Wrap32(4 * count);
    if |tail| < offBytes then Failed(7)
    else Keyword(s, DecodeOffsets(tail[..offBytes], offBytes / 4), count % 0x1000_0000, 8 + strBytes + offBytes)
  }

  /** Round trip: loading a saved record recovers the name, the offsets and
      the count, and consumes exactly the record. */
  lemma RecordRoundTrip(name: seq<byte>, offs: seq<u32>, rest: seq<byte>, query: Option<seq<byte>>, dupOk: bool)
    requires Free(name, 0) && |offs| < 0x1000_0000 && 8 + |name| + 1 + 4 * |offs| < TWO32
    requires query.None? || query.value == name
    requires |name| >= SHORT_CAP ==> dupOk
    ensures LoadIndexKeyword(EncodeRecord(name, offs) + rest, query, dupOk, true)
            == Keyword(name, offs, |offs|, |EncodeRecord(name, offs)|)
  {
    RecordHeader(name, offs, rest);
    BodyRoundTrip(name, offs, rest, query, dupOk, 4 + |name| + 1 + 4 * |offs|, |offs|);
  }

  /** The body of a saved record reads back, given its two header fields. */
  lemma BodyRoundTrip(name: seq<byte>, offs: seq<u32>, rest: seq<byte>, query: Option<seq<byte>>, dupOk: bool,
                      size0: u32, count: u32)
    requires Free(name, 0) && |offs| < 0x1000_0000
    requires size0 == 4 + |name| + 1 + 4 * |offs| && count == |offs|
    requires query.None? || query.value == name
    requires |name| >= SHORT_CAP ==> dupOk
    ensures LoadBody(size0, count, (name + [0]) + (EncodeOffsets(offs) + rest), query, dupOk, true)
            == Keyword(name, offs, |offs|, 4 + size0)
  {
    StrBytes(|name|, |offs|);
    BodySplit(size0, count, name, EncodeOffsets(offs) + rest, query, dupOk, true);
    NamedStage(name, |name| + 1, offs, rest, query, dupOk);
  }

  /** With the NUL-terminated name first in the body, `load_index_keyword`
      reads that name and goes on with what follows. */
  lemma BodySplit(size0: u32, count: u32, name: seq<byte>, t: seq<byte>, query: Option<seq<byte>>, dupOk: bool, mallocOk: bool)
    requires Free(name, 0) && Wrap32(size0 - 4 - 4 * count) == |name| + 1
    ensures LoadBody(size0, count, (name + [0]) + t, query, dupOk, mallocOk) == LoadNamed(name, |name| + 1, count, t, query, dupOk, mallocOk)
  {
    assert ((name + [0]) + t)[..|name| + 1] == name + [0];
    assert ((name + [0]) + t)[|name| + 1..] == t;
    CStringNul(name);
  }

  /** The name length `load_index_keyword` derives from a saved header. */
  lemma StrBytes(n: nat, m: nat)
    requires 4 + n + 1 + 4 * m < TWO32
    ensures Wrap32(4 + n + 1 + 4 * m - 4 - 4 * m) == n + 1
  {
  }

  /** A name that matches the query and can be copied goes on to the offsets. */
  lemma NamedStage(name: seq<byte>, strBytes: nat, offs: seq<u32>, rest: seq<byte>, query: Option<seq<byte>>, dupOk: bool)
    requires Free(name, 0) && |offs| < 0x1000_0000
    requires query.None? || query.value == name
    requires |name| >= SHORT_CAP ==> dupOk
    ensures LoadNamed(name, strBytes, |offs|, EncodeOffsets(offs) + rest, query, dupOk, true)
            == Keyword(name, offs, |offs|, 8 + strBytes + 4 * |offs|)
  {
    OffsetsStage(name, strBytes, offs, rest);
  }

  /** The offset bytes of a saved record read back. */
  lemma OffsetsStage(name: seq<byte>, strBytes: nat, offs: seq<u32>, rest: seq<byte>)
    requires |offs| < 0x1000_0000
    ensures LoadOffsets(name, strBytes, |offs|, EncodeOffsets(offs) + rest)
            == Keyword(name, offs, |offs|, 8 + strBytes + 4 * |offs|)
  {
    var tail := EncodeOffsets(offs) + rest;
    NoWrap(4 * |offs|);
    Quarter(|offs|);
    SmallMod(|offs|, 0x1000_0000);
    OffsetsRoundTrip(offs);
    assert tail[..4 * |offs|] == EncodeOffsets(offs);
  }

  lemma SmallMod(x: nat, m: nat)
    requires x < m
    ensures x % m == x
  {
  }

  lemma Quarter(n: nat)
    ensures 4 * n / 4 == n
  {
  }

  /** A record whose name is not the query is skipped whole: the header,
      the name and exactly 4·len offset bytes. */
  lemma RecordSkipped(name: seq<byte>, offs: seq<u32>, rest: seq<byte>, query: seq<byte>, dupOk: bool, mallocOk: bool)
    requires Free(name, 0) && 8 + |name| + 1 + 4 * |offs| < TWO32 && query != name
    ensures LoadIndexKeyword(EncodeRecord(name, offs) + rest, Some(query), dupOk, mallocOk)
            == Skipped(8 + |name| + 1 + 4 * |offs|)
  {
    RecordHeader(name, offs, rest);
    BodyFields(name, EncodeOffsets(offs), rest);
  }

  /** The record's fields, as slices of its bytes. */
  lemma RecordSlices(name: seq<byte>, offs: seq<u32>, rest: seq<byte>)
    ensures (EncodeRecord(name, offs) + rest)[..4] == U32Bytes(InkwSize(name, offs))
    ensures (EncodeRecord(name, offs) + rest)[4..8] == U32Bytes(|offs| % TWO32)
    ensures (EncodeRecord(name, offs) + rest)[8..] == (name + [0]) + (EncodeOffsets(offs) + rest)
  {
    Slices(RecordHead(name, offs), name + [0], EncodeOffsets(offs), rest);
  }

  lemma Slices(h: seq<byte>, c: seq<byte>, d: seq<byte>, rest: seq<byte>)
    requires |h| == 8
    ensures (h + c + d + rest)[..4] == h[..4]
    ensures (h + c + d + rest)[4..8] == h[4..]
    ensures (h + c + d + rest)[8..] == c + (d + rest)
  {
    assert h + c + d + rest == h + (c + (d + rest));
  }

  /** The name and the offset bytes after the header. */
  lemma BodyFields(name: seq<byte>, offBytes: seq<byte>, rest: seq<byte>)
    requires Free(name, 0)
    ensures ((name + [0]) + (offBytes + rest))[..|name| + 1] == name + [0]
    ensures ((name + [0]) + (offBytes + rest))[|name| + 1..] == offBytes + rest
    ensures CString(name + [0]) == name
    ensures (offBytes + rest)[..|offBytes|] == offBytes
  {
    CStringNul(name);
  }

  /** The two header fields of a record and its name read back. */
  lemma RecordHeader(name: seq<byte>, offs: seq<u32>, rest: seq<byte>)
    requires Free(name, 0) && 8 + |name| + 1 + 4 * |offs| < TWO32
    ensures DecodeU32((EncodeRecord(name, offs) + rest)[..4]) == 4 + |name| + 1 + 4 * |offs|
    ensures DecodeU32((EncodeRecord(name, offs) + rest)[4..8]) == |offs|
    ensures Wrap32(4 + |name| + 1 + 4 * |offs| - 4 - 4 * |offs|) == |name| + 1
    ensures (EncodeRecord(name, offs) + rest)[8..] == (name + [0]) + (EncodeOffsets(offs) + rest)
  {
    RecordSizeField(name, offs, rest);
    RecordCountField(name, offs, rest);
    RecordSlices(name, offs, rest);
    NoWrap(|name| + 1);
  }

  lemma RecordSizeField(name: seq<byte>, offs: seq<u32>, rest: seq<byte>)
    requires 8 + |name| + 1 + 4 * |offs| < TWO32
    ensures DecodeU32((EncodeRecord(name, offs) + rest)[..4]) == 4 + |name| + 1 + 4 * |offs|
  {
    RecordSlices(name, offs, rest);
    NoWrap(4 + |name| + 1 + 4 * |offs|);
    U32RoundTrip(InkwSize(name, offs));
  }

  lemma RecordCountField(name: seq<byte>, offs: seq<u32>, rest: seq<byte>)
    requires 8 + |name| + 1 + 4 * |offs| < TWO32
    ensures DecodeU32((EncodeRecord(name, offs) + rest)[4..8]) == |offs|
  {
    RecordSlices(name, offs, rest);
    NoWrap(|offs|);
    U32RoundTrip(|offs| % TWO32);
  }

  lemma CStringNul(s: seq<byte>)
    requires Free(s, 0)
    ensures CString(s + [0]) == s
  {
    CStringOfTerminated(s, []);
    assert s + [0] + [] == s + [0];
  }

  /** Where `load_fs_index` goes after the header. */
  datatype FsIndexLoad =
    | LoadFailed(code: int)
    | LoadAllmem(count: u32, body: seq<byte>)
    | LoadAllfile(count: u32, body: seq<byte>)

  /** `load_fs_index`: `file` is the file's content, None when `open` fails. */
  function LoadFsIndex(file: Option<seq<byte>>, policy: int): (r: FsIndexLoad)
    ensures file.None? ==> r == LoadFailed(1)
    ensures r.LoadAllmem? ==> policy == LOAD_ALL
    ensures r.LoadAllfile? ==> policy == LOAD_NONE
  {
    if file.None? then LoadFailed(1)
    else
      var f := file.value;
      if |f| < 4 || CString(f[..4]) != INDEX_MAGIC then LoadFailed(2)
      else if |f| < 8 then LoadFailed(3)
      else if policy == LOAD_ALL then LoadAllmem(DecodeU32(f[4..8]), f[8..])
      else if policy == LOAD_NONE then LoadAllfile(DecodeU32(f[4..8]), f[8..])
      else LoadFailed(-1)
  }

  /** The header `save_allmem_index` writes. */
  function IndexHeader(count: u32): (b: seq<byte>)
    ensures |b| == AllmemIndex.FILE_HEADER
  {
    INDEX_MAGIC + [0] + U32Bytes(count)
  }

  /** A saved index is dispatched by policy with its count; a bad magic gives
      2 and an unknown policy -1. */
  lemma LoadFsIndexHeader(count: u32, body: seq<byte>, policy: int)
    ensures LoadFsIndex(Some(IndexHeader(count) + body), policy)
            == if policy == LOAD_ALL then LoadAllmem(count, body)
               else if policy == LOAD_NONE then LoadAllfile(count, body)
               else LoadFailed(-1)
  {
    var f := IndexHeader(count) + body;
    assert f[..4] == INDEX_MAGIC + [0] + [];
    CStringOfTerminated(INDEX_MAGIC, []);
    assert f[4..8] == U32Bytes(count);
    U32RoundTrip(count);
    assert f[8..] == body;
  }

  lemma BadMagic(f: seq<byte>, policy: int)
    requires 4 <= |f| && f[..4] != INDEX_MAGIC + [0]
    ensures LoadFsIndex(Some(f), policy) == LoadFailed(2)
  {
  }
}

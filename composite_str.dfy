/** The keyword string cell of the in-memory index: an 8-byte union that holds
    either a string of at most 6 characters inline, marked by the tag byte 0x75
    in its last byte, or a pointer (little-endian, x86-64) to a heap copy. */
module CompositeStr {
  import opened Common

  const KW_WORD_TAG: byte := 0x75
  const CS_LONG_STR: int := 0
  const CS_SHORT_STR: int := 1
  const CS_SET_STR_FAIL: int := 2

  /** `sizeof(short_str.s)`: room for six characters and their NUL. */
  const SHORT_CAP: nat := 7

  /** User-space heap addresses on x86-64 lie below 2^47, so the top byte of a
      heap pointer is 0 and never equals the tag. */
  const USER_SPACE_END: nat := 0x8000_0000_0000

  /** The `n` little-endian bytes of `x`. */
  function LittleEndian(x: nat, n: nat): (b: seq<byte>)
    ensures |b| == n
  {
    if n == 0 then [] else [(x % 256) as byte] + LittleEndian(x / 256, n - 1)
  }

  /** The number whose little-endian bytes are `b`. */
  function FromLittleEndian(b: seq<byte>): nat
  {
    if b == [] then 0 else b[0] as nat + 256 * FromLittleEndian(b[1..])
  }

  function Pow256(n: nat): nat
  {
    if n == 0 then 1 else 256 * Pow256(n - 1)
  }

  lemma {:induction false} LittleEndianRoundTrip(x: nat, n: nat)
    requires x < Pow256(n)
    ensures FromLittleEndian(LittleEndian(x, n)) == x
  {
    if n > 0 {
      LittleEndianRoundTrip(x / 256, n - 1);
      assert LittleEndian(x, n)[1..] == LittleEndian(x / 256, n - 1);
    }
  }

  /** A value below 256^(n-1) has a zero top byte. */
  lemma {:induction false} TopByteZero(x: nat, n: nat)
    requires 0 < n && x < Pow256(n - 1)
    ensures LittleEndian(x, n)[n - 1] == 0
  {
    if n > 1 {
      TopByteZero(x / 256, n - 1);
      assert LittleEndian(x, n)[n - 1] == LittleEndian(x / 256, n - 1)[n - 2];
    }
  }

  lemma {:induction false} ZeroMeansZeroBytes(b: seq<byte>, i: nat)
    requires FromLittleEndian(b) == 0 && i < |b|
    ensures b[i] == 0
  {
    if i > 0 {
      ZeroMeansZeroBytes(b[1..], i - 1);
    }
  }

  /** The pointer member `p` of the union. */
  function Pointer(raw: seq<byte>): nat
    requires |raw| == 8
  {
    FromLittleEndian(raw)
  }

  /** The characters of `s` up to its first NUL (what `strcpy` and `strcmp` see). */
  function CString(s: seq<byte>): (r: seq<byte>)
    ensures |r| <= |s| && Free(r, 0) && IsPrefix(r, s)
    ensures |r| < |s| ==> s[|r|] == 0
  {
    if s == [] || s[0] == 0 then [] else [s[0]] + CString(s[1..])
  }

  lemma {:induction false} CStringOfTerminated(s: seq<byte>, rest: seq<byte>)
    requires Free(s, 0)
    ensures CString(s + [0] + rest) == s
  {
    if s != [] {
      assert (s + [0] + rest)[1..] == s[1..] + [0] + rest;
      CStringOfTerminated(s[1..], rest);
    }
  }

  /** The union bytes after `set_cs_string` stores a short string: `p = 0`
      cleared all eight bytes, the flag was set, then `strcpy` copied the
      characters and their NUL. */
  function ShortCell(s: seq<byte>): (raw: seq<byte>)
    requires |s| < SHORT_CAP
    ensures |raw| == 8 && raw[7] == KW_WORD_TAG
  {
    s + seq(SHORT_CAP - |s|, _ => 0 as byte) + [KW_WORD_TAG]
  }

  /** A heap string store: where strings copied with `strdup` live. */
  class Heap {
    var blocks: map<nat, seq<byte>>

    constructor ()
      ensures blocks == map[]
    {
      blocks := map[];
    }
  }

  /** `get_cs_string`: the inline characters when the tag is set, else the
      string the pointer refers to (which must be a live block). */
  function GetCsString(raw: seq<byte>, heap: map<nat, seq<byte>>): (r: seq<byte>)
    requires |raw| == 8
    requires raw[7] != KW_WORD_TAG ==> Pointer(raw) in heap
    ensures raw[7] == KW_WORD_TAG ==> |r| <= SHORT_CAP && Free(r, 0) && IsPrefix(r, raw)
  {
    if raw[7] == KW_WORD_TAG then CString(raw[..7]) else heap[Pointer(raw)]
  }

  /** Round-trip for short strings: the inline string reads back. */
  lemma ShortRoundTrip(s: seq<byte>, heap: map<nat, seq<byte>>)
    requires |s| < SHORT_CAP && Free(s, 0)
    ensures GetCsString(ShortCell(s), heap) == s
  {
    var raw := ShortCell(s);
    assert raw[..7] == s + [0] + seq(SHORT_CAP - |s| - 1, _ => 0 as byte);
    CStringOfTerminated(s, seq(SHORT_CAP - |s| - 1, _ => 0 as byte));
  }

  /** Round-trip for long strings: a stored heap pointer never looks tagged,
      so the pointer is followed and the copied string reads back. */
  lemma LongRoundTrip(s: seq<byte>, addr: nat, heap: map<nat, seq<byte>>)
    requires 0 < addr < USER_SPACE_END && addr in heap && heap[addr] == s
    ensures LittleEndian(addr, 8)[7] != KW_WORD_TAG && Pointer(LittleEndian(addr, 8)) == addr
    ensures GetCsString(LittleEndian(addr, 8), heap) == s
  {
    assert Pow256(7) == 0x100_0000_0000_0000;
    TopByteZero(addr, 8);
    LittleEndianRoundTrip(addr, 8);
  }

  /** A short cell's pointer reading is never NULL, because the tag byte is
      part of it; this is why `set_cs_string` reports success for short strings. */
  lemma ShortCellPointerNonNull(s: seq<byte>)
    requires |s| < SHORT_CAP
    ensures Pointer(ShortCell(s)) != 0
  {
    if Pointer(ShortCell(s)) == 0 {
      ZeroMeansZeroBytes(ShortCell(s), 7);
    }
  }

  /** What `free_composite_str` releases: the pointer, when it is not NULL and
      the tag is not set. */
  function FreedBlock(raw: seq<byte>): (r: Option<nat>)
    requires |raw| == 8
    ensures r.Some? <==> Pointer(raw) != 0 && raw[7] != KW_WORD_TAG
  {
    if Pointer(raw) != 0 && raw[7] != KW_WORD_TAG then Some(Pointer(raw)) else None
  }

  /** Only long strings are freed: a short cell frees nothing, a failed set
      (all zero bytes) frees nothing, and a long cell frees its own block. */
  lemma FreeOnlyLong(s: seq<byte>, addr: nat)
    requires |s| < SHORT_CAP && 0 < addr < USER_SPACE_END
    ensures FreedBlock(ShortCell(s)).None?
    ensures FreedBlock(LittleEndian(0, 8)).None?
    ensures FreedBlock(LittleEndian(addr, 8)) == Some(addr)
  {
    LittleEndianRoundTrip(0, 8);
    assert Pow256(7) == 0x100_0000_0000_0000;
    TopByteZero(addr, 8);
    LittleEndianRoundTrip(addr, 8);
  }

  /** One `composite_str` value, updated in place by `set_cs_string`. */
  class Cell {
    var raw: seq<byte>

    ghost predicate Valid()
      reads this
    {
      |raw| == 8
    }

    constructor ()
      ensures Valid() && raw == LittleEndian(0, 8)
    {
      raw := LittleEndian(0, 8);
    }

    /** `set_cs_string`. `dup` is the address `strdup` returns (0 when the
        allocation fails); it is only used for strings of 7 or more bytes. */
    method SetCsString(s: seq<byte>, heap: Heap, dup: nat) returns (code: int)
      requires Valid() && Free(s, 0)
      requires dup < USER_SPACE_END && dup !in heap.blocks
      modifies this, heap
      ensures Valid()
      ensures |s| >= SHORT_CAP ==> raw == LittleEndian(dup, 8)
      ensures |s| < SHORT_CAP ==> raw == ShortCell(s)
      ensures heap.blocks == if |s| >= SHORT_CAP && dup != 0 then old(heap.blocks)[dup := s] else old(heap.blocks)
      ensures code == if |s| < SHORT_CAP then CS_SHORT_STR else if dup == 0 then CS_SET_STR_FAIL else CS_LONG_STR
    {
      var longStr := |s| >= SHORT_CAP;
      raw := LittleEndian(0, 8);
      if longStr {
        if dup != 0 {
          heap.blocks := heap.blocks[dup := s];
        }
        raw := LittleEndian(dup, 8);
      } else {
        raw := raw[7 := KW_WORD_TAG];
        raw := s + [0] + raw[|s| + 1..];
        assert raw == ShortCell(s);
      }
      var p := FromLittleEndian(raw);
      if longStr {
        assert Pow256(8) > USER_SPACE_END;
        LittleEndianRoundTrip(dup, 8);
      } else {
        ShortCellPointerNonNull(s);
      }
      if p == 0 {
        return CS_SET_STR_FAIL;
      }
      code := if longStr then CS_LONG_STR else CS_SHORT_STR;
    }

    /** `free_composite_str`. */
    method FreeCompositeStr(heap: Heap)
      requires Valid()
      modifies heap
      ensures heap.blocks == if FreedBlock(raw).Some? then old(heap.blocks) - {Pointer(raw)} else old(heap.blocks)
    {
      var p := FromLittleEndian(raw);
      if p != 0 && raw[7] != KW_WORD_TAG {
        heap.blocks := heap.blocks - {p};
      }
    }
  }
}

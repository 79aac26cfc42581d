/** The keyword-index helpers: the bucket hash, the position of a value in a
    sorted offset array, and the shift of stored buffer offsets after the file
    tree buffer has moved bytes. */
module IndexUtils {
  import opened Common

  // ---------------------------------------------------------------------------
  // hash

  /** The loop of `hash`: `result = result*31 + c` for each `char` c, in
      `uint32_t`, where `char` is signed. */
  function HashFrom(acc: u32, name: seq<byte>): u32
    decreases |name|
  {
    if name == [] then acc
    else HashFrom(Wrap32(acc * 31 + SignedChar(name[0])), name[1..])
  }

  function Hash(name: seq<byte>): u32
  {
    HashFrom(0, name)
  }

  function Pow31(n: nat): nat
  {
    if n == 0 then 1 else 31 * Pow31(n - 1)
  }

  /** Reference definition: the polynomial sum_i c_i * 31^(n-1-i) over the
      signed character values, without any reduction. */
  function Poly(name: seq<byte>): int
    decreases |name|
  {
    if name == [] then 0
    else SignedChar(name[0]) * Pow31(|name| - 1) + Poly(name[1..])
  }

  lemma ModAbsorb(x: int, y: int, z: int)
    ensures (Wrap32(x) * y + z) % TWO32 == (x * y + z) % TWO32
  {
    var q := x / TWO32;
    assert x == q * TWO32 + Wrap32(x);
    assert x * y + z == (Wrap32(x) * y + z) + (q * y) * TWO32 by {
      calc {
        x * y + z;
        (q * TWO32 + Wrap32(x)) * y + z;
        { assert (q * TWO32 + Wrap32(x)) * y == q * TWO32 * y + Wrap32(x) * y; }
        q * TWO32 * y + Wrap32(x) * y + z;
        { assert q * TWO32 * y == (q * y) * TWO32; }
        (Wrap32(x) * y + z) + (q * y) * TWO32;
      }
    }
    ShiftMod(Wrap32(x) * y + z, q * y);
  }

  lemma ShiftMod(a: int, k: int)
    ensures (a + k * TWO32) % TWO32 == a % TWO32
  {
  }

  /** The loop result is the reference polynomial reduced modulo 2^32. */
  lemma {:induction false} HashFromPoly(acc: u32, name: seq<byte>)
    ensures HashFrom(acc, name) == (acc * Pow31(|name|) + Poly(name)) % TWO32
    decreases |name|
  {
    if name != [] {
      var c := SignedChar(name[0]);
      var t := name[1..];
      var p := Pow31(|t|);
      var acc' := Wrap32(acc * 31 + c);
      HashFromPoly(acc', t);
      assert HashFrom(acc, name) == (acc' * p + Poly(t)) % TWO32;
      ModAbsorb(acc * 31 + c, p, Poly(t));
      Regroup(acc, c, p, Poly(t));
      assert Pow31(|name|) == 31 * p;
      assert Poly(name) == c * p + Poly(t);
    }
  }

  lemma Regroup(acc: int, c: int, p: int, rest: int)
    ensures (acc * 31 + c) * p + rest == acc * (31 * p) + (c * p + rest)
  {
  }

  lemma HashIsPoly(name: seq<byte>)
    ensures Hash(name) == Poly(name) % TWO32
  {
    HashFromPoly(0, name);
  }

  lemma HashEmpty()
    ensures Hash([]) == 0
  {
  }

  /** One more character extends the hash exactly as one more turn of the
      source's loop does. */
  lemma {:induction false} HashSnoc(name: seq<byte>, c: byte)
    ensures Hash(name + [c]) == Wrap32(Hash(name) * 31 + SignedChar(c))
  {
    HashIsPoly(name + [c]);
    HashIsPoly(name);
    PolySnoc(name, c);
    ModAbsorb(Poly(name), 31, SignedChar(c));
  }

  lemma {:induction false} PolySnoc(name: seq<byte>, c: byte)
    ensures Poly(name + [c]) == Poly(name) * 31 + SignedChar(c)
    decreases |name|
  {
    if name == [] {
      assert Poly([c]) == SignedChar(c) * Pow31(0) + Poly([]);
    } else {
      var s := name + [c];
      assert s[1..] == name[1..] + [c];
      PolySnoc(name[1..], c);
      assert Pow31(|s| - 1) == 31 * Pow31(|name| - 1);
      assert SignedChar(name[0]) * (31 * Pow31(|name| - 1))
          == (SignedChar(name[0]) * Pow31(|name| - 1)) * 31;
    }
  }

  // ---------------------------------------------------------------------------
  // get_insert_pos

  /** The scan loop of `get_insert_pos`, from index `i`, including the
      fall-through that the source marks as unreachable. */
  function ScanPos(value: u32, sorted: seq<u32>, i: nat, favorBig: bool): (pos: nat)
    requires 0 < |sorted|
    ensures pos <= |sorted|
    ensures !favorBig ==> pos < |sorted|
    decreases |sorted| - i
  {
    if i >= |sorted| - 1 then (if favorBig then |sorted| else |sorted| - 1)
    else if sorted[i] == value then i
    else if sorted[i] < value && value < sorted[i + 1] then (if favorBig then i + 1 else i)
    else ScanPos(value, sorted, i + 1, favorBig)
  }

  function GetInsertPos(value: u32, sorted: seq<u32>, favorBig: bool): (pos: nat)
    ensures pos <= |sorted|
    ensures |sorted| == 0 ==> pos == 0
    ensures !favorBig && |sorted| > 0 ==> pos < |sorted|
  {
    if |sorted| == 0 || sorted[0] >= value then 0
    else if sorted[|sorted| - 1] == value then |sorted| - 1
    else if sorted[|sorted| - 1] < value then (if favorBig then |sorted| else |sorted| - 1)
    else ScanPos(value, sorted, 0, favorBig)
  }

  /** While every element up to `i` is below `value` and the last is above it,
      the scan stops at the first element that is not below `value`. */
  lemma {:induction false} ScanPosLower(value: u32, sorted: seq<u32>, i: nat)
    requires Increasing(sorted) && 0 < |sorted| && i < |sorted|
    requires forall j :: 0 <= j <= i ==> sorted[j] < value
    requires sorted[|sorted| - 1] > value
    ensures var pos := ScanPos(value, sorted, i, true);
      pos < |sorted| && sorted[pos] >= value && forall j :: 0 <= j < pos ==> sorted[j] < value
    decreases |sorted| - i
  {
    if i >= |sorted| - 1 {
      assert false;
    } else if sorted[i] == value {
      assert false;
    } else if sorted[i] < value && value < sorted[i + 1] {
    } else {
      assert sorted[i + 1] < value || sorted[i + 1] == value;
      if sorted[i + 1] == value {
        assert ScanPos(value, sorted, i + 1, true) == i + 1 || i + 1 >= |sorted| - 1;
        assert i + 1 < |sorted| - 1;
      } else {
        ScanPosLower(value, sorted, i + 1);
      }
    }
  }

  /** With `favor_big` and strictly increasing input the result is the lower
      bound of `value`: everything before it is smaller, and the element at it,
      if any, is not. */
  lemma LowerBound(value: u32, sorted: seq<u32>)
    requires Increasing(sorted)
    ensures var pos := GetInsertPos(value, sorted, true);
      (forall j :: 0 <= j < pos ==> sorted[j] < value)
      && (pos < |sorted| ==> sorted[pos] >= value)
  {
    var n := |sorted|;
    if n == 0 || sorted[0] >= value {
    } else if sorted[n - 1] == value {
    } else if sorted[n - 1] < value {
    } else {
      ScanPosLower(value, sorted, 0);
    }
  }

  /** The same scan for `favor_big == 0`: it stops at the last element that
      is at most `value`. */
  lemma {:induction false} ScanPosFloor(value: u32, sorted: seq<u32>, i: nat)
    requires Increasing(sorted) && 0 < |sorted| && i < |sorted|
    requires forall j :: 0 <= j <= i ==> sorted[j] < value
    requires sorted[|sorted| - 1] > value
    ensures var pos := ScanPos(value, sorted, i, false);
      pos + 1 < |sorted| && sorted[pos] <= value && sorted[pos + 1] > value
    decreases |sorted| - i
  {
    if i >= |sorted| - 1 {
      assert false;
    } else if sorted[i] == value {
      assert false;
    } else if sorted[i] < value && value < sorted[i + 1] {
    } else if sorted[i + 1] == value {
      assert i + 1 < |sorted| - 1;
      assert ScanPos(value, sorted, i + 1, false) == i + 1;
    } else {
      ScanPosFloor(value, sorted, i + 1);
    }
  }

  /** With `favor_big == 0`, strictly increasing input and a first element
      below `value`, the result is the last index whose element is at most
      `value`. */
  lemma FloorIndex(value: u32, sorted: seq<u32>)
    requires Increasing(sorted) && 0 < |sorted| && sorted[0] < value
    ensures var pos := GetInsertPos(value, sorted, false);
      sorted[pos] <= value && (pos + 1 < |sorted| ==> sorted[pos + 1] > value)
  {
    var n := |sorted|;
    if sorted[n - 1] == value {
    } else if sorted[n - 1] < value {
    } else {
      ScanPosFloor(value, sorted, 0);
    }
  }

  /** For strictly increasing input, a value that occurs is found at its own
      index, whichever way `favor_big` is set. */
  lemma {:induction false} FindsPresent(value: u32, sorted: seq<u32>, favorBig: bool, k: nat)
    requires Increasing(sorted) && k < |sorted| && sorted[k] == value
    ensures GetInsertPos(value, sorted, favorBig) == k
  {
    var n := |sorted|;
    if sorted[0] >= value {
      assert k == 0;
    } else if sorted[n - 1] == value {
      assert k == n - 1;
    } else {
      assert sorted[n - 1] > value;
      ScanPosPresent(value, sorted, 0, favorBig, k);
    }
  }

  lemma {:induction false} ScanPosPresent(value: u32, sorted: seq<u32>, i: nat, favorBig: bool, k: nat)
    requires Increasing(sorted) && k < |sorted| - 1 && sorted[k] == value && i <= k
    ensures ScanPos(value, sorted, i, favorBig) == k
    decreases k - i
  {
    if i < k {
      assert sorted[i] < value && sorted[i + 1] <= value;
      ScanPosPresent(value, sorted, i + 1, favorBig, k);
    }
  }

  // ---------------------------------------------------------------------------
  // add_inkw_fsbuf_offsets

  /** The offsets after the shift as the source performs it: nothing moves
      when the array is empty or its last entry is below `start`; otherwise
      every entry at or above `start` gets `delta` added in `uint32_t`. */
  function Shifted(offs: seq<u32>, start: u32, delta: int): (r: seq<u32>)
    ensures |r| == |offs|
  {
    if |offs| == 0 || offs[|offs| - 1] < start then offs
    else seq(|offs|, n requires 0 <= n < |offs| =>
               if offs[n] >= start then Wrap32(offs[n] + delta) else offs[n])
  }

  /** Number of entries at or above `start`. */
  function CountFrom(offs: seq<u32>, start: u32): (c: nat)
    ensures c <= |offs|
  {
    if offs == [] then 0
    else CountFrom(offs[..|offs| - 1], start) + (if offs[|offs| - 1] >= start then 1 else 0)
  }

  /** The count the source returns, with its early exits. */
  function ShiftCount(offs: seq<u32>, start: u32): nat
  {
    if |offs| == 0 || offs[|offs| - 1] < start then 0 else CountFrom(offs, start)
  }

  lemma {:induction false} CountFromNone(offs: seq<u32>, start: u32)
    requires forall n :: 0 <= n < |offs| ==> offs[n] < start
    ensures CountFrom(offs, start) == 0
  {
    if offs != [] {
      CountFromNone(offs[..|offs| - 1], start);
    }
  }

  /** On a non-decreasing array the early exit is harmless: every entry at or
      above `start` is shifted, no other entry changes, and the returned
      count is the number of shifted entries. */
  lemma ShiftSorted(offs: seq<u32>, start: u32, delta: int)
    requires NonDecreasing(offs)
    ensures forall n :: 0 <= n < |offs| ==>
      Shifted(offs, start, delta)[n] == (if offs[n] >= start then Wrap32(offs[n] + delta) else offs[n])
    ensures ShiftCount(offs, start) == CountFrom(offs, start)
  {
    if |offs| > 0 && offs[|offs| - 1] < start {
      CountFromNone(offs, start);
    }
  }

  /** One entry of the shifted array, for an entry no larger than the last. */
  lemma ShiftedAt(offs: seq<u32>, start: u32, delta: int, n: nat)
    requires n < |offs| && offs[n] <= offs[|offs| - 1]
    ensures Shifted(offs, start, delta)[n] == if offs[n] >= start then Wrap32(offs[n] + delta) else offs[n]
  {
  }

  /** `add_inkw_fsbuf_offsets`: `a` holds the keyword's `len` offsets. */
  method AddInkwFsbufOffsets(a: array<u32>, start: u32, delta: int) returns (total: nat)
    modifies a
    ensures a[..] == Shifted(old(a[..]), start, delta)
    ensures total == ShiftCount(old(a[..]), start)
  {
    var n0 := a.Length;
    if n0 == 0 || a[n0 - 1] < start {
      return 0;
    }
    ghost var orig := a[..];
    ghost var want := Shifted(orig, start, delta);
    total := 0;
    var n := 0;
    while n < n0
      invariant 0 <= n <= n0 && a.Length == n0
      invariant forall j :: n <= j < n0 ==> a[j] == orig[j]
      invariant forall j :: 0 <= j < n ==> a[j] == want[j]
      invariant total == CountFrom(orig[..n], start)
    {
      assert orig[..n + 1][..n] == orig[..n];
      var x := a[n];
      assert want[n] == if x >= start then Wrap32(x + delta) else x;
      if x >= start {
        a[n] := Wrap32(x + delta);
        total := total + 1;
      }
      n := n + 1;
    }
    assert orig[..n0] == orig;
    assert a[..] == want;
  }
}

/** Machine types and sequence predicates shared by every module of the model.
    C strings are sequences without their terminating NUL; C unsigned integers
    are bounded subset types whose wrap-around is written out with `Wrap32`. */
module Common {

  newtype byte = x: int | 0 <= x < 256

  const TWO32: int := 0x1_0000_0000

  type u32 = x: int | 0 <= x < 0x1_0000_0000

  datatype Option<T> = None | Some(value: T)

  /** Conversion of an int to `uint32_t` (C's modulo-2^32 rule). */
  function Wrap32(x: int): u32
  {
    x % TWO32
  }

  /** A value already in range is its own conversion. */
  lemma Wrap32Small(x: int)
    requires 0 <= x < TWO32
    ensures Wrap32(x) == x
  {
  }

  /** The value of a C `char` on a platform where `char` is signed. */
  function SignedChar(b: byte): int
  {
    if b < 128 then b as int else b as int - 256
  }

  /** `p` is a prefix of `s` (`strncmp(s, p, strlen(p)) == 0`, `strstr(s, p) == s`). */
  predicate IsPrefix<T(==)>(p: seq<T>, s: seq<T>)
  {
    |p| <= |s| && s[..|p|] == p
  }

  /** `p` is a suffix of `s`. */
  predicate IsSuffix<T(==)>(p: seq<T>, s: seq<T>)
  {
    |p| <= |s| && s[|s| - |p|..] == p
  }

  /** `t` occurs in `s` starting at index `i`. */
  predicate OccursAt<T(==)>(t: seq<T>, s: seq<T>, i: int)
  {
    0 <= i && i + |t| <= |s| && s[i..i + |t|] == t
  }

  /** `t` is a substring of `s` (`strstr(s, t) != NULL`, `std::string::find != npos`). */
  predicate Contains<T(==)>(s: seq<T>, t: seq<T>)
  {
    exists i :: 0 <= i <= |s| && OccursAt(t, s, i)
  }

  /** No element of `s` is `x`. */
  predicate Free<T(==)>(s: seq<T>, x: T)
  {
    forall i :: 0 <= i < |s| ==> s[i] != x
  }

  /** Strictly increasing sequence of integers. */
  predicate Increasing(s: seq<int>)
  {
    forall i, j :: 0 <= i < j < |s| ==> s[i] < s[j]
  }

  /** Non-decreasing sequence of integers. */
  predicate NonDecreasing(s: seq<int>)
  {
    forall i, j :: 0 <= i < j < |s| ==> s[i] <= s[j]
  }

  /** A decimal digit character. */
  predicate IsDigit(c: char)
  {
    '0' <= c <= '9'
  }

  function DigitChar(d: nat): (c: char)
    requires d < 10
    ensures IsDigit(c)
  {
    (48 + d) as char
  }

  /** `n` written in decimal without leading zeros (`%d`, `str(n)`, `QString::number`). */
  function Decimal(n: nat): (r: string)
    ensures |r| >= 1 && (forall i :: 0 <= i < |r| ==> IsDigit(r[i]))
    ensures r[0] == '0' ==> n == 0
  {
    if n < 10 then [DigitChar(n)] else Decimal(n / 10) + [DigitChar(n % 10)]
  }

  /** The value of a string of decimal digits. */
  function DecimalValue(s: string): nat
    requires forall i :: 0 <= i < |s| ==> IsDigit(s[i])
  {
    if s == [] then 0 else 10 * DecimalValue(s[..|s| - 1]) + DigitValue(s[|s| - 1])
  }

  function DigitValue(c: char): (d: nat)
    requires IsDigit(c)
    ensures d < 10
  {
    c as int - 48
  }

  lemma {:induction false} DecimalRoundTrip(n: nat)
    ensures DecimalValue(Decimal(n)) == n
  {
    if n >= 10 {
      DecimalRoundTrip(n / 10);
      assert Decimal(n)[..|Decimal(n)| - 1] == Decimal(n / 10);
    }
  }

  /** The run of digits at the start of `s`. */
  function LeadingDigits(s: string): (r: string)
    ensures IsPrefix(r, s) && (forall i :: 0 <= i < |r| ==> IsDigit(r[i]))
    ensures |r| < |s| ==> !IsDigit(s[|r|])
  {
    if s != [] && IsDigit(s[0]) then [s[0]] + LeadingDigits(s[1..]) else []
  }

  /** A string of digits is its own leading run. */
  lemma {:induction false} AllDigits(s: string)
    requires forall i :: 0 <= i < |s| ==> IsDigit(s[i])
    ensures LeadingDigits(s) == s
  {
    if s != [] {
      AllDigits(s[1..]);
    }
  }

  /** The first `c` at or after `from` (`indexOf(c, from)`, `find_first_of(c, from)`). */
  function IndexFrom(s: string, c: char, from: nat): (r: Option<nat>)
    ensures r.Some? ==> from <= r.value < |s| && s[r.value] == c
    ensures r.Some? ==> forall j :: from <= j < r.value ==> s[j] != c
    ensures r.None? ==> forall j :: from <= j < |s| ==> s[j] != c
    decreases |s| - from
  {
    if from >= |s| then None
    else if s[from] == c then Some(from)
    else IndexFrom(s, c, from + 1)
  }

  /** The index of the last occurrence of `c` in `s`. */
  function LastIndexOf(s: string, c: char): (r: Option<nat>)
    ensures r.Some? ==> r.value < |s| && s[r.value] == c && forall j :: r.value < j < |s| ==> s[j] != c
    ensures r.None? ==> forall j :: 0 <= j < |s| ==> s[j] != c
  {
    if s == [] then None
    else if s[|s| - 1] == c then Some(|s| - 1)
    else LastIndexOf(s[..|s| - 1], c)
  }

  // Small sequence facts the solver needs spelled out inside larger proofs.

  lemma SplitThree<T>(p: seq<T>, x: seq<T>, s: seq<T>)
    ensures (p + x + s)[..|p|] == p && (p + x + s)[|p|..] == x + s
  {
  }

  lemma AppendNil<T>(a: seq<T>)
    ensures a + [] == a
  {
  }

  lemma AppendAssoc<T>(a: seq<T>, b: seq<T>, c: seq<T>)
    ensures a + b + c == a + (b + c)
  {
  }
}

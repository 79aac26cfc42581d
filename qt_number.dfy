/** The part of Qt's number parsing the rule strings rely on:
    `QString::toUInt(&ok, 0)` and `QString::toInt(&ok, 0)`, with base 0
    meaning "0x" hexadecimal, a leading "0" octal, and decimal otherwise.
    Surrounding ASCII white space is skipped, a '+' sign is accepted, a '-'
    sign is refused for unsigned results, and anything left over after the
    digits makes the conversion fail. */
module QtNumber {
  import opened Common

  predicate IsSpace(c: char)
  {
    c == ' ' || '\t' <= c <= '\r'
  }

  /** The value of a digit in any base up to 16; 99 for a non-digit. */
  function HexVal(c: char): (d: nat)
    ensures IsDigit(c) ==> d == DigitValue(c)
    ensures d < 16 <==> IsDigit(c) || 'a' <= c <= 'f' || 'A' <= c <= 'F'
  {
    if '0' <= c <= '9' then c as nat - 48
    else if 'a' <= c <= 'f' then c as nat - 87
    else if 'A' <= c <= 'F' then c as nat - 55
    else 99
  }

  /** Every character of `s` is a digit of `base`. */
  predicate DigitsIn(s: string, base: nat)
  {
    forall i :: 0 <= i < |s| ==> HexVal(s[i]) < base
  }

  /** The value of a digit string in `base`. */
  function ValueIn(s: string, base: nat): nat
  {
    if s == [] then 0 else base * ValueIn(s[..|s| - 1], base) + HexVal(s[|s| - 1])
  }

  /** `s` without its leading white space. */
  function TrimFront(s: string): (r: string)
    ensures IsSuffix(r, s)
    ensures r != [] ==> !IsSpace(r[0])
    ensures s != [] && !IsSpace(s[0]) ==> r == s
  {
    if s != [] && IsSpace(s[0]) then TrimFront(s[1..]) else s
  }

  /** `s` without its trailing white space. */
  function TrimBack(s: string): (r: string)
    ensures IsPrefix(r, s)
    ensures r != [] ==> !IsSpace(r[|r| - 1])
    ensures s != [] && !IsSpace(s[|s| - 1]) ==> r == s
  {
    if s != [] && IsSpace(s[|s| - 1]) then TrimBack(s[..|s| - 1]) else s
  }

  function Trim(s: string): (r: string)
    ensures |r| <= |s|
    ensures r != [] ==> !IsSpace(r[0]) && !IsSpace(r[|r| - 1])
    ensures s != [] && !IsSpace(s[0]) && !IsSpace(s[|s| - 1]) ==> r == s
  {
    TrimBack(TrimFront(s))
  }

  /** The value `strtoull` with base 0 reads from the whole of `t`, a
      string without surrounding white space; None when it reads nothing,
      meets a '-' or leaves characters over. */
  function Unsigned(t: string): (r: Option<nat>)
    ensures r.Some? && |t| >= 2 && t[..2] == "0x" ==> DigitsIn(t[2..], 16) && r.value == ValueIn(t[2..], 16)
    ensures t != [] && t[0] == '-' ==> r.None?
  {
    var u := if t != [] && t[0] == '+' then t[1..] else t;
    if |u| >= 2 && u[0] == '0' && (u[1] == 'x' || u[1] == 'X') then
      if |u| > 2 && DigitsIn(u[2..], 16) then Some(ValueIn(u[2..], 16)) else None
    else if u != [] && u[0] == '0' then
      if DigitsIn(u, 8) then Some(ValueIn(u, 8)) else None
    else if u != [] && DigitsIn(u, 10) then Some(ValueIn(u, 10))
    else None
  }

  /** `QString::toUInt(&ok, 0)`: None is `ok == false`. */
  function ToUInt(s: string): (r: Option<u32>)
    ensures r.Some? <==> Unsigned(Trim(s)).Some? && Unsigned(Trim(s)).value < TWO32
    ensures r.Some? ==> r.value == Unsigned(Trim(s)).value
  {
    var v := Unsigned(Trim(s));
    if v.Some? && v.value < TWO32 then Some(v.value as u32) else None
  }

  /** Base 10 agrees with the decimal reading used elsewhere. */
  lemma {:induction false} ValueInDecimal(s: string)
    requires forall i :: 0 <= i < |s| ==> IsDigit(s[i])
    ensures DigitsIn(s, 10) && ValueIn(s, 10) == DecimalValue(s)
  {
    if s != [] {
      var f := s[..|s| - 1];
      assert forall i :: 0 <= i < |f| ==> IsDigit(f[i]) by {
        forall i | 0 <= i < |f| ensures IsDigit(f[i]) { assert f[i] == s[i]; }
      }
      ValueInDecimal(f);
    }
  }

  /** `strtoull` reads a decimal text back as its value. */
  lemma UnsignedDecimal(n: nat)
    ensures Unsigned(Decimal(n)) == Some(n)
  {
    var d := Decimal(n);
    ValueInDecimal(d);
    DecimalRoundTrip(n);
    if n == 0 {
      assert d == "0";
      assert DigitsIn(d, 8) && ValueIn(d, 8) == 0;
    } else {
      assert d[0] != '0';
    }
  }

  /** A decimal text has no surrounding white space. */
  lemma TrimDecimal(n: nat)
    ensures Trim(Decimal(n)) == Decimal(n)
  {
    var d := Decimal(n);
    assert !IsSpace(d[0]) && !IsSpace(d[|d| - 1]);
  }

  /** A '-' sign makes the unsigned conversion fail. */
  lemma MinusFails(t: string)
    requires t != [] && t[0] == '-' && !IsSpace(t[|t| - 1])
    ensures ToUInt(t) == None
  {
    assert Trim(t) == t;
  }

  /** Round trip: `QString::number(n)` reads back through `toUInt`. */
  lemma DecimalReadsBack(n: nat)
    requires n < TWO32
    ensures ToUInt(Decimal(n)) == Some(n as u32)
  {
    UnsignedDecimal(n);
    TrimDecimal(n);
  }

  /** A lower-case hexadecimal digit. */
  function HexDigit(d: nat): (c: char)
    requires d < 16
    ensures HexVal(c) == d && !IsSpace(c)
  {
    if d < 10 then (48 + d) as char else (87 + d) as char
  }

  /** `QString::arg(b, 2, 16, '0')`: two lower-case hexadecimal digits. */
  function Hex2(b: byte): (r: string)
    ensures |r| == 2 && DigitsIn(r, 16) && ValueIn(r, 16) == b as nat
  {
    var r := [HexDigit(b as nat / 16), HexDigit(b as nat % 16)];
    assert r[..1][..0] == [] && r[..|r| - 1] == r[..1];
    assert ValueIn(r[..1], 16) == b as nat / 16;
    r
  }

  /** `QString::arg(int)`: the decimal text of a possibly negative value. */
  function IntText(v: int): string
  {
    if v < 0 then "-" + Decimal(-v) else Decimal(v)
  }

  /** The text of a value reads back through `toUInt` exactly when it is
      an unsigned 32-bit value; a negative one does not convert. */
  lemma IntTextReadsBack(v: int)
    ensures ToUInt(IntText(v)) == if 0 <= v < TWO32 then Some(v as u32) else None
  {
    if v < 0 {
      var t := IntText(v);
      assert t[|t| - 1] == Decimal(-v)[|Decimal(-v)| - 1];
      MinusFails(t);
    } else {
      UnsignedDecimal(v);
      TrimDecimal(v);
    }
  }
}

/** The kernel module's `vfs_unnamed_devices` sysfs attribute: one flag per
    minor number of the unnamed (major 0) devices, set and cleared by
    one-letter commands and listed in decimal. */
module VfsSysfs {
  import opened Common
  import StringHelper

  /** `MAX_MINOR + 1` flags, one per minor 0..255. */
  const MINORS: nat := 256
  const EINVAL: int := 22

  /** The blanks the kernel's `skip_spaces` passes over (its `isspace`,
      which also counts the Latin-1 no-break space). */
  predicate IsSpace(c: char)
  {
    c == ' ' || c == '\t' || c == '\n' || c == '\r' || c == '\U{000B}' || c == '\U{000C}' || c == '\U{00A0}'
  }

  /** The blanks at the start of `s`, skipped. */
  function SkipSpaces(s: string): (r: string)
    ensures |r| <= |s| && IsSuffix(r, s)
    ensures r != [] ==> !IsSpace(r[0])
  {
    if s != [] && IsSpace(s[0]) then SkipSpaces(s[1..]) else s
  }

  /** `sscanf(buf, "%c%hhu", &act, &minor) == 2`: any first character, then
      optional blanks and at least one digit; the number is truncated to an
      unsigned char. */
  function ParseCommand(buf: string): (r: Option<(char, nat)>)
    ensures r.Some? ==> r.value.1 < MINORS
  {
    if buf == [] then None
    else
      var digits := LeadingDigits(SkipSpaces(buf[1..]));
      if digits == [] then None else Some((buf[0], DecimalValue(digits) % 256))
  }

  /** The flags and return value after `vfs_unnamed_devices_store(buf)`. */
  function Apply(flags: seq<bool>, buf: string): (r: (seq<bool>, int))
    requires |flags| == MINORS
    ensures |r.0| == MINORS
  {
    match ParseCommand(buf)
    case None => (flags, -EINVAL)
    case Some((act, minor)) =>
      if act == 'e' then (seq(MINORS, _ => false), |buf|)
      else if act == 'a' then (flags[minor := true], |buf|)
      else if act == 'r' then (flags[minor := false], |buf|)
      else (flags, -EINVAL)
  }

  /** The minors whose flag is set, in increasing order. */
  function Members(flags: seq<bool>): (r: seq<nat>)
    ensures Increasing(r)
    ensures forall k :: 0 <= k < |r| ==> r[k] < |flags| && flags[r[k]]
    ensures forall i :: 0 <= i < |flags| && flags[i] ==> i in r
  {
    if flags == [] then []
    else
      var front := Members(flags[..|flags| - 1]);
      assert forall i :: 0 <= i < |flags| - 1 ==> flags[..|flags| - 1][i] == flags[i];
      if flags[|flags| - 1] then front + [|flags| - 1] else front
  }

  /** Each minor written in decimal. */
  function Decimals(ms: seq<nat>): (r: seq<string>)
    ensures |r| == |ms| && forall k :: 0 <= k < |ms| ==> r[k] == Decimal(ms[k])
  {
    seq(|ms|, k requires 0 <= k < |ms| => Decimal(ms[k]))
  }

  /** What `vfs_unnamed_devices_show` prints: the set minors in decimal,
      separated by commas, then a newline. */
  function ShowSpec(flags: seq<bool>): string
  {
    StringHelper.Join(Decimals(Members(flags)), ",") + "\n"
  }

  /** Appending one more token to a join. */
  lemma {:induction false} JoinSnoc(ts: seq<string>, t: string, d: string)
    ensures StringHelper.Join(ts + [t], d) == if ts == [] then t else StringHelper.Join(ts, d) + d + t
    decreases |ts|
  {
    if |ts| >= 2 {
      assert (ts + [t])[1..] == ts[1..] + [t];
      JoinSnoc(ts[1..], t, d);
    } else if |ts| == 1 {
      assert (ts + [t])[1..] == [t];
    }
  }

  /** The attribute: a fixed array of 256 flags. */
  class UnnamedDevices {
    const flags: array<bool>

    ghost predicate Valid()
      reads this
    {
      flags.Length == MINORS
    }

    constructor ()
      ensures Valid() && fresh(flags) && flags[..] == seq(MINORS, _ => false)
    {
      flags := new bool[MINORS](_ => false);
    }

    /** `vfs_unnamed_devices_store`. */
    method Store(buf: string) returns (ret: int)
      requires Valid()
      modifies flags
      ensures flags[..] == Apply(old(flags[..]), buf).0
      ensures ret == Apply(old(flags[..]), buf).1
    {
      var parsed := ParseCommand(buf);
      if parsed.None? {
        return -EINVAL;
      }
      var act := parsed.value.0;
      var minor := parsed.value.1;
      if act == 'e' {
        forall i | 0 <= i < flags.Length {
          flags[i] := false;
        }
      } else if act == 'a' {
        flags[minor] := true;
      } else if act == 'r' {
        flags[minor] := false;
      } else {
        return -EINVAL;
      }
      ret := |buf|;
    }

    /** `vfs_unnamed_devices_show`: the output and its length. */
    method Show() returns (out: string, len: nat)
      requires Valid()
      ensures out == ShowSpec(flags[..]) && len == |out|
    {
      var line: string := [];
      var first := true;
      for i := 0 to MINORS
        invariant first <==> Members(flags[..i]) == []
        invariant line == StringHelper.Join(Decimals(Members(flags[..i])), ",")
      {
        assert flags[..i + 1][..i] == flags[..i];
        if flags[i] {
          JoinSnoc(Decimals(Members(flags[..i])), Decimal(i), ",");
          assert Decimals(Members(flags[..i + 1])) == Decimals(Members(flags[..i])) + [Decimal(i)];
          if first {
            first := false;
            line := Decimal(i);
          } else {
            line := line + "," + Decimal(i);
          }
        }
      }
      assert flags[..MINORS] == flags[..];
      out := line + "\n";
      len := |out|;
    }
  }

  /** "aN" sets flag N and nothing else; "rN" clears it and nothing else. */
  lemma AddRemove(flags: seq<bool>, m: nat)
    requires |flags| == MINORS && m < MINORS
    ensures Apply(flags, "a" + Decimal(m)) == (flags[m := true], 1 + |Decimal(m)|)
    ensures Apply(flags, "r" + Decimal(m)) == (flags[m := false], 1 + |Decimal(m)|)
  {
    CommandOfDecimal('a', m);
    CommandOfDecimal('r', m);
  }

  /** Parsing a letter followed by a minor written in decimal gives both back. */
  lemma CommandOfDecimal(act: char, m: nat)
    requires m < MINORS
    ensures ParseCommand([act] + Decimal(m)) == Some((act, m))
  {
    var buf := [act] + Decimal(m);
    assert buf[1..] == Decimal(m);
    DigitsAll(Decimal(m));
    var digits := LeadingDigits(SkipSpaces(buf[1..]));
    assert digits == Decimal(m);
    DecimalRoundTrip(m);
    assert DecimalValue(digits) % 256 == m;
  }

  lemma DigitsAll(s: string)
    requires forall i :: 0 <= i < |s| ==> IsDigit(s[i])
    ensures SkipSpaces(s) == s && LeadingDigits(s) == s
  {
    if s != [] {
      assert !IsSpace(s[0]);
      AllDigits(s);
    }
  }

  /** "eN" clears every flag, but a number must follow the letter. */
  lemma EraseNeedsNumber(flags: seq<bool>, m: nat)
    requires |flags| == MINORS && m < MINORS
    ensures Apply(flags, "e" + Decimal(m)).0 == seq(MINORS, _ => false)
    ensures Apply(flags, "e") == (flags, -EINVAL)
  {
    CommandOfDecimal('e', m);
  }

  /** Any unparsable input or other letter fails with -EINVAL and changes nothing. */
  lemma Invalid(flags: seq<bool>, buf: string)
    requires |flags| == MINORS
    requires ParseCommand(buf).None? || ParseCommand(buf).value.0 !in {'e', 'a', 'r'}
    ensures Apply(flags, buf) == (flags, -EINVAL)
  {
  }

  /** The empty set prints a bare newline, and only the empty set does. */
  lemma ShowEmpty(flags: seq<bool>)
    ensures ShowSpec(flags) == "\n" <==> forall i :: 0 <= i < |flags| ==> !flags[i]
  {
    if Members(flags) != [] {
      var ts := Decimals(Members(flags));
      JoinNonEmpty(ts, ",");
    }
  }

  lemma {:induction false} JoinNonEmpty(ts: seq<string>, d: string)
    requires |ts| >= 1 && |ts[0]| >= 1
    ensures |StringHelper.Join(ts, d)| >= 1
  {
    if |ts| >= 2 {
      assert StringHelper.Join(ts, d) == ts[0] + d + StringHelper.Join(ts[1..], d);
    }
  }

  /** Round-trip: dropping the newline of a non-empty listing and splitting
      it at the commas gives the set minors in decimal, each of which reads
      back as its minor. */
  lemma ShowRoundTrip(flags: seq<bool>)
    requires Members(flags) != []
    ensures var line := ShowSpec(flags);
      StringHelper.SplitSpec(line[..|line| - 1], ",") == Decimals(Members(flags))
    ensures forall k :: 0 <= k < |Members(flags)| ==> DecimalValue(Decimals(Members(flags))[k]) == Members(flags)[k]
  {
    var ts := Decimals(Members(flags));
    var line := ShowSpec(flags);
    assert line[..|line| - 1] == StringHelper.Join(ts, ",");
    forall k | 0 <= k < |ts| ensures ',' !in ts[k] {
      assert forall i :: 0 <= i < |ts[k]| ==> IsDigit(ts[k][i]);
    }
    StringHelper.SplitJoinChar(ts, ',');
    forall k | 0 <= k < |Members(flags)| ensures DecimalValue(ts[k]) == Members(flags)[k] {
      DecimalRoundTrip(Members(flags)[k]);
    }
  }
}

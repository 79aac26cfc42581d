/** The search front end of the LFT manager (src/server/backend/lib/lftmanager.cpp):
    the "0xNN<value>" rule strings a client passes to a search, their
    defaults and their conversion into the library's rule list; the
    translation of a path into the index buffer that covers it; the list of
    indexed mount points below a directory; the CPU guard run on a timer;
    and the dispatch of the adaptor's queued file changes. */
module LftManager {
  import opened Common
  import opened QtNumber
  import LftLayout
  import LftRules
  import MountTable
  import EventAdaptor

  // ---------------------------------------------------------------------
  // Search rules
  // ---------------------------------------------------------------------

  /** A rule the three rule readers look at: four characters or more,
      starting with "0x". */
  predicate WellFormed(rule: string)
  {
    |rule| >= 4 && rule[..2] == "0x"
  }

  /** `rule.left(4).toInt(&ok, 0)` on a well-formed rule, "0x" and two
      more characters: two hexadecimal digits, or one followed by white
      space; None when `ok` is false. */
  function Prefix(rule: string): Option<nat>
    requires WellFormed(rule)
  {
    var c2, c3 := rule[2], rule[3];
    if HexVal(c2) < 16 && HexVal(c3) < 16 then Some(16 * HexVal(c2) + HexVal(c3))
    else if HexVal(c2) < 16 && IsSpace(c3) then Some(HexVal(c2))
    else None
  }

  /** The two-digit reading is Qt's conversion of the four characters. */
  lemma PrefixIsToInt(rule: string)
    requires WellFormed(rule)
    ensures Prefix(rule) == Unsigned(Trim(rule[..4]))
  {
    var p := rule[..4];
    assert p[0] == '0' && p[1] == 'x' && p[2] == rule[2] && p[3] == rule[3];
    assert TrimFront(p) == p;
    var t := Trim(p);
    if !IsSpace(p[3]) {
      assert t == p;
      var d := t[2..];
      assert d == [p[2], p[3]] && d[..1] == [p[2]] && d[..1][..0] == [];
      assert DigitsIn(d, 16) <==> HexVal(p[2]) < 16 && HexVal(p[3]) < 16;
      assert ValueIn(d[..1], 16) == HexVal(p[2]);
      assert d[..|d| - 1] == d[..1] && d[|d| - 1] == p[3];
      assert ValueIn(d, 16) == 16 * HexVal(p[2]) + HexVal(p[3]);
    } else if !IsSpace(p[2]) {
      assert TrimBack(p) == TrimBack(p[..3]) && TrimBack(p[..3]) == p[..3];
      assert t == p[..3];
      var d := t[2..];
      assert d == [p[2]] && d[..0] == [];
      assert DigitsIn(d, 16) <==> HexVal(p[2]) < 16;
      assert ValueIn(d, 16) == HexVal(p[2]);
      assert HexVal(p[3]) == 99;
    } else {
      assert TrimBack(p) == TrimBack(p[..3]) && TrimBack(p[..3]) == TrimBack(p[..2]) && p[..2] == "0x";
      assert t == "0x";
    }
  }

  /** The flag of one rule as the loops of `_getRuleArgs` and
      `_getRuleStrings` read it: a rule that does not start with "0x" has
      none, otherwise its prefix is converted by `toInt`. */
  method RuleFlag(rule: string) returns (flag: Option<nat>)
    ensures flag.Some? <==> WellFormed(rule) && Prefix(rule).Some?
    ensures flag.Some? ==> flag.value == Prefix(rule).value
  {
    flag := None;
    if |rule| >= 4 && rule[..2] == "0x" {
      flag := Unsigned(Trim(rule[..4]));
      PrefixIsToInt(rule);
    }
  }

  /** The rule's four-character prefix converts, and to `flag`. */
  predicate FlagIs(rule: string, flag: int)
  {
    WellFormed(rule) && Prefix(rule).Some? && Prefix(rule).value == flag
  }

  /** `rule.mid(4).toUInt(&ok, 0)`, which is 0 when `ok` is false. */
  function ArgValue(rule: string): u32
    requires WellFormed(rule)
  {
    match ToUInt(rule[4..])
    case Some(v) => v
    case None => 0
  }

  /** What `_getRuleArgs` reports: nothing for a string-valued flag
      (0x40 and above), otherwise the value of the first rule with that
      flag. */
  function RuleArgs(rules: seq<string>, flag: int): (r: Option<u32>)
    ensures flag >= LftRules.RULE_EXCLUDE_SUB_S as int ==> r.None?
    decreases |rules|
  {
    if flag >= LftRules.RULE_EXCLUDE_SUB_S as int || rules == [] then None
    else if FlagIs(rules[0], flag) then Some(ArgValue(rules[0]))
    else RuleArgs(rules[1..], flag)
  }

  /** `_getRuleArgs` finds a value exactly when some rule has the numeric
      flag, and the value is that of the first such rule. */
  lemma {:induction false} RuleArgsMeans(rules: seq<string>, flag: int)
    ensures RuleArgs(rules, flag).Some? <==> flag < LftRules.RULE_EXCLUDE_SUB_S as int && exists i :: 0 <= i < |rules| && FlagIs(rules[i], flag)
    ensures RuleArgs(rules, flag).Some? ==>
      exists i :: 0 <= i < |rules| && FlagIs(rules[i], flag) && RuleArgs(rules, flag).value == ArgValue(rules[i]) &&
        forall j :: 0 <= j < i ==> !FlagIs(rules[j], flag)
    decreases |rules|
  {
    if flag < LftRules.RULE_EXCLUDE_SUB_S as int && rules != [] && !FlagIs(rules[0], flag) {
      var t := rules[1..];
      RuleArgsMeans(t, flag);
      assert forall i :: 1 <= i < |rules| ==> t[i - 1] == rules[i];
      if RuleArgs(t, flag).Some? {
        var i :| 0 <= i < |t| && FlagIs(t[i], flag) && RuleArgs(t, flag).value == ArgValue(t[i]) &&
          forall j :: 0 <= j < i ==> !FlagIs(t[j], flag);
        assert forall j :: 0 <= j < i + 1 ==> !FlagIs(rules[j], flag) by {
          forall j | 0 <= j < i + 1 ensures !FlagIs(rules[j], flag) {
            if j > 0 { assert rules[j] == t[j - 1]; }
          }
        }
      }
    }
  }

  /** Some rule of the list has the flag. */
  predicate HasFlag(rules: seq<string>, flag: int)
    decreases |rules|
  {
    rules != [] && (FlagIs(rules[0], flag) || HasFlag(rules[1..], flag))
  }

  /** `_getRuleArgs` succeeds on a numeric flag exactly when some rule has
      it. */
  lemma {:induction false} HasFlagArgs(rules: seq<string>, flag: int)
    requires flag < LftRules.RULE_EXCLUDE_SUB_S as int
    ensures RuleArgs(rules, flag).Some? <==> HasFlag(rules, flag)
    decreases |rules|
  {
    if rules != [] && !FlagIs(rules[0], flag) {
      HasFlagArgs(rules[1..], flag);
    }
  }

  /** `_getRuleArgs`: `valueReturn` is written only when a rule is found. */
  method GetRuleArgs(rules: seq<string>, searchFlag: int, valueIn: u32) returns (ok: bool, value: u32)
    ensures ok <==> RuleArgs(rules, searchFlag).Some?
    ensures value == if ok then RuleArgs(rules, searchFlag).value else valueIn
  {
    if searchFlag >= LftRules.RULE_EXCLUDE_SUB_S as int {
      return false, valueIn;
    }
    var i := 0;
    while i < |rules|
      invariant 0 <= i <= |rules|
      invariant RuleArgs(rules[i..], searchFlag) == RuleArgs(rules, searchFlag)
    {
      var rule := rules[i];
      assert rules[i..][0] == rule && rules[i..][1..] == rules[i + 1..];
      var flag := RuleFlag(rule);
      if flag.Some? && flag.value == searchFlag {
        var v := ToUInt(rule[4..]);
        value := if v.Some? then v.value else 0;
        return true, value;
      }
      i := i + 1;
    }
    return false, valueIn;
  }

  /** The texts after the prefix of the rules with flag `flag`, in order. */
  function RuleStrings(rules: seq<string>, flag: int): (r: seq<string>)
    ensures |r| <= |rules|
  {
    if rules == [] then []
    else
      var last := rules[|rules| - 1];
      var front := RuleStrings(rules[..|rules| - 1], flag);
      if FlagIs(last, flag) then front + [last[4..]] else front
  }

  /** Exactly the texts of the matching rules are collected. */
  lemma {:induction false} RuleStringsMeans(rules: seq<string>, flag: int, x: string)
    ensures x in RuleStrings(rules, flag) <==>
      exists i :: 0 <= i < |rules| && FlagIs(rules[i], flag) && rules[i][4..] == x
  {
    if rules != [] {
      var n := |rules| - 1;
      var front := rules[..n];
      RuleStringsMeans(front, flag, x);
      assert forall i :: 0 <= i < n ==> front[i] == rules[i];
      if exists i :: 0 <= i < |rules| && FlagIs(rules[i], flag) && rules[i][4..] == x {
        var i :| 0 <= i < |rules| && FlagIs(rules[i], flag) && rules[i][4..] == x;
        if i < n {
          assert FlagIs(front[i], flag) && front[i][4..] == x;
        }
      }
    }
  }

  /** Nothing is collected exactly when no rule has the flag. */
  lemma {:induction false} RuleStringsEmpty(rules: seq<string>, flag: int)
    ensures RuleStrings(rules, flag) == [] <==> forall i :: 0 <= i < |rules| ==> !FlagIs(rules[i], flag)
  {
    if rules != [] {
      var n := |rules| - 1;
      var front := rules[..n];
      RuleStringsEmpty(front, flag);
      assert forall i :: 0 <= i < n ==> front[i] == rules[i];
    }
  }

  /** Collecting over two lists one after the other. */
  lemma {:induction false} RuleStringsAppend(a: seq<string>, b: seq<string>, flag: int)
    ensures RuleStrings(a + b, flag) == RuleStrings(a, flag) + RuleStrings(b, flag)
    decreases |b|
  {
    if b == [] {
      assert a + b == a;
    } else {
      var n := |b| - 1;
      assert (a + b)[..|a + b| - 1] == a + b[..n];
      assert (a + b)[|a + b| - 1] == b[n];
      RuleStringsAppend(a, b[..n], flag);
    }
  }

  /** `_getRuleStrings`: only for string-valued flags; the texts are
      appended to `valuesIn`, and the result says whether any matched. */
  method GetRuleStrings(rules: seq<string>, searchFlag: int, valuesIn: seq<string>)
    returns (ok: bool, values: seq<string>)
    ensures ok <==> searchFlag >= LftRules.RULE_EXCLUDE_SUB_S as int && RuleStrings(rules, searchFlag) != []
    ensures values == if searchFlag >= LftRules.RULE_EXCLUDE_SUB_S as int then valuesIn + RuleStrings(rules, searchFlag) else valuesIn
  {
    if searchFlag < LftRules.RULE_EXCLUDE_SUB_S as int {
      return false, valuesIn;
    }
    ok, values := false, valuesIn;
    var i := 0;
    while i < |rules|
      invariant 0 <= i <= |rules|
      invariant values == valuesIn + RuleStrings(rules[..i], searchFlag)
      invariant ok <==> RuleStrings(rules[..i], searchFlag) != []
    {
      var rule := rules[i];
      assert rules[..i + 1][..i] == rules[..i] && rules[..i + 1][i] == rule;
      var flag := RuleFlag(rule);
      if flag.Some? && flag.value == searchFlag {
        values := values + [rule[4..]];
        ok := true;
      }
      i := i + 1;
    }
    assert rules[..i] == rules;
  }

  /** `(uint8_t)` of the prefix's `toInt`, which is 0 when it fails. */
  function FlagByte(rule: string): byte
    requires WellFormed(rule)
  {
    match Prefix(rule)
    case Some(v) => (v % 256) as byte
    case None => 0
  }

  /** A QString character through `toLatin1`: '?' outside Latin-1. */
  function Latin1(c: char): byte
  {
    if c as int < 256 then c as int as byte else 63
  }

  /** `strcpy` of the Latin-1 text: everything before the first NUL. */
  function Target(s: string): (r: LftLayout.Bytes)
    ensures |r| <= |s| && (|r| < |s| ==> s[|r|] == '\0')
    ensures forall i :: 0 <= i < |r| ==> s[i] != '\0' && r[i] == Latin1(s[i]) && r[i] != 0
  {
    if s == [] || s[0] == '\0' then [] else [Latin1(s[0])] + Target(s[1..])
  }

  /** The `search_rule` node built from a well-formed rule. */
  function RuleOf(rule: string): LftRules.Rule
    requires WellFormed(rule)
  {
    LftRules.Rule(FlagByte(rule), Target(rule[4..]))
  }

  /** The list `_parseRules` builds: one node per well-formed rule, in
      order. */
  function Parsed(rules: seq<string>): (r: seq<LftRules.Rule>)
    ensures |r| <= |rules|
  {
    if rules == [] then []
    else
      var last := rules[|rules| - 1];
      var front := Parsed(rules[..|rules| - 1]);
      if WellFormed(last) then front + [RuleOf(last)] else front
  }

  lemma {:induction false} ParsedAppend(a: seq<string>, b: seq<string>)
    ensures Parsed(a + b) == Parsed(a) + Parsed(b)
    decreases |b|
  {
    if b == [] {
      assert a + b == a;
    } else {
      var n := |b| - 1;
      assert (a + b)[..|a + b| - 1] == a + b[..n];
      assert (a + b)[|a + b| - 1] == b[n];
      ParsedAppend(a, b[..n]);
    }
  }

  lemma {:induction false} ParsedNone(rules: seq<string>)
    requires forall i :: 0 <= i < |rules| ==> !WellFormed(rules[i])
    ensures Parsed(rules) == []
  {
    if rules != [] {
      var n := |rules| - 1;
      assert forall i :: 0 <= i < n ==> rules[..n][i] == rules[i];
      ParsedNone(rules[..n]);
    }
  }

  /** Malformed rules are skipped, and the head of the list is the node of
      the first well-formed rule. */
  lemma ParsedFirst(b: seq<string>)
    requires b != [] && WellFormed(b[0])
    ensures Parsed(b) != [] && Parsed(b)[0] == RuleOf(b[0])
  {
    assert b == [b[0]] + b[1..];
    ParsedAppend([b[0]], b[1..]);
    assert [b[0]][..0] == [];
  }

  lemma ParsedHead(rules: seq<string>, i: nat)
    requires i < |rules| && WellFormed(rules[i])
    requires forall j :: 0 <= j < i ==> !WellFormed(rules[j])
    ensures Parsed(rules) != [] && Parsed(rules)[0] == RuleOf(rules[i])
  {
    var a, b := rules[..i], rules[i..];
    assert rules == a + b;
    forall j | 0 <= j < |a| ensures !WellFormed(a[j]) {
      assert a[j] == rules[j];
    }
    ParsedNone(a);
    ParsedAppend(a, b);
    assert Parsed(rules) == [] + Parsed(b) == Parsed(b);
    assert b[0] == rules[i];
    ParsedFirst(b);
  }

  /** The list left when the `malloc` of node number `failAt` (counting
      from 0) returns NULL: `_parseRules` stops there and keeps the nodes
      built before it. */
  function Allocated(list: seq<LftRules.Rule>, failAt: Option<nat>): (r: seq<LftRules.Rule>)
    ensures |r| <= |list| && r == list[..|r|]
    ensures failAt.None? ==> r == list
    ensures failAt.Some? && failAt.value < |list| ==> |r| == failAt.value
    ensures failAt.Some? && failAt.value >= |list| ==> r == list
  {
    if failAt.Some? && failAt.value < |list| then list[..failAt.value] else list
  }

  /** A node allocated for the well-formed rule at `i` extends the prefix
      of the list built from the rules before it. */
  lemma ParsedPrefix(rules: seq<string>, i: nat)
    requires i < |rules| && WellFormed(rules[i])
    ensures |Parsed(rules[..i])| < |Parsed(rules)| && Parsed(rules)[..|Parsed(rules[..i])|] == Parsed(rules[..i])
  {
    var a, b := rules[..i], rules[i..];
    assert rules == a + b;
    ParsedAppend(a, b);
    ParsedFirst(b);
  }

  /** One more rule adds its node when it is well formed. */
  lemma ParsedSnoc(rules: seq<string>, i: nat)
    requires i < |rules|
    ensures Parsed(rules[..i + 1]) == if WellFormed(rules[i]) then Parsed(rules[..i]) + [RuleOf(rules[i])] else Parsed(rules[..i])
  {
    assert rules[..i + 1][..i] == rules[..i] && rules[..i + 1][i] == rules[i];
  }

  /** The node `_parseRules` fills for a well-formed rule: the flag is the
      prefix's `toInt` cut to a byte, 0 when it fails, and the target is
      the `strcpy` of the rest. */
  method RuleNode(rule: string) returns (node: LftRules.Rule)
    requires WellFormed(rule)
    ensures node == RuleOf(rule)
  {
    var flag := Unsigned(Trim(rule[..4]));
    PrefixIsToInt(rule);
    var b: byte := if flag.Some? then (flag.value % 256) as byte else 0;
    node := LftRules.Rule(b, Target(rule[4..]));
  }

  /** `_parseRules`: the list, cut before the first node whose `malloc`
      fails (`failAt`), and whether it is non-empty with a head flag other
      than `RULE_NONE`. */
  method ParseRules(rules: seq<string>, failAt: Option<nat>) returns (list: seq<LftRules.Rule>, ok: bool)
    ensures list == Allocated(Parsed(rules), failAt)
    ensures ok <==> list != [] && list[0].flag != LftRules.RULE_NONE
  {
    list := [];
    var i := 0;
    while i < |rules|
      invariant 0 <= i <= |rules|
      invariant list == Parsed(rules[..i])
      invariant failAt.None? || |list| <= failAt.value
    {
      var rule := rules[i];
      ParsedSnoc(rules, i);
      if |rule| >= 4 && rule[..2] == "0x" {
        var node := RuleNode(rule);
        if failAt == Some(|list|) {
          ParsedPrefix(rules, i);
          break;
        }
        list := list + [node];
      }
      i := i + 1;
    }
    if i == |rules| {
      assert rules[..i] == rules;
    }
    ok := list != [] && list[0].flag != LftRules.RULE_NONE;
  }

  /** `QString("0x%1%2").arg(flag, 2, 16, '0').arg(v)`. */
  function DefaultRule(flag: byte, v: int): string
  {
    "0x" + Hex2(flag) + IntText(v)
  }

  /** The value `_setRulesByDefault` writes for a search flag: -1 for the
      maximum count, the offsets for the offset flags, 0 otherwise. */
  function DefaultArg(flag: byte, startOffset: u32, endOffset: u32): int
  {
    if flag == LftRules.RULE_SEARCH_MAX_COUNT then -1
    else if flag == LftRules.RULE_SEARCH_STARTOFF then startOffset
    else if flag == LftRules.RULE_SEARCH_ENDOFF then endOffset
    else 0
  }

  /** The defaults for the flags from `flag` to `RULE_SEARCH_ENDOFF` that
      `rules` does not set, in flag order. */
  function DefaultsFrom(rules: seq<string>, flag: byte, startOffset: u32, endOffset: u32): (r: seq<string>)
    requires flag >= LftRules.RULE_SEARCH_REGX
    ensures |r| <= if flag > LftRules.RULE_SEARCH_ENDOFF then 0 else 6 - flag as int
    decreases 6 - flag as int
  {
    if flag > LftRules.RULE_SEARCH_ENDOFF then []
    else OwnDefault(rules, flag, startOffset, endOffset) + DefaultsFrom(rules, flag + 1, startOffset, endOffset)
  }

  /** The default for `flag` when `rules` does not set it. */
  function OwnDefault(rules: seq<string>, flag: byte, startOffset: u32, endOffset: u32): (r: seq<string>)
    ensures |r| <= 1
  {
    if !HasFlag(rules, flag as int) then [DefaultRule(flag, DefaultArg(flag, startOffset, endOffset))] else []
  }

  /** `_setRulesByDefault`: the missing defaults, then the rules as given. */
  function SetRulesByDefault(rules: seq<string>, startOffset: u32, endOffset: u32): (r: seq<string>)
    ensures IsSuffix(rules, r) && |r| <= |rules| + 5
  {
    DefaultsFrom(rules, LftRules.RULE_SEARCH_REGX, startOffset, endOffset) + rules
  }

  /** A written default is well formed and its prefix reads back as its
      flag. */
  lemma DefaultRuleParts(flag: byte, v: int)
    ensures WellFormed(DefaultRule(flag, v)) && FlagIs(DefaultRule(flag, v), flag as int)
    ensures DefaultRule(flag, v)[4..] == IntText(v)
  {
    var r := DefaultRule(flag, v);
    var h := Hex2(flag);
    assert r[..2] == "0x" && r[2] == h[0] && r[3] == h[1];
    assert h[..1][..0] == [] && h[..|h| - 1] == h[..1];
  }

  /** A rule list of one rule. */
  lemma SingleRule(rule: string, flag: int)
    ensures RuleArgs([rule], flag) == if flag < LftRules.RULE_EXCLUDE_SUB_S as int && FlagIs(rule, flag) then Some(ArgValue(rule)) else None
  {
    if RuleArgs([rule], flag).Some? {
      assert [rule][0] == rule;
    }
  }

  /** Round trip: a default written for a search flag reads back through
      `_getRuleArgs` as the value written, when that value is an unsigned
      32-bit value, and as 0 when it is negative. */
  lemma DefaultReadsBack(flag: byte, v: int)
    requires flag < LftRules.RULE_EXCLUDE_SUB_S && v < TWO32
    ensures RuleArgs([DefaultRule(flag, v)], flag as int) == Some(if v < 0 then 0 else v as u32)
  {
    DefaultRuleParts(flag, v);
    IntTextReadsBack(v);
    SingleRule(DefaultRule(flag, v), flag as int);
  }

  /** The first match of a concatenation. */
  lemma {:induction false} RuleArgsAppend(a: seq<string>, b: seq<string>, flag: int)
    ensures RuleArgs(a + b, flag) == if RuleArgs(a, flag).Some? then RuleArgs(a, flag) else RuleArgs(b, flag)
    decreases |a|
  {
    if a == [] {
      assert a + b == b;
    } else if flag < LftRules.RULE_EXCLUDE_SUB_S as int {
      assert (a + b)[0] == a[0] && (a + b)[1..] == a[1..] + b;
      RuleArgsAppend(a[1..], b, flag);
    }
  }

  /** The value a default for `flag` reads back as. */
  function DefaultValue(flag: byte, startOffset: u32, endOffset: u32): u32
  {
    if flag == LftRules.RULE_SEARCH_STARTOFF then startOffset
    else if flag == LftRules.RULE_SEARCH_ENDOFF then endOffset
    else 0
  }

  /** The one default written for `from` answers `_getRuleArgs` for
      `from` only. */
  lemma OwnDefaultArgs(rules: seq<string>, from: byte, flag: byte, startOffset: u32, endOffset: u32)
    requires LftRules.RULE_SEARCH_REGX <= from <= LftRules.RULE_SEARCH_ENDOFF
    ensures RuleArgs(OwnDefault(rules, from, startOffset, endOffset), flag as int) ==
      if flag == from && !HasFlag(rules, from as int) then Some(DefaultValue(flag, startOffset, endOffset)) else None
  {
    if !HasFlag(rules, from as int) {
      var v := DefaultArg(from, startOffset, endOffset);
      var d := DefaultRule(from, v);
      DefaultRuleParts(from, v);
      SingleRule(d, flag as int);
      if flag == from {
        DefaultReadsBack(from, v);
      }
    }
  }

  lemma {:induction false} DefaultsFromArgs(rules: seq<string>, from: byte, flag: byte, startOffset: u32, endOffset: u32)
    requires LftRules.RULE_SEARCH_REGX <= from && LftRules.RULE_SEARCH_REGX <= flag <= LftRules.RULE_SEARCH_ENDOFF
    ensures RuleArgs(DefaultsFrom(rules, from, startOffset, endOffset), flag as int) ==
      if flag < from || HasFlag(rules, flag as int) then None else Some(DefaultValue(flag, startOffset, endOffset))
    decreases 6 - from as int
  {
    if from <= LftRules.RULE_SEARCH_ENDOFF {
      var own := OwnDefault(rules, from, startOffset, endOffset);
      var rest := DefaultsFrom(rules, from + 1, startOffset, endOffset);
      RuleArgsAppend(own, rest, flag as int);
      DefaultsFromArgs(rules, from + 1, flag, startOffset, endOffset);
      OwnDefaultArgs(rules, from, flag, startOffset, endOffset);
    }
  }

  /** After `_setRulesByDefault` every search flag from 0x01 to 0x05 has a
      value: the caller's when the caller set it, the default otherwise
      (the maximum count's default "-1" does not convert and reads as 0). */
  lemma DefaultsFill(rules: seq<string>, flag: byte, startOffset: u32, endOffset: u32)
    requires LftRules.RULE_SEARCH_REGX <= flag <= LftRules.RULE_SEARCH_ENDOFF
    ensures RuleArgs(SetRulesByDefault(rules, startOffset, endOffset), flag as int) ==
      if RuleArgs(rules, flag as int).Some? then RuleArgs(rules, flag as int) else Some(DefaultValue(flag, startOffset, endOffset))
  {
    var d := DefaultsFrom(rules, LftRules.RULE_SEARCH_REGX, startOffset, endOffset);
    RuleArgsAppend(d, rules, flag as int);
    DefaultsFromArgs(rules, LftRules.RULE_SEARCH_REGX, flag, startOffset, endOffset);
    HasFlagArgs(rules, flag as int);
  }

  /** Each default is the one written for a search flag from `from` on. */
  lemma {:induction false} DefaultsFromFlags(rules: seq<string>, from: byte, startOffset: u32, endOffset: u32, k: nat)
    requires from >= LftRules.RULE_SEARCH_REGX && k < |DefaultsFrom(rules, from, startOffset, endOffset)|
    ensures exists g: byte ::
              from <= g <= LftRules.RULE_SEARCH_ENDOFF &&
              DefaultsFrom(rules, from, startOffset, endOffset)[k] == DefaultRule(g, DefaultArg(g, startOffset, endOffset))
    decreases 6 - from as int
  {
    var all := DefaultsFrom(rules, from, startOffset, endOffset);
    assert from <= LftRules.RULE_SEARCH_ENDOFF;
    var own := OwnDefault(rules, from, startOffset, endOffset);
    var rest := DefaultsFrom(rules, from + 1, startOffset, endOffset);
    assert all == own + rest;
    if k < |own| {
      assert all[k] == DefaultRule(from, DefaultArg(from, startOffset, endOffset));
    } else {
      DefaultsFromFlags(rules, from + 1, startOffset, endOffset, k - |own|);
      assert all[k] == rest[k - |own|];
    }
  }

  /** A default's flag is a search flag. */
  lemma DefaultsFromFlag(rules: seq<string>, startOffset: u32, endOffset: u32, k: nat)
    requires k < |DefaultsFrom(rules, LftRules.RULE_SEARCH_REGX, startOffset, endOffset)|
    ensures var d := DefaultsFrom(rules, LftRules.RULE_SEARCH_REGX, startOffset, endOffset)[k];
      WellFormed(d) && Prefix(d).Some? && LftRules.RULE_SEARCH_REGX as int <= Prefix(d).value <= LftRules.RULE_SEARCH_ENDOFF as int
  {
    DefaultsFromFlags(rules, LftRules.RULE_SEARCH_REGX, startOffset, endOffset, k);
    var g: byte :| LftRules.RULE_SEARCH_REGX <= g <= LftRules.RULE_SEARCH_ENDOFF &&
      DefaultsFrom(rules, LftRules.RULE_SEARCH_REGX, startOffset, endOffset)[k] == DefaultRule(g, DefaultArg(g, startOffset, endOffset));
    DefaultRuleParts(g, DefaultArg(g, startOffset, endOffset));
  }

  /** The flag byte of a node is the prefix's value when that fits. */
  lemma FlagByteOf(rule: string)
    requires WellFormed(rule) && Prefix(rule).Some? && Prefix(rule).value < 256
    ensures RuleOf(rule).flag as int == Prefix(rule).value
  {
  }

  /** The defaults leave string-valued rules alone: `_getRuleStrings` reads
      the same texts before and after. */
  lemma DefaultsKeepStrings(rules: seq<string>, flag: int, startOffset: u32, endOffset: u32)
    requires flag >= LftRules.RULE_EXCLUDE_SUB_S as int
    ensures RuleStrings(SetRulesByDefault(rules, startOffset, endOffset), flag) == RuleStrings(rules, flag)
  {
    var d := DefaultsFrom(rules, LftRules.RULE_SEARCH_REGX, startOffset, endOffset);
    RuleStringsAppend(d, rules, flag);
    forall i | 0 <= i < |d|
      ensures !FlagIs(d[i], flag)
    {
      DefaultsFromFlag(rules, startOffset, endOffset, i);
    }
    RuleStringsEmpty(d, flag);
  }

  /** When any search flag is missing, the defaulted list parses with a
      search flag at its head, so `_parseRules` succeeds. */
  lemma DefaultsParse(rules: seq<string>, flag: byte, startOffset: u32, endOffset: u32)
    requires LftRules.RULE_SEARCH_REGX <= flag <= LftRules.RULE_SEARCH_ENDOFF && RuleArgs(rules, flag as int).None?
    ensures var p := Parsed(SetRulesByDefault(rules, startOffset, endOffset));
      p != [] && LftRules.RULE_SEARCH_REGX <= p[0].flag <= LftRules.RULE_SEARCH_ENDOFF
  {
    var d := DefaultsFrom(rules, LftRules.RULE_SEARCH_REGX, startOffset, endOffset);
    HasFlagArgs(rules, flag as int);
    DefaultsFromArgs(rules, LftRules.RULE_SEARCH_REGX, flag, startOffset, endOffset);
    assert d != [];
    var all := SetRulesByDefault(rules, startOffset, endOffset);
    DefaultsFromFlag(rules, startOffset, endOffset, 0);
    var h := all[0];
    assert h == d[0];
    ParsedHead(all, 0);
    FlagByteOf(h);
  }

  // ---------------------------------------------------------------------
  // Paths and index buffers
  // ---------------------------------------------------------------------

  /** `hasLFTSubdirectories`' normalisation: the path with a trailing "/". */
  function AsDir(path: string): string
  {
    if IsSuffix("/", path) then path else path + "/"
  }

  /** The keys `k`, in map order, for which `k + "/"` starts with `dir`. */
  function Subdirectories(keys: seq<string>, dir: string): (r: seq<string>)
    ensures |r| <= |keys|
  {
    if keys == [] then []
    else
      var last := keys[|keys| - 1];
      var front := Subdirectories(keys[..|keys| - 1], dir);
      if IsPrefix(dir, last + "/") then front + [last] else front
  }

  /** Exactly the keys at or below the directory are listed. */
  lemma {:induction false} SubdirectoriesMeans(keys: seq<string>, dir: string, k: string)
    ensures k in Subdirectories(keys, dir) <==> k in keys && IsPrefix(dir, k + "/")
  {
    if keys != [] {
      var n := |keys| - 1;
      SubdirectoriesMeans(keys[..n], dir, k);
      assert keys == keys[..n] + [keys[n]];
    }
  }

  /** A mount point is listed for its own path with or without the
      trailing "/", and a sibling that merely shares a name prefix (such
      as "/data/homes" for "/data/home") is not. */
  lemma OwnKeyListed(keys: seq<string>, k: string, sibling: string)
    requires k in keys && !IsSuffix("/", k)
    requires IsPrefix(k, sibling) && |sibling| > |k| && sibling[|k|] != '/'
    ensures k in Subdirectories(keys, AsDir(k)) && k in Subdirectories(keys, k + "/")
    ensures sibling !in Subdirectories(keys, AsDir(k))
  {
    SubdirectoriesMeans(keys, AsDir(k), k);
    SubdirectoriesMeans(keys, AsDir(k), sibling);
    assert AsDir(k) == k + "/";
    assert (sibling + "/")[|k|] == sibling[|k|];
  }

  /** `hasLFTSubdirectories` over the buffer map's keys in map order. */
  method HasLFTSubdirectories(keys: seq<string>, path: string) returns (list: seq<string>)
    ensures list == Subdirectories(keys, AsDir(path))
  {
    var dir := path;
    if !(|dir| >= 1 && dir[|dir| - 1..] == "/") {
      dir := dir + "/";
    }
    list := [];
    var i := 0;
    while i < |keys|
      invariant 0 <= i <= |keys|
      invariant list == Subdirectories(keys[..i], dir)
    {
      assert keys[..i + 1][..i] == keys[..i] && keys[..i + 1][i] == keys[i];
      var k := keys[i] + "/";
      if |dir| <= |k| && k[..|dir|] == dir {
        list := list + [keys[i]];
      }
      i := i + 1;
    }
    assert keys[..i] == keys;
  }

  /** The rewrite in `getFsBufByPath`: the part of `path` after the mount
      point, less one leading "/", after the buffer's root, with a
      trailing "/" chopped unless that leaves nothing. */
  function BufPath(path: string, mountPoint: string, root: string): string
  {
    var rest := if |mountPoint| <= |path| then path[|mountPoint|..] else "";
    var rel := if IsPrefix("/", rest) then rest[1..] else rest;
    var full := root + rel;
    if |full| > 1 && IsSuffix("/", full) then full[..|full| - 1] else full
  }

  /** `getFsBufByPath` given the mount point found for the path, and the
      root path of each buffer by its mount point: None for the empty pair
      (a relative path, no mount point, no buffer). */
  function FsBufByPath(bufs: map<string, string>, path: string, mountPoint: string): (r: Option<string>)
    ensures r.Some? <==> IsPrefix("/", path) && mountPoint != "" && mountPoint in bufs
  {
    if !IsPrefix("/", path) || mountPoint == "" || mountPoint !in bufs then None
    else Some(BufPath(path, mountPoint, bufs[mountPoint]))
  }

  /** A path below the mount point lands at the same place below the
      buffer's root. */
  lemma BufPathBelow(mountPoint: string, rest: string, root: string)
    requires rest != "" && !IsPrefix("/", rest) && !IsSuffix("/", rest)
    ensures BufPath(mountPoint + "/" + rest, mountPoint, root) == root + rest
  {
    var path := mountPoint + "/" + rest;
    assert path[|mountPoint|..] == "/" + rest;
    assert ("/" + rest)[1..] == rest;
    var full := root + rest;
    assert full[|full| - 1..] == rest[|rest| - 1..];
  }

  /** The mount point itself is the buffer's root without its "/". */
  lemma BufPathAtMount(mountPoint: string, root: string)
    requires |root| > 1 && IsSuffix("/", root)
    ensures BufPath(mountPoint, mountPoint, root) == root[..|root| - 1]
    ensures BufPath(mountPoint + "/", mountPoint, root) == root[..|root| - 1]
  {
    assert mountPoint[|mountPoint|..] == "";
    assert (mountPoint + "/")[|mountPoint|..] == "/";
    assert root + "" == root;
  }

  /** With the root file system indexed at "/", an absolute path without a
      trailing "/" is its own buffer path. */
  lemma BufPathRootIdentity(rest: string)
    requires !IsPrefix("/", rest) && (rest == "" || !IsSuffix("/", rest))
    ensures BufPath("/" + rest, "/", "/") == "/" + rest
  {
    var path := "/" + rest;
    assert path[1..] == rest;
    if rest != "" {
      assert path[|path| - 1..] == rest[|rest| - 1..];
    }
  }

  /** `getFsBufByPath`, with `findMountPointByPath(path, true)` as the mount
      table's walk. */
  method GetFsBufByPath(list: seq<MountTable.MountPoint>, bufs: map<string, string>, path: string,
                        mountOf: string -> Option<string>)
    returns (r: Option<string>)
    requires MountTable.Shrinks(mountOf)
    ensures r == FsBufByPath(bufs, path, MountTable.Climb(path, "", true, mountOf, MountTable.VirtualTargets(list)))
  {
    if !(|path| >= 1 && path[..1] == "/") {
      return None;
    }
    var mountPoint := MountTable.FindMountPoint(list, path, true, mountOf);
    if mountPoint == "" || mountPoint !in bufs {
      return None;
    }
    var rest := if |mountPoint| <= |path| then path[|mountPoint|..] else "";
    var newPath := rest;
    if |newPath| >= 1 && newPath[..1] == "/" {
      newPath := newPath[1..];
    }
    assert newPath == if IsPrefix("/", rest) then rest[1..] else rest;
    var full := bufs[mountPoint] + newPath;
    newPath := full;
    if |newPath| > 1 && newPath[|newPath| - 1..] == "/" {
      newPath := newPath[..|newPath| - 1];
    }
    assert newPath == if |full| > 1 && IsSuffix("/", full) then full[..|full| - 1] else full;
    return Some(newPath);
  }

  // ---------------------------------------------------------------------
  // CPU guard
  // ---------------------------------------------------------------------

  const HIGH_USE: real := 85.0
  const LOW_USE: real := 30.0

  /** `cpu_row_count` and `cpu_limited`. */
  datatype CpuState = CpuState(count: nat, limited: bool)

  /** The `systemctl set-property` the check starts, if any. */
  datatype Quota = NoChange | Limit | Unlimit

  /** One run of `_cpuLimitCheck` on the reading `cpu`. */
  function CpuStep(s: CpuState, cpu: real): (CpuState, Quota)
  {
    if cpu < LOW_USE && !s.limited then (s.(count := 0), NoChange)
    else
      var c := if cpu > HIGH_USE || cpu < LOW_USE then s.count + 1 else if s.count > 0 then s.count - 1 else s.count;
      if c > 2 then
        if cpu > HIGH_USE then (CpuState(0, true), Limit)
        else if cpu < LOW_USE then (CpuState(0, false), Unlimit)
        else (CpuState(0, s.limited), NoChange)
      else (CpuState(c, s.limited), NoChange)
  }

  /** The counter stays within 0..2 between runs, and a quota command
      goes with the matching state and reading. */
  lemma CpuStepBounded(s: CpuState, cpu: real)
    requires s.count <= 2
    ensures CpuStep(s, cpu).0.count <= 2
    ensures CpuStep(s, cpu).1 == Limit ==> cpu > HIGH_USE && CpuStep(s, cpu).0.limited
    ensures CpuStep(s, cpu).1 == Unlimit ==> cpu < LOW_USE && s.limited && !CpuStep(s, cpu).0.limited
    ensures CpuStep(s, cpu).1 == NoChange ==> CpuStep(s, cpu).0.limited == s.limited
  {
  }

  /** The counting rule: reset on low usage while unlimited, up on a
      reading out of band, otherwise down towards 0, while it stays
      within 0..2. */
  lemma CpuStepCounts(s: CpuState, cpu: real)
    requires s.count + 1 <= 2
    ensures var r := CpuStep(s, cpu).0;
      if cpu < LOW_USE && !s.limited then r.count == 0
      else if cpu > HIGH_USE || cpu < LOW_USE then r.count == s.count + 1
      else r.count == if s.count > 0 then s.count - 1 else 0
  {
  }

  /** Three high readings in a row always leave the service limited. */
  lemma ThreeHighLimits(s: CpuState, a: real, b: real, c: real)
    requires s.count <= 2 && a > HIGH_USE && b > HIGH_USE && c > HIGH_USE
    ensures CpuStep(CpuStep(CpuStep(s, a).0, b).0, c).0.limited
  {
  }

  /** Three low readings in a row always lift a limit. */
  lemma ThreeLowUnlimits(s: CpuState, a: real, b: real, c: real)
    requires s.count <= 2 && a < LOW_USE && b < LOW_USE && c < LOW_USE
    ensures !CpuStep(CpuStep(CpuStep(s, a).0, b).0, c).0.limited
  {
  }

  /** From a counter at 0, two readings never change the limit. */
  lemma TwoReadingsKeepLimit(s: CpuState, a: real, b: real)
    requires s.count == 0
    ensures CpuStep(CpuStep(s, a).0, b).0.limited == s.limited
  {
  }

  /** The two fields the CPU guard keeps in the manager. */
  class LftManager {
    var cpuRowCount: nat
    var cpuLimited: bool

    constructor ()
      ensures cpuRowCount == 0 && !cpuLimited
    {
      cpuRowCount := 0;
      cpuLimited := false;
    }

    /** `_cpuLimitCheck`, with the process's CPU usage as `currentCpu`. */
    method CpuLimitCheck(currentCpu: real) returns (q: Quota)
      modifies this
      ensures (CpuState(cpuRowCount, cpuLimited), q) == CpuStep(CpuState(old(cpuRowCount), old(cpuLimited)), currentCpu)
    {
      q := NoChange;
      if currentCpu < LOW_USE && !cpuLimited {
        cpuRowCount := 0;
        return;
      }
      if currentCpu > HIGH_USE || currentCpu < LOW_USE {
        cpuRowCount := cpuRowCount + 1;
      } else if cpuRowCount > 0 {
        cpuRowCount := cpuRowCount - 1;
      }
      if cpuRowCount > 2 {
        if currentCpu > HIGH_USE {
          q := Limit;
          cpuLimited := true;
        } else if currentCpu < LOW_USE {
          q := Unlimit;
          cpuLimited := false;
        }
        cpuRowCount := 0;
      }
    }
  }

  // ---------------------------------------------------------------------
  // File changes
  // ---------------------------------------------------------------------

  const INSERT_ACTION: string := "insert:"
  const REMOVE_ACTION: string := "remove:"

  /** The buffer operation `onFileChanged` calls for one queued pair. */
  datatype Op = Insert(path: string) | Remove(path: string) | Rename(from: string, to: string)

  /** The operation for one pair: by the action's prefix, and a rename of
      the first path to the second for anything else. */
  function OpOf(p: EventAdaptor.Pending): (o: Op)
    ensures o.Insert? <==> IsPrefix(INSERT_ACTION, p.first)
    ensures o.Remove? <==> !IsPrefix(INSERT_ACTION, p.first) && IsPrefix(REMOVE_ACTION, p.first)
    ensures o.Insert? || o.Remove? ==> o.path == p.second
    ensures o.Rename? ==> o == Rename(p.first, p.second)
  {
    if IsPrefix(INSERT_ACTION, p.first) then Insert(p.second)
    else if IsPrefix(REMOVE_ACTION, p.first) then Remove(p.second)
    else Rename(p.first, p.second)
  }

  /** A pair whose first element is an absolute path is a rename. */
  lemma AbsoluteIsRename(p: EventAdaptor.Pending)
    requires IsPrefix("/", p.first)
    ensures OpOf(p) == Rename(p.first, p.second)
  {
    assert p.first[0] == '/';
  }

  /** `onFileChanged`: one operation per pair, in queue order. */
  method OnFileChanged(actions: seq<EventAdaptor.Pending>) returns (ops: seq<Op>)
    ensures |ops| == |actions| && forall k :: 0 <= k < |actions| ==> ops[k] == OpOf(actions[k])
  {
    ops := [];
    var i := 0;
    while i < |actions|
      invariant 0 <= i <= |actions| && |ops| == i
      invariant forall k :: 0 <= k < i ==> ops[k] == OpOf(actions[k])
    {
      var a := actions[i];
      var o;
      if |INSERT_ACTION| <= |a.first| && a.first[..|INSERT_ACTION|] == INSERT_ACTION {
        o := Insert(a.second);
      } else if |REMOVE_ACTION| <= |a.first| && a.first[..|REMOVE_ACTION|] == REMOVE_ACTION {
        o := Remove(a.second);
      } else {
        o := Rename(a.first, a.second);
      }
      ops := ops + [o];
      i := i + 1;
    }
  }
}

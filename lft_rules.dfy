/** The search rules of the LFT library: a list of (flag, target) pairs
    that select extra search options, exclude names, or include names;
    the jump list a rule search keeps to skip excluded subtrees; and the
    plain search thread's scan. */
module LftRules {
  import opened Common
  import opened LftLayout
  import opened LftSpec

  const RULE_NONE: byte := 0x00
  const RULE_SEARCH_REGX: byte := 0x01
  const RULE_SEARCH_MAX_COUNT: byte := 0x02
  const RULE_SEARCH_ICASE: byte := 0x03
  const RULE_SEARCH_STARTOFF: byte := 0x04
  const RULE_SEARCH_ENDOFF: byte := 0x05
  const RULE_SEARCH_PINYIN: byte := 0x06
  const RULE_EXCLUDE_SUB_S: byte := 0x40
  const RULE_EXCLUDE_SUB_D: byte := 0x41
  const RULE_EXCLUDE_PATH: byte := 0x42
  const RULE_INCLUDE_SUB_S: byte := 0x80
  const RULE_INCLUDE_SUB_D: byte := 0x81

  /** `enum rule_type`. */
  const INVALID_RULE := -1
  const SEARCH_RULE := 1
  const EXCLUDE_RULE := 2
  const INCLUDE_RULE := 4

  /** `search_rule`; a linked list of them is a sequence. */
  datatype Rule = Rule(flag: byte, target: Bytes)

  /** The kind `get_rules` files a flag under; 0 for a flag it does not
      know. */
  function Kind(flag: byte): int
  {
    if RULE_SEARCH_REGX <= flag <= RULE_SEARCH_PINYIN then SEARCH_RULE
    else if RULE_EXCLUDE_SUB_S <= flag <= RULE_EXCLUDE_PATH then EXCLUDE_RULE
    else if flag == RULE_INCLUDE_SUB_S || flag == RULE_INCLUDE_SUB_D then INCLUDE_RULE
    else 0
  }

  /** Some rule of the list is of kind `k`. */
  predicate HasKind(rules: seq<Rule>, k: int)
  {
    rules != [] && (HasKind(rules[..|rules| - 1], k) || Kind(rules[|rules| - 1].flag) == k)
  }

  lemma {:induction false} HasKindMeans(rules: seq<Rule>, k: int)
    ensures HasKind(rules, k) <==> exists i :: 0 <= i < |rules| && Kind(rules[i].flag) == k
  {
    if rules != [] {
      var n := |rules| - 1;
      HasKindMeans(rules[..n], k);
      if HasKind(rules[..n], k) {
        var i :| 0 <= i < n && Kind(rules[..n][i].flag) == k;
        assert Kind(rules[i].flag) == k;
      }
      if exists i :: 0 <= i < |rules| && Kind(rules[i].flag) == k {
        var i :| 0 <= i < |rules| && Kind(rules[i].flag) == k;
        if i < n {
          assert Kind(rules[..n][i].flag) == k;
        }
      }
    }
  }

  /** The mask `get_rules` builds from which kinds are present. */
  function MaskValue(search: bool, excl: bool, incl: bool): nat
  {
    (if search then SEARCH_RULE else 0) + (if excl then EXCLUDE_RULE else 0) + (if incl then INCLUDE_RULE else 0)
  }

  /** `m & b != 0` for a bit `b` of 1, 2 or 4. */
  predicate HasBit(m: nat, b: nat)
    requires b > 0
  {
    (m / b) % 2 == 1
  }

  /** Each kind is its own bit of the mask, and a mask of no filter kinds
      is at most SEARCH_RULE. */
  lemma MaskBits(s: bool, e: bool, i: bool)
    ensures HasBit(MaskValue(s, e, i), SEARCH_RULE) == s
    ensures HasBit(MaskValue(s, e, i), EXCLUDE_RULE) == e
    ensures HasBit(MaskValue(s, e, i), INCLUDE_RULE) == i
    ensures MaskValue(s, e, i) <= SEARCH_RULE <==> !e && !i
  {
  }

  /** `re_rule |= k`. */
  function OrKind(m: nat, k: int): (r: nat)
    requires k == 0 || k == SEARCH_RULE || k == EXCLUDE_RULE || k == INCLUDE_RULE
  {
    if k == 0 || HasBit(m, k) then m else m + k
  }

  /** Adding a kind to a mask sets that kind's bit and no other. */
  lemma OrKindStep(s: bool, e: bool, i: bool, k: int)
    requires k == 0 || k == SEARCH_RULE || k == EXCLUDE_RULE || k == INCLUDE_RULE
    ensures OrKind(MaskValue(s, e, i), k) == MaskValue(s || k == SEARCH_RULE, e || k == EXCLUDE_RULE, i || k == INCLUDE_RULE)
  {
  }

  /** Whether `get_rules` copies a rule into the list of kind `kind`: when
      its flag is of that kind, and also when the flag is unknown, since
      the written test starts from -1 (true) and only known flags reset
      it. */
  predicate Picked(flag: byte, kind: int)
  {
    Kind(flag) == 0 || Kind(flag) == kind
  }

  /** The rules `get_rules` copies, in their order. */
  function Selected(rules: seq<Rule>, kind: int): seq<Rule>
  {
    if rules == [] then []
    else Selected(rules[..|rules| - 1], kind) + (if Picked(rules[|rules| - 1].flag, kind) then [rules[|rules| - 1]] else [])
  }

  /** A rule is selected exactly when it is in the list and picked. */
  lemma {:induction false} SelectedMeans(rules: seq<Rule>, kind: int, r: Rule)
    ensures r in Selected(rules, kind) <==> r in rules && Picked(r.flag, kind)
  {
    if rules != [] {
      var n := |rules| - 1;
      SelectedMeans(rules[..n], kind, r);
      assert rules == rules[..n] + [rules[n]];
    }
  }

  /** A rule with a flag of no kind lands in the exclude list. */
  lemma UnknownFlagSelected()
    ensures Selected([Rule(0x07, [])], EXCLUDE_RULE) == [Rule(0x07, [])]
  {
    assert [Rule(0x07, [])][..0] == [];
  }

  /** The mask of the kinds present in `rules`. */
  function Mask(rules: seq<Rule>): nat
  {
    MaskValue(HasKind(rules, SEARCH_RULE), HasKind(rules, EXCLUDE_RULE), HasKind(rules, INCLUDE_RULE))
  }

  /** A longer prefix of the list selects at least as many rules. */
  lemma {:induction false} SelectedGrows(rules: seq<Rule>, kind: int, j: nat)
    requires j <= |rules|
    ensures |Selected(rules[..j], kind)| <= |Selected(rules, kind)|
    decreases |rules| - j
  {
    if j < |rules| {
      assert rules[..j + 1][..j] == rules[..j];
      SelectedGrows(rules, kind, j + 1);
    } else {
      assert rules[..j] == rules;
    }
  }

  /** Whether copying the rules of `kind` runs out of memory: `failAt` is
      the number of copies made before the `malloc` that fails, if any. */
  predicate CopyFails(rules: seq<Rule>, kind: int, failAt: Option<nat>)
  {
    failAt.Some? && failAt.value < |Selected(rules, kind)|
  }

  /** `get_rules`: the mask of the kinds present in the list and a copy of
      the rules of kind `kind` (and of unknown kind), stored in `*specrule`;
      -1 for no list. When a copy's `malloc` fails the mask of the rules
      read so far is returned at once and `*specrule` is not written
      (`spec == None`). */
  method GetRules(rules: seq<Rule>, kind: int, failAt: Option<nat>) returns (re: int, spec: Option<seq<Rule>>)
    ensures rules == [] ==> re == INVALID_RULE && spec.None?
    ensures rules != [] && !CopyFails(rules, kind, failAt) ==> re == Mask(rules) && spec == Some(Selected(rules, kind))
    ensures rules != [] && CopyFails(rules, kind, failAt) ==> spec.None?
    ensures rules != [] && CopyFails(rules, kind, failAt) ==>
      exists i :: (0 <= i < |rules| && Picked(rules[i].flag, kind)
        && |Selected(rules[..i], kind)| == failAt.value && re == Mask(rules[..i + 1]))
  {
    if rules == [] {
      return INVALID_RULE, None;
    }
    var m: nat := 0;
    var copy: seq<Rule> := [];
    var i := 0;
    while i < |rules|
      invariant 0 <= i <= |rules|
      invariant m == Mask(rules[..i])
      invariant copy == Selected(rules[..i], kind)
      invariant failAt.None? || failAt.value >= |copy|
    {
      assert rules[..i + 1][..i] == rules[..i];
      var k := Kind(rules[i].flag);
      OrKindStep(HasKind(rules[..i], SEARCH_RULE), HasKind(rules[..i], EXCLUDE_RULE), HasKind(rules[..i], INCLUDE_RULE), k);
      m := OrKind(m, k);
      if Picked(rules[i].flag, kind) {
        if failAt == Some(|copy|) {
          SelectedGrows(rules, kind, i + 1);
          return m, None;
        }
        copy := copy + [rules[i]];
      }
      i := i + 1;
    }
    assert rules[..|rules|] == rules;
    re, spec := m, Some(copy);
  }

  /** The string "0" that `get_rule_value` answers with by default. */
  const ZERO: Bytes := ['0' as byte]

  /** `get_rule_value`: the target of the first rule with `flag`, or "0"
      when there is none or the list's first rule has no flag. */
  method GetRuleValue(rules: seq<Rule>, flag: byte) returns (v: Bytes)
    ensures rules == [] || rules[0].flag == RULE_NONE ==> v == ZERO
    ensures rules != [] && rules[0].flag != RULE_NONE ==>
      (v == ZERO && forall i :: 0 <= i < |rules| ==> rules[i].flag != flag)
      || (exists i :: (0 <= i < |rules| && rules[i].flag == flag && v == rules[i].target
        && forall j :: 0 <= j < i ==> rules[j].flag != flag))
  {
    if rules == [] || rules[0].flag == RULE_NONE {
      return ZERO;
    }
    var i := 0;
    while i < |rules|
      invariant 0 <= i <= |rules|
      invariant forall j :: 0 <= j < i ==> rules[j].flag != flag
    {
      if rules[i].flag == flag {
        return rules[i].target;
      }
      i := i + 1;
    }
    v := ZERO;
  }

  /** The test `check_name` applies for one rule: equality for an
      excluded path, a prefix for the SUB_S flags, a suffix for the SUB_D
      flags; other flags match nothing. */
  predicate RuleMatches(rule: Rule, name: Bytes)
  {
    if rule.flag == RULE_EXCLUDE_PATH then name == rule.target
    else if rule.flag == RULE_EXCLUDE_SUB_S || rule.flag == RULE_INCLUDE_SUB_S then IsPrefix(rule.target, name)
    else if rule.flag == RULE_EXCLUDE_SUB_D || rule.flag == RULE_INCLUDE_SUB_D then IsSuffix(rule.target, name)
    else false
  }

  /** `check_name`: 0 when some rule of the list matches the name, -1
      otherwise and for an empty list or one whose first rule has no
      flag. */
  method CheckName(name: Bytes, rules: seq<Rule>) returns (r: int)
    ensures r == 0 || r == -1
    ensures r == 0 <==> (rules != [] && rules[0].flag != RULE_NONE
      && exists i :: 0 <= i < |rules| && RuleMatches(rules[i], name))
  {
    if rules == [] || rules[0].flag == RULE_NONE {
      return -1;
    }
    var i := 0;
    while i < |rules|
      invariant 0 <= i <= |rules|
      invariant forall j :: 0 <= j < i ==> !RuleMatches(rules[j], name)
    {
      if RuleMatches(rules[i], name) {
        return 0;
      }
      i := i + 1;
    }
    r := -1;
  }

  /** `is_regex`: the query holds one of the characters that make it a
      regular expression. */
  function IsRegex(query: Bytes): (r: bool)
    ensures r <==> exists i :: 0 <= i < |query| && IsRegexChar(query[i])
  {
    if query == [] then false
    else IsRegexChar(query[0]) || (assert forall i :: 1 <= i < |query| ==> query[1..][i - 1] == query[i]; IsRegex(query[1..]))
  }

  /** The characters `$()*+.?[\^{|`. */
  predicate IsRegexChar(c: byte)
  {
    c == '$' as byte || c == '(' as byte || c == ')' as byte || c == '*' as byte || c == '+' as byte
    || c == '.' as byte || c == '?' as byte || c == '[' as byte || c == '\\' as byte || c == '^' as byte
    || c == '{' as byte || c == '|' as byte
  }

  /** `struct jump_off`: the subtree `[start, end)` of an excluded
      directory and whether the search already jumped over it. */
  datatype Jump = Jump(start: nat, end: nat, hit: bool)

  /** The state of `should_jump`'s scan after the first `i` jumps: the
      smallest start seen so far (starting from the name's offset) and the
      jump that has it, the later one on a tie. */
  function PickScan(js: seq<Jump>, nameOff: nat, i: nat): (r: (nat, Option<nat>))
    requires i <= |js|
    ensures r.1.Some? ==> r.1.value < i
  {
    if i == 0 then (nameOff, None)
    else
      var (m, best) := PickScan(js, nameOff, i - 1);
      if !js[i - 1].hit && js[i - 1].start <= m then (js[i - 1].start, Some(i - 1)) else (m, best)
  }

  /** The jump `should_jump` takes. */
  function Pick(js: seq<Jump>, nameOff: nat): (r: Option<nat>)
    ensures r.Some? ==> r.value < |js|
  {
    PickScan(js, nameOff, |js|).1
  }

  /** What the scan keeps: with no jump picked, no unused jump among the
      first `i` starts at or before the name; with jump `k` picked, `k`
      is unused and starts at or before the name, no unused jump starts
      earlier, and no later unused one starts at the same place. */
  lemma {:induction false} PickScanMeans(js: seq<Jump>, nameOff: nat, i: nat)
    requires i <= |js|
    ensures PickScan(js, nameOff, i).1.None? ==>
      PickScan(js, nameOff, i).0 == nameOff && forall j :: 0 <= j < i ==> js[j].hit || js[j].start > nameOff
    ensures PickScan(js, nameOff, i).1.Some? ==>
      var k := PickScan(js, nameOff, i).1.value;
      k < i && !js[k].hit && PickScan(js, nameOff, i).0 == js[k].start <= nameOff
      && (forall j :: 0 <= j < i && !js[j].hit ==> js[k].start <= js[j].start)
      && (forall j :: k < j < i && !js[j].hit ==> js[j].start > js[k].start)
  {
    if i > 0 {
      PickScanMeans(js, nameOff, i - 1);
    }
  }

  /** The jump taken is an unused one with the smallest start at or before
      the name (the last such), and there is none exactly when no unused
      jump starts at or before the name. */
  lemma PickMeans(js: seq<Jump>, nameOff: nat)
    ensures Pick(js, nameOff).None? <==> forall j :: 0 <= j < |js| ==> js[j].hit || js[j].start > nameOff
    ensures Pick(js, nameOff).Some? ==>
      var k := Pick(js, nameOff).value;
      k < |js| && !js[k].hit && js[k].start <= nameOff
      && (forall j :: 0 <= j < |js| && !js[j].hit ==> js[k].start <= js[j].start)
      && (forall j :: k < j < |js| && !js[j].hit ==> js[j].start > js[k].start)
  {
    PickScanMeans(js, nameOff, |js|);
  }

  /** A jump that was taken is never taken again. */
  lemma TakenOnce(js: seq<Jump>, nameOff: nat, later: nat)
    requires Pick(js, nameOff).Some?
    ensures var k := Pick(js, nameOff).value;
      Pick(js[k := js[k].(hit := true)], later) != Some(k)
  {
    var k := Pick(js, nameOff).value;
    PickMeans(js, nameOff);
    PickMeans(js[k := js[k].(hit := true)], later);
  }

  /** The jump list of a rule search. */
  class JumpList {
    var jumps: seq<Jump>

    constructor ()
      ensures jumps == []
    {
      jumps := [];
    }

    /** `add_jump`: append an unused jump over `[start, end)`; nothing
        changes when the `malloc` of the link fails (`!allocOk`). */
    method AddJump(start: nat, end: nat, allocOk: bool)
      modifies this
      ensures jumps == if allocOk then old(jumps) + [Jump(start, end, false)] else old(jumps)
    {
      if allocOk {
        jumps := jumps + [Jump(start, end, false)];
      }
    }

    /** `should_jump`: take the jump `Pick` names, mark it used and answer
        its end; -1 when there is none. */
    method ShouldJump(nameOff: nat) returns (r: int, jumpOff: nat)
      modifies this
      ensures r == 0 || r == -1
      ensures r == -1 <==> Pick(old(jumps), nameOff).None?
      ensures r == -1 ==> jumps == old(jumps)
      ensures r == 0 ==> (Pick(old(jumps), nameOff).value < |old(jumps)|
        && jumpOff == old(jumps)[Pick(old(jumps), nameOff).value].end
        && jumps == old(jumps)[Pick(old(jumps), nameOff).value := old(jumps)[Pick(old(jumps), nameOff).value].(hit := true)])
    {
      PickMeans(jumps, nameOff);
      var minJump := nameOff;
      var hitJump: Option<nat> := None;
      var i := 0;
      while i < |jumps|
        invariant 0 <= i <= |jumps|
        invariant (minJump, hitJump) == PickScan(jumps, nameOff, i)
      {
        if !jumps[i].hit && jumps[i].start <= minJump {
          minJump := jumps[i].start;
          hitJump := Some(i);
        }
        i := i + 1;
      }
      if hitJump.None? {
        return -1, 0;
      }
      var k := hitJump.value;
      jumpOff := jumps[k].end;
      jumps := jumps[k := jumps[k].(hit := true)];
      r := 0;
    }
  }

  function Min(a: nat, b: nat): nat
  {
    if a < b then a else b
  }

  /** Keeping the first `save` of a list that grows by one. */
  lemma TakeSnoc(all: seq<nat>, x: nat, save: nat)
    ensures (all + [x])[..Min(|all| + 1, save)] == all[..Min(|all|, save)] + (if |all| < save then [x] else [])
  {
    if |all| < save {
      assert (all + [x])[..|all| + 1] == all + [x];
    } else {
      assert (all + [x])[..save] == all[..save];
    }
  }

  /** `search_thread`: the names from `start` before `end` that the
      comparator accepts, all counted and the first `saveResults` kept;
      with a positive `maxCount` the scan stops after that many and
      reports where it stopped as the next start. */
  method SearchThread(h: Bytes, start: nat, end: nat, saveResults: nat, cmp: Bytes -> int, maxCount: int)
    returns (results: seq<nat>, numResults: nat, startPos: nat, ghost stop: nat)
    ensures OnChain(h, start, stop) && numResults == |Hits(h, start, stop, cmp, Current)|
    ensures results == Hits(h, start, stop, cmp, Current)[..Min(numResults, saveResults)]
    ensures stop >= end || (maxCount > 0 && numResults == maxCount && startPos == stop)
    ensures maxCount > 0 ==> numResults <= maxCount
    ensures startPos == start || (maxCount > 0 && numResults == maxCount)
    ensures forall i :: 0 <= i < |results| ==> start <= results[i] < stop && Hit(h, results[i], cmp, Current)
  {
    results, numResults, startPos := [], 0, start;
    var nameOff: nat := start;
    ghost var all: seq<nat> := [];
    while nameOff < end
      invariant OnChain(h, start, nameOff) && all == Hits(h, start, nameOff, cmp, Current)
      invariant numResults == |all| && results == all[..Min(numResults, saveResults)]
      invariant startPos == start && (maxCount > 0 ==> numResults < maxCount)
      decreases end - nameOff
    {
      HitsSnoc(h, start, nameOff, cmp, Current);
      OnChainSnoc(h, start, nameOff);
      if At(h, nameOff) == 0 {
        nameOff := NextName(h, nameOff);
        continue;
      }
      if cmp(Name(h, nameOff)) == 0 {
        TakeSnoc(all, nameOff, saveResults);
        all := all + [nameOff];
        if numResults < saveResults {
          results := results + [nameOff];
        }
        numResults := numResults + 1;
      }
      nameOff := NextName(h, nameOff);
      if maxCount > 0 && numResults >= maxCount {
        startPos := nameOff;
        break;
      }
    }
    stop := nameOff;
    HitsProps(h, start, nameOff, cmp, Current);
  }
}

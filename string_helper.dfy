/** The string helpers of the server (`split`, `starts_with`, `ends_with`,
    `contains`, `contains_invalid_chars`). The two copies of the header agree
    on the functions they share, so they are modelled once. */
module StringHelper {
  import opened Common

  /** `s.find(d, i)`: the first index from `i` on at which `d` occurs. */
  function FindFrom(s: string, d: string, i: nat): (r: Option<nat>)
    requires i <= |s|
    ensures r.Some? ==> i <= r.value && OccursAt(d, s, r.value)
    ensures r.Some? ==> forall j :: i <= j < r.value ==> !OccursAt(d, s, j)
    ensures r.None? ==> forall j :: i <= j <= |s| ==> !OccursAt(d, s, j)
    decreases |s| - i
  {
    if OccursAt(d, s, i) then Some(i)
    else if i == |s| then None
    else FindFrom(s, d, i + 1)
  }

  /** `s.find(d)`. */
  function Find(s: string, d: string): (r: Option<nat>)
    ensures r.Some? <==> Contains(s, d)
    ensures r.Some? ==> OccursAt(d, s, r.value) && forall j :: 0 <= j < r.value ==> !OccursAt(d, s, j)
  {
    FindFrom(s, d, 0)
  }

  /** The tokens `split(s, d)` returns: the text before each leftmost
      occurrence of `d`, then the rest. */
  function SplitSpec(s: string, d: string): (r: seq<string>)
    requires |d| > 0
    ensures |r| >= 1
    decreases |s|
  {
    match Find(s, d)
    case None => [s]
    case Some(p) => [s[..p]] + SplitSpec(s[p + |d|..], d)
  }

  /** `split`: cut `s` at the first occurrence of `d` until none is left.
      With an empty delimiter the loop of the original never ends, so the
      delimiter must be non-empty. */
  method Split(s: string, d: string) returns (tokens: seq<string>)
    requires |d| > 0
    ensures tokens == SplitSpec(s, d)
  {
    tokens := [];
    var rest := s;
    var pos := Find(rest, d);
    while pos.Some?
      invariant pos == Find(rest, d)
      invariant tokens + SplitSpec(rest, d) == SplitSpec(s, d)
      decreases |rest|
    {
      ghost var done, before := tokens, rest;
      tokens := tokens + [rest[..pos.value]];
      rest := rest[pos.value + |d|..];
      SplitAdvance(s, d, done, before, pos.value, tokens, rest);
      pos := Find(rest, d);
    }
    assert SplitSpec(rest, d) == [rest];
    tokens := tokens + [rest];
  }

  /** One cut of `split`: the token before the first occurrence moves from
      the rest to the tokens. */
  lemma SplitAdvance(s: string, d: string, done: seq<string>, rest: string, p: nat, out: seq<string>, next: string)
    requires |d| > 0 && Find(rest, d) == Some(p) && done + SplitSpec(rest, d) == SplitSpec(s, d)
    requires out == done + [rest[..p]] && next == rest[p + |d|..]
    ensures out + SplitSpec(next, d) == SplitSpec(s, d)
  {
    SplitUnfold(rest, d, p);
    AppendAssoc(done, [rest[..p]], SplitSpec(next, d));
  }

  /** The tokens joined with the delimiter between each pair. */
  function Join(ts: seq<string>, d: string): string
  {
    if |ts| == 0 then [] else if |ts| == 1 then ts[0] else ts[0] + d + Join(ts[1..], d)
  }

  /** Round-trip: joining the tokens with the delimiter gives the input back. */
  lemma {:induction false} JoinSplit(s: string, d: string)
    requires |d| > 0
    ensures Join(SplitSpec(s, d), d) == s
    decreases |s|
  {
    match Find(s, d)
    case None =>
    case Some(p) =>
      var rest := s[p + |d|..];
      SplitUnfold(s, d, p);
      JoinSplit(rest, d);
      JoinCons(s[..p], SplitSpec(rest, d), d);
      CutAround(s, d, p);
  }

  /** `split` cuts at the first occurrence `p`. */
  lemma SplitUnfold(s: string, d: string, p: nat)
    requires |d| > 0 && Find(s, d) == Some(p)
    ensures SplitSpec(s, d) == [s[..p]] + SplitSpec(s[p + |d|..], d)
  {
  }

  /** A string is the text before an occurrence, the occurrence, and the
      text after it. */
  lemma CutAround(s: string, d: string, p: nat)
    requires OccursAt(d, s, p)
    ensures s == s[..p] + d + s[p + |d|..]
  {
    assert s == s[..p] + s[p..p + |d|] + s[p + |d|..];
  }

  lemma JoinCons(a: string, ts: seq<string>, d: string)
    requires |ts| >= 1
    ensures Join([a] + ts, d) == a + d + Join(ts, d)
  {
    assert ([a] + ts)[1..] == ts;
  }

  /** No token holds the delimiter. */
  lemma {:induction false} SplitTokensFree(s: string, d: string)
    requires |d| > 0
    ensures forall k :: 0 <= k < |SplitSpec(s, d)| ==> !Contains(SplitSpec(s, d)[k], d)
    decreases |s|
  {
    match Find(s, d)
    case None =>
    case Some(p) =>
      var rest := s[p + |d|..];
      SplitTokensFree(rest, d);
      assert SplitSpec(s, d)[1..] == SplitSpec(rest, d);
      PrefixFree(s, d, p);
  }

  /** The text before the first occurrence holds no occurrence. */
  lemma PrefixFree(s: string, d: string, p: nat)
    requires |d| > 0 && p <= |s| && forall j :: 0 <= j < p ==> !OccursAt(d, s, j)
    ensures !Contains(s[..p], d)
  {
    forall j | 0 <= j <= p ensures !OccursAt(d, s[..p], j) {
      if j + |d| <= p {
        assert s[..p][j..j + |d|] == s[j..j + |d|];
        assert !OccursAt(d, s, j);
      }
    }
  }

  /** The number of non-overlapping occurrences of `d`, counted from the left. */
  function Occurrences(s: string, d: string): nat
    requires |d| > 0
    decreases |s|
  {
    if |s| < |d| then 0
    else if s[..|d|] == d then 1 + Occurrences(s[|d|..], d)
    else Occurrences(s[1..], d)
  }

  /** `split` yields one token more than there are occurrences. */
  lemma {:induction false} SplitCount(s: string, d: string)
    requires |d| > 0
    ensures |SplitSpec(s, d)| == Occurrences(s, d) + 1
    decreases |s|
  {
    match Find(s, d)
    case None =>
      NoOccurrences(s, d);
    case Some(p) =>
      var rest := s[p + |d|..];
      assert SplitSpec(s, d) == [s[..p]] + SplitSpec(rest, d);
      SplitCount(rest, d);
      SkipFree(s, d, p);
      assert s[p..][..|d|] == d;
      assert s[p..][|d|..] == rest;
      assert Occurrences(s[p..], d) == 1 + Occurrences(rest, d);
  }

  lemma {:induction false} NoOccurrences(s: string, d: string)
    requires |d| > 0 && forall j :: 0 <= j <= |s| ==> !OccursAt(d, s, j)
    ensures Occurrences(s, d) == 0
    decreases |s|
  {
    if |s| >= |d| {
      assert !OccursAt(d, s, 0);
      forall j | 0 <= j <= |s[1..]| ensures !OccursAt(d, s[1..], j) {
        assert !OccursAt(d, s, j + 1);
        assert j + |d| <= |s[1..]| ==> s[1..][j..j + |d|] == s[j + 1..j + 1 + |d|];
      }
      NoOccurrences(s[1..], d);
    }
  }

  /** Positions without an occurrence do not count. */
  lemma {:induction false} SkipFree(s: string, d: string, p: nat)
    requires |d| > 0 && p <= |s| && forall j :: 0 <= j < p ==> !OccursAt(d, s, j)
    ensures Occurrences(s, d) == Occurrences(s[p..], d)
    decreases p
  {
    if p > 0 {
      assert !OccursAt(d, s, 0);
      if |s| >= |d| {
        forall j | 0 <= j < p - 1 ensures !OccursAt(d, s[1..], j) {
          assert !OccursAt(d, s, j + 1);
          assert j + |d| <= |s[1..]| ==> s[1..][j..j + |d|] == s[j + 1..j + 1 + |d|];
        }
        SkipFree(s[1..], d, p - 1);
        assert s[1..][p - 1..] == s[p..];
      } else {
        assert |s[p..]| < |d|;
      }
    }
  }

  /** The first occurrence of a character that `a` does not hold is right
      after `a`. */
  lemma FindChar(a: string, c: char, b: string)
    requires c !in a
    ensures Find(a + [c] + b, [c]) == Some(|a|)
  {
    var s := a + [c] + b;
    assert s[|a|..|a| + 1] == [c];
    assert OccursAt([c], s, |a|);
    forall j | 0 <= j < |a| ensures !OccursAt([c], s, j) {
      assert s[j..j + 1] == [a[j]];
    }
  }

  lemma FindCharNone(a: string, c: char)
    requires c !in a
    ensures Find(a, [c]) == None
  {
    forall j | 0 <= j < |a| ensures !OccursAt([c], a, j) {
      assert a[j..j + 1] == [a[j]];
    }
  }

  /** Round-trip the other way for a one-character delimiter: splitting
      tokens joined with a character none of them holds gives them back. */
  lemma {:induction false} SplitJoinChar(ts: seq<string>, c: char)
    requires |ts| >= 1 && forall k :: 0 <= k < |ts| ==> c !in ts[k]
    ensures SplitSpec(Join(ts, [c]), [c]) == ts
    decreases |ts|
  {
    if |ts| == 1 {
      FindCharNone(ts[0], c);
    } else {
      var rest := Join(ts[1..], [c]);
      assert Join(ts, [c]) == ts[0] + [c] + rest;
      FindChar(ts[0], c, rest);
      assert (ts[0] + [c] + rest)[..|ts[0]|] == ts[0];
      assert (ts[0] + [c] + rest)[|ts[0]| + 1..] == rest;
      SplitJoinChar(ts[1..], c);
    }
  }

  /** `starts_with`: `str.rfind(prefix, 0) == 0`. */
  function StartsWith(str: string, prefix: string): (r: bool)
    ensures r <==> exists t :: str == prefix + t
  {
    if |prefix| <= |str| && str[..|prefix|] == prefix then
      assert str == prefix + str[|prefix|..];
      true
    else
      false
  }

  /** `ends_with`: false when the ending is longer than the string,
      otherwise a comparison of the tail. */
  function EndsWith(path: string, ending: string): (r: bool)
    ensures r <==> exists t :: path == t + ending
    ensures |ending| > |path| ==> !r
  {
    if |path| >= |ending| then
      if path[|path| - |ending|..] == ending then
        assert path == path[..|path| - |ending|] + ending;
        true
      else
        false
    else
      false
  }

  /** `contains`: `str.find(substr) != npos`. */
  function ContainsStr(str: string, substr: string): (r: bool)
    ensures r <==> Contains(str, substr)
  {
    Find(str, substr).Some?
  }

  predicate InvalidChar(c: char)
  {
    c == ':' || c == '[' || c == ']' || c == '{' || c == '}'
  }

  /** `contains_invalid_chars`: `std::any_of` over the characters. */
  function ContainsInvalidChars(path: string): (r: bool)
    ensures r <==> exists i :: 0 <= i < |path| && InvalidChar(path[i])
  {
    if path == [] then false
    else if InvalidChar(path[0]) then true
    else
      assert forall i :: 1 <= i < |path| ==> path[i] == path[1..][i - 1];
      ContainsInvalidChars(path[1..])
  }
}

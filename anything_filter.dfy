/** The filter after the tokenizer: it drops English stop words and
    one-letter words, and passes terms that start with a digit, an "other
    letter" or a dot. */
module AnythingFilter {
  import AnythingTokenizer

  /** `STOP_WORDS`. */
  const STOP_WORDS: set<string> := {
    "and", "are", "as", "at", "be", "but", "by",
    "for", "if", "in", "into", "is", "it",
    "no", "not", "of", "on", "or", "such",
    "that", "the", "their", "then", "there", "these",
    "they", "this", "to", "was", "will", "with"}

  /** Whether a term passes. A term is never empty (the tokenizer emits at
      least one character), and an empty one is dropped. */
  predicate Keep(kind: char -> AnythingTokenizer.CharKind, text: string): (b: bool)
    ensures b ==> text !in STOP_WORDS && |text| > 0
    ensures b ==> kind(text[0]) != AnythingTokenizer.NoKind || AnythingTokenizer.IsDot(text[0])
    ensures b && kind(text[0]) == AnythingTokenizer.Letter ==> |text| > 1
  {
    text !in STOP_WORDS && |text| > 0
    && (if kind(text[0]) == AnythingTokenizer.Letter then |text| > 1
        else kind(text[0]) == AnythingTokenizer.OtherLetter || kind(text[0]) == AnythingTokenizer.Digit
             || AnythingTokenizer.IsDot(text[0]))
  }

  /** The terms that pass, in their order. */
  function Kept(kind: char -> AnythingTokenizer.CharKind, ts: seq<string>): (r: seq<string>)
    ensures |r| <= |ts|
    ensures forall k :: 0 <= k < |r| ==> Keep(kind, r[k]) && r[k] in ts
  {
    if ts == [] then []
    else (if Keep(kind, ts[0]) then [ts[0]] else []) + Kept(kind, ts[1..])
  }

  /** The filter over the terms its input stream will give. */
  class Filter {
    const kind: char -> AnythingTokenizer.CharKind
    const input: seq<string>
    var pos: nat
    var term: string

    ghost predicate Valid()
      reads this
    {
      pos <= |input|
    }

    constructor (kind: char -> AnythingTokenizer.CharKind, input: seq<string>)
      ensures Valid() && pos == 0 && this.input == input && this.kind == kind
    {
      this.kind := kind;
      this.input := input;
      pos := 0;
      term := [];
    }

    /** `incrementToken`: pull terms until one passes; false only once the
        input is exhausted. What it returns and what is still to come are
        exactly the passing terms that remained. */
    method IncrementToken() returns (has: bool)
      requires Valid()
      modifies this`pos, this`term
      ensures Valid() && old(pos) <= pos
      ensures Kept(kind, old(input[pos..])) == (if has then [term] else []) + Kept(kind, input[pos..])
      ensures has ==> Keep(kind, term)
      ensures !has ==> pos == |input|
    {
      while pos < |input|
        invariant Valid() && old(pos) <= pos
        invariant Kept(kind, input[old(pos)..]) == Kept(kind, input[pos..])
        decreases |input| - pos
      {
        var text := input[pos];
        KeptFirst(kind, input, pos);
        pos := pos + 1;
        if Keep(kind, text) {
          term := text;
          return true;
        }
      }
      return false;
    }
  }

  /** Filtering the terms from `pos` on is deciding the term at `pos`,
      then filtering the rest. */
  lemma KeptFirst(kind: char -> AnythingTokenizer.CharKind, ts: seq<string>, pos: nat)
    requires pos < |ts|
    ensures Kept(kind, ts[pos..]) == (if Keep(kind, ts[pos]) then [ts[pos]] else []) + Kept(kind, ts[pos + 1..])
  {
    assert ts[pos..][1..] == ts[pos + 1..];
  }

  /** Stop words never pass. */
  lemma StopWordsDropped(kind: char -> AnythingTokenizer.CharKind, ts: seq<string>)
    ensures forall k :: 0 <= k < |Kept(kind, ts)| ==> Kept(kind, ts)[k] !in STOP_WORDS
  {
  }

  /** A one-letter term is dropped; a longer one passes unless it is a stop word. */
  lemma LetterTerms(kind: char -> AnythingTokenizer.CharKind, text: string)
    requires |text| >= 1 && kind(text[0]) == AnythingTokenizer.Letter
    ensures |text| == 1 ==> !Keep(kind, text)
    ensures |text| > 1 ==> (Keep(kind, text) <==> text !in STOP_WORDS)
  {
  }

  /** A term led by a digit, an "other letter" or a dot passes unless it is
      a stop word. */
  lemma OtherTerms(kind: char -> AnythingTokenizer.CharKind, text: string)
    requires |text| >= 1 && kind(text[0]) != AnythingTokenizer.Letter
    requires kind(text[0]) in {AnythingTokenizer.Digit, AnythingTokenizer.OtherLetter} || text[0] == '.'
    ensures Keep(kind, text) <==> text !in STOP_WORDS
  {
  }

  /** Filtering keeps the order: the terms of two runs of input pass as
      the terms of each run, one after the other. */
  lemma {:induction false} KeptAppend(kind: char -> AnythingTokenizer.CharKind, a: seq<string>, b: seq<string>)
    ensures Kept(kind, a + b) == Kept(kind, a) + Kept(kind, b)
    decreases |a|
  {
    if a != [] {
      var head := if Keep(kind, a[0]) then [a[0]] else [];
      assert (a + b)[0] == a[0] && (a + b)[1..] == a[1..] + b;
      assert Kept(kind, a + b) == head + Kept(kind, a[1..] + b);
      KeptAppend(kind, a[1..], b);
      assert Kept(kind, a) == head + Kept(kind, a[1..]);
    } else {
      assert a + b == b;
    }
  }

  /** Filtering twice is filtering once. */
  lemma {:induction false} KeptIdempotent(kind: char -> AnythingTokenizer.CharKind, ts: seq<string>)
    ensures Kept(kind, Kept(kind, ts)) == Kept(kind, ts)
    decreases |ts|
  {
    if ts != [] {
      var head := if Keep(kind, ts[0]) then [ts[0]] else [];
      KeptAppend(kind, head, Kept(kind, ts[1..]));
      KeptIdempotent(kind, ts[1..]);
    }
  }
}

/** The search index's tokenizer: it reads its input in chunks of 1024
    characters and cuts it into lowercased terms of letters and digits, with
    '+', '#' and a '.' between digits allowed inside a term, and each
    "other letter" (a CJK character, say) a term of its own. */
module AnythingTokenizer {
  import opened Common

  const MAX_WORD_LEN: nat := 512
  const IO_BUFFER_SIZE: nat := 1024

  /** The Unicode class Lucene++'s `UnicodeUtil` gives a character:
      lower or upper case letter, decimal digit, other letter, or none. */
  datatype CharKind = Letter | Digit | OtherLetter | NoKind

  predicate IsSymbol(c: char)
  {
    c == '+' || c == '#'
  }

  predicate IsDot(c: char)
  {
    c == '.'
  }

  /** The branch of the tokenizer's loop a character takes, in the order
      the branches are tested. */
  datatype Class = Alpha | Num | Sym | Dot | Other | Blank

  function ClassOf(kind: char -> CharKind, c: char): Class
  {
    if kind(c) == Letter then Alpha
    else if kind(c) == Digit then Num
    else if IsSymbol(c) then Sym
    else if IsDot(c) then Dot
    else if kind(c) == OtherLetter then Other
    else Blank
  }

  /** What one pass of the loop does with the character it has just read:
      skip it, push it, push it and emit, emit without it, or give it back
      to the input and emit. */
  datatype Step = Skip | Take | TakeEmit | Emit | GiveBackEmit

  /** The decision as the source makes it, for a pending term of `len`
      characters. `letterSeen` is `last_is_en || last_is_sym`, `digitSeen`
      is `last_is_num`, `nextIsDigit` looks at the next character of the
      chunk and `nearChunkEnd` is `bufferIndex_ >= dataLen_ - 1`. */
  function StepAsWritten(cls: Class, c: char, len: nat, letterSeen: bool, digitSeen: bool,
                         nextIsDigit: bool, nearChunkEnd: bool): (r: Step)
    ensures r == Skip <==> cls == Blank && len == 0
    ensures r == GiveBackEmit <==> cls == Other && len > 0
    ensures r == Take ==> cls != Blank && cls != Other
    ensures r == Take && cls == Sym ==> letterSeen
    ensures r == Take && cls == Dot ==> digitSeen && nextIsDigit
    ensures (cls == Alpha || cls == Num) && len + 1 == MAX_WORD_LEN ==> r == TakeEmit
  {
    match cls
    case Alpha =>
      if len + 1 == MAX_WORD_LEN then TakeEmit
      else if nearChunkEnd && len == 0 && (c == 'c' || c == 'r' || c == 'a') then TakeEmit
      else Take
    case Num => if len + 1 == MAX_WORD_LEN then TakeEmit else Take
    case Sym => if letterSeen then Take else Emit
    case Dot => if digitSeen && nextIsDigit then Take else Emit
    case Other => if len > 0 then GiveBackEmit else TakeEmit
    case Blank => if len > 0 then Emit else Skip
  }

  /** The decision with the buffer size respected: where the code would
      push a character into the full buffer, the term is emitted and the
      character given back to start the next call. With room in the buffer
      it is the code's own decision. */
  function Decide(cls: Class, c: char, len: nat, letterSeen: bool, digitSeen: bool,
                  nextIsDigit: bool, nearChunkEnd: bool): (r: Step)
    requires len <= MAX_WORD_LEN
    ensures len < MAX_WORD_LEN ==> r == StepAsWritten(cls, c, len, letterSeen, digitSeen, nextIsDigit, nearChunkEnd)
    ensures r != StepAsWritten(cls, c, len, letterSeen, digitSeen, nextIsDigit, nearChunkEnd) ==>
      len == MAX_WORD_LEN && StepAsWritten(cls, c, len, letterSeen, digitSeen, nextIsDigit, nearChunkEnd) == Take && r == GiveBackEmit
    ensures r == Take ==> len + 1 <= MAX_WORD_LEN && cls != Blank && cls != Other
    ensures r == Take && cls == Sym ==> letterSeen
    ensures r == Take && cls == Dot ==> digitSeen && nextIsDigit
    ensures r == TakeEmit ==> cls != Blank && len + 1 <= MAX_WORD_LEN
    ensures r == TakeEmit && cls == Other ==> len == 0
    ensures r == TakeEmit && cls == Sym ==> letterSeen
    ensures r == TakeEmit && cls == Dot ==> digitSeen && nextIsDigit
    ensures r == GiveBackEmit ==> len > 0 && (cls == Other || len == MAX_WORD_LEN)
    ensures r == Skip ==> cls == Blank && len == 0
    ensures r == Emit ==> (cls == Blank || cls == Sym || cls == Dot) && (cls == Blank ==> len > 0)
  {
    var s := StepAsWritten(cls, c, len, letterSeen, digitSeen, nextIsDigit, nearChunkEnd);
    if s == Take && len == MAX_WORD_LEN then GiveBackEmit else s
  }

  /** As written, a '+' after a letter is pushed whatever the length: once
      a letter and 511 symbols fill the 512-character buffer, the next '+'
      goes to index 512, and a letter after it is pushed as well because the
      length check tests for equality with 512. */
  lemma SymbolOverrun()
    ensures StepAsWritten(Sym, '+', MAX_WORD_LEN - 1, true, false, false, false) == Take
    ensures StepAsWritten(Sym, '+', MAX_WORD_LEN, true, false, false, false) == Take
    ensures StepAsWritten(Alpha, 'x', MAX_WORD_LEN + 1, true, false, false, false) == Take
    ensures StepAsWritten(Dot, '.', MAX_WORD_LEN, false, true, true, false) == Take
  {
  }

  /** With the check, no push takes the pending term past the buffer, and
      with the buffer full nothing is pushed. */
  lemma PushFits(cls: Class, c: char, len: nat, letterSeen: bool, digitSeen: bool, nextIsDigit: bool, nearChunkEnd: bool)
    requires len <= MAX_WORD_LEN
    ensures Decide(cls, c, len, letterSeen, digitSeen, nextIsDigit, nearChunkEnd).Take? || Decide(cls, c, len, letterSeen, digitSeen, nextIsDigit, nearChunkEnd).TakeEmit? ==> len + 1 <= MAX_WORD_LEN
    ensures len == MAX_WORD_LEN ==> !Decide(cls, c, len, letterSeen, digitSeen, nextIsDigit, nearChunkEnd).Take? && !Decide(cls, c, len, letterSeen, digitSeen, nextIsDigit, nearChunkEnd).TakeEmit?
  {
  }

  /** With the buffer full: a '+' the code would push into index 512 ends
      the term and is read again; a dot that no digit precedes ends the term
      and is consumed, as in the code, so on "a", 511 '+', ".b c" the next
      calls go on to "b" and "c". */
  lemma FullBuffer()
    ensures Decide(Sym, '+', MAX_WORD_LEN, true, false, false, false) == GiveBackEmit
    ensures Decide(Dot, '.', MAX_WORD_LEN, true, false, false, false) == Emit
    ensures Decide(Dot, '.', MAX_WORD_LEN, false, true, true, false) == GiveBackEmit
    ensures Decide(Alpha, 'x', MAX_WORD_LEN, true, false, false, false) == GiveBackEmit
  {
  }

  /** Where the chunk holding index `at` ends: the reader hands out the
      input 1024 characters at a time from its start. */
  function ChunkEnd(n: nat, at: nat): (r: nat)
    requires at < n
    ensures at < r <= n && r <= at + IO_BUFFER_SIZE
    decreases at
  {
    if at < IO_BUFFER_SIZE then (if n < IO_BUFFER_SIZE then n else IO_BUFFER_SIZE)
    else IO_BUFFER_SIZE + ChunkEnd(n - IO_BUFFER_SIZE, at - IO_BUFFER_SIZE)
  }

  /** What one call ends with: whether it emits, the position after the
      last character it consumed, and the term's start and length. */
  datatype Outcome = Outcome(has: bool, pos: nat, start: nat, len: nat)

  /** The decision for the character at `pos`, with a term of `len`
      characters pending. Its look-ahead stops at the end of its chunk. */
  function StepAt(kind: char -> CharKind, text: string, pos: nat, len: nat, letterSeen: bool, digitSeen: bool): Step
    requires pos < |text| && len <= MAX_WORD_LEN
  {
    var nextIsDigit := pos + 1 < ChunkEnd(|text|, pos) && kind(text[pos + 1]) == Digit;
    var nearChunkEnd := pos + 2 >= ChunkEnd(|text|, pos);
    Decide(ClassOf(kind, text[pos]), text[pos], len, letterSeen, digitSeen, nextIsDigit, nearChunkEnd)
  }

  /** One call of `incrementToken` from input position `pos`, with a term
      of `len` characters from `start` pending and `letterSeen`/`digitSeen`
      standing for `last_is_en || last_is_sym` and `last_is_num`. */
  function Scan(kind: char -> CharKind, text: string, pos: nat, start: nat, len: nat,
                letterSeen: bool, digitSeen: bool): (o: Outcome)
    requires start + len <= pos <= |text| && len <= MAX_WORD_LEN
    ensures pos <= o.pos <= |text| && o.start + o.len <= o.pos
    ensures o.has ==> 1 <= o.len <= MAX_WORD_LEN
    decreases |text| - pos
  {
    if pos == |text| then Outcome(len > 0, pos, start, len)
    else
      var cls := ClassOf(kind, text[pos]);
      var start' := if len == 0 then pos else start;
      match StepAt(kind, text, pos, len, letterSeen, digitSeen)
      case Skip => Scan(kind, text, pos + 1, start, len, letterSeen, digitSeen)
      case Take => Scan(kind, text, pos + 1, start', len + 1, letterSeen || cls == Alpha, digitSeen || cls == Num)
      case TakeEmit => Outcome(true, pos + 1, start', len + 1)
      case Emit => Outcome(len > 0, pos + 1, start, len)
      case GiveBackEmit => Outcome(true, pos, start, len)
  }

  /** Some character of `text[lo..hi]` takes branch `cl`. */
  predicate Seen(kind: char -> CharKind, text: string, lo: int, hi: int, cl: Class)
    decreases hi - lo
  {
    0 <= lo < hi <= |text| && (Seen(kind, text, lo, hi - 1, cl) || ClassOf(kind, text[hi - 1]) == cl)
  }

  /** `Seen` is "some index in the range has the class". */
  lemma {:induction false} SeenSome(kind: char -> CharKind, text: string, lo: int, hi: int, cl: Class)
    requires 0 <= lo && hi <= |text|
    ensures Seen(kind, text, lo, hi, cl) <==> exists j :: lo <= j < hi && ClassOf(kind, text[j]) == cl
    decreases hi - lo
  {
    if lo < hi {
      SeenSome(kind, text, lo, hi - 1, cl);
      if ClassOf(kind, text[hi - 1]) == cl {
        assert lo <= hi - 1 < hi;
      }
    }
  }

  /** Every character of `text[lo..hi]` is one the tokenizer skips. */
  predicate BlankRun(kind: char -> CharKind, text: string, lo: int, hi: int)
    decreases hi - lo
  {
    0 <= lo <= hi <= |text| && (lo == hi || (BlankRun(kind, text, lo, hi - 1) && ClassOf(kind, text[hi - 1]) == Blank))
  }

  /** `BlankRun` is "every index in the range has class `Blank`". */
  lemma {:induction false} BlankRunAll(kind: char -> CharKind, text: string, lo: int, hi: int)
    requires 0 <= lo <= hi <= |text|
    ensures BlankRun(kind, text, lo, hi) <==> forall i :: lo <= i < hi ==> ClassOf(kind, text[i]) == Blank
    decreases hi - lo
  {
    if lo < hi {
      BlankRunAll(kind, text, lo, hi - 1);
    }
  }

  /** The character at `i` is allowed where it is in a term starting at
      `start`: a symbol only after some letter of the term, a dot only after
      some digit of the term and before a digit. */
  predicate Placed(kind: char -> CharKind, text: string, start: int, i: int)
    requires 0 <= i < |text|
  {
    ClassOf(kind, text[i]) != Blank && ClassOf(kind, text[i]) != Other
    && (ClassOf(kind, text[i]) == Sym ==> Seen(kind, text, start, i, Alpha))
    && (ClassOf(kind, text[i]) == Dot ==> Seen(kind, text, start, i, Num) && i + 1 < |text| && kind(text[i + 1]) == Digit)
  }

  /** The characters of a term still being built. */
  predicate Pending(kind: char -> CharKind, text: string, start: int, len: int)
    decreases len
  {
    0 <= start && 0 <= len && start + len <= |text|
    && (len == 0 || (Pending(kind, text, start, len - 1) && Placed(kind, text, start, start + len - 1)))
  }

  /** `Pending` is "every character of the term is placed". */
  lemma {:induction false} PendingAll(kind: char -> CharKind, text: string, start: int, len: int)
    requires 0 <= start && 0 <= len && start + len <= |text|
    ensures Pending(kind, text, start, len) <==> forall i :: start <= i < start + len ==> Placed(kind, text, start, i)
    decreases len
  {
    if len > 0 {
      PendingAll(kind, text, start, len - 1);
    }
  }

  /** An emitted term: one "other letter", or 1 to 512 characters each
      placed as `Placed` says. */
  predicate Term(kind: char -> CharKind, text: string, start: int, len: int)
  {
    1 <= len <= MAX_WORD_LEN && 0 <= start && start + len <= |text|
    && ((len == 1 && ClassOf(kind, text[start]) == Other) || Pending(kind, text, start, len))
  }

  /** A call that starts reading at `from` and stops before `pos` emitted
      the term of `len` characters at `start`: blanks up to `start`, the
      term's characters, and at most the character that ended it. */
  predicate Emitted(kind: char -> CharKind, text: string, from: int, pos: int, start: int, len: int)
  {
    Term(kind, text, start, len) && BlankRun(kind, text, from, start)
    && start + len <= pos <= start + len + 1 && pos <= |text|
  }

  /** A call that starts reading at `from` and stops before `pos` emitted
      nothing: it skipped blanks until the end of the input, or until a
      symbol or dot that no term was pending for. */
  predicate Exhausted(kind: char -> CharKind, text: string, from: int, pos: int)
  {
    (pos == |text| && BlankRun(kind, text, from, pos))
    || (0 <= from < pos <= |text| && (ClassOf(kind, text[pos - 1]) == Sym || ClassOf(kind, text[pos - 1]) == Dot) && BlankRun(kind, text, from, pos - 1))
  }

  /** A pending term grows by a character that is placed. */
  lemma PendingSnoc(kind: char -> CharKind, text: string, start: int, len: int)
    requires Pending(kind, text, start, len) && start + len < |text| && Placed(kind, text, start, start + len)
    ensures Pending(kind, text, start, len + 1)
  {
  }

  /** What one push does to the facts kept about the pending term
      `text[start..start + len]` (with `len` zero, `start` is the position
      of the character pushed). */
  lemma TakeStep(kind: char -> CharKind, text: string, start: int, len: nat, at: int,
                 letterSeen: bool, digitSeen: bool, nextIsDigit: bool, nearChunkEnd: bool)
    requires Pending(kind, text, start, len) && at == start + len < |text| && len < MAX_WORD_LEN
    requires letterSeen == Seen(kind, text, start, start + len, Alpha)
    requires digitSeen == Seen(kind, text, start, start + len, Num)
    requires nextIsDigit ==> at + 1 < |text| && kind(text[at + 1]) == Digit
    requires var step := Decide(ClassOf(kind, text[at]), text[at], len, letterSeen, digitSeen, nextIsDigit, nearChunkEnd);
      step == Take || step == TakeEmit
    ensures var cls := ClassOf(kind, text[at]);
      && (cls != Other ==> Pending(kind, text, start, len + 1))
      && Term(kind, text, start, len + 1)
      && (Seen(kind, text, start, start + len + 1, Alpha) <==> letterSeen || cls == Alpha)
      && (Seen(kind, text, start, start + len + 1, Num) <==> digitSeen || cls == Num)
  {
    var cls := ClassOf(kind, text[at]);
    if cls != Other {
      assert Placed(kind, text, start, at);
      PendingSnoc(kind, text, start, len);
    }
  }

  /** What a call from `from` that ends with `o` did: emitted a term as
      `Emitted` says, or nothing as `Exhausted` says. */
  predicate Sound(kind: char -> CharKind, text: string, from: int, o: Outcome)
  {
    (o.has ==> Emitted(kind, text, from, o.pos, o.start, o.len)) && (!o.has ==> Exhausted(kind, text, from, o.pos))
  }

  /** The facts a call keeps while it reads from `from`: blanks so far, or
      blanks and then the pending term up to `pos`, and the flags. */
  predicate Inv(kind: char -> CharKind, text: string, from: nat, pos: nat, start: nat, len: nat,
                letterSeen: bool, digitSeen: bool)
  {
    start + len <= pos <= |text| && len <= MAX_WORD_LEN
    && (len == 0 ==> BlankRun(kind, text, from, pos))
    && (len > 0 ==> from <= start && start + len == pos && BlankRun(kind, text, from, start))
    && Pending(kind, text, start, len)
    && letterSeen == Seen(kind, text, start, start + len, Alpha)
    && digitSeen == Seen(kind, text, start, start + len, Num)
  }

  /** What a call emits: from `from`, with the facts the loop keeps about
      the pending term, the call either emits a term as `Emitted` says or
      stops as `Exhausted` says. */
  lemma {:induction false} ScanSound(kind: char -> CharKind, text: string, from: nat, pos: nat, start: nat, len: nat,
                                     letterSeen: bool, digitSeen: bool)
    requires Inv(kind, text, from, pos, start, len, letterSeen, digitSeen)
    ensures Sound(kind, text, from, Scan(kind, text, pos, start, len, letterSeen, digitSeen))
    decreases |text| - pos, 1
  {
    if pos == |text| {
      assert Scan(kind, text, pos, start, len, letterSeen, digitSeen) == Outcome(len > 0, pos, start, len);
      if len > 0 {
        PendingEmitted(kind, text, from, pos, start, len);
      }
    } else {
      var step := StepAt(kind, text, pos, len, letterSeen, digitSeen);
      if step == Skip {
        SkipSound(kind, text, from, pos, start, len, letterSeen, digitSeen);
      } else if step == Take {
        TakeSound(kind, text, from, pos, start, len, letterSeen, digitSeen);
      } else {
        StopSound(kind, text, from, pos, start, len, letterSeen, digitSeen);
      }
    }
  }

  /** A skipped blank extends the run of blanks. */
  lemma {:induction false} SkipSound(kind: char -> CharKind, text: string, from: nat, pos: nat, start: nat, len: nat,
                                     letterSeen: bool, digitSeen: bool)
    requires Inv(kind, text, from, pos, start, len, letterSeen, digitSeen)
    requires pos < |text| && StepAt(kind, text, pos, len, letterSeen, digitSeen) == Skip
    ensures Sound(kind, text, from, Scan(kind, text, pos, start, len, letterSeen, digitSeen))
    decreases |text| - pos, 0
  {
    ScanStep(kind, text, pos, start, len, letterSeen, digitSeen);
    ScanSound(kind, text, from, pos + 1, start, len, letterSeen, digitSeen);
  }

  /** A pushed character extends the pending term. */
  lemma {:induction false} TakeSound(kind: char -> CharKind, text: string, from: nat, pos: nat, start: nat, len: nat,
                                     letterSeen: bool, digitSeen: bool)
    requires Inv(kind, text, from, pos, start, len, letterSeen, digitSeen)
    requires pos < |text| && StepAt(kind, text, pos, len, letterSeen, digitSeen) == Take
    ensures Sound(kind, text, from, Scan(kind, text, pos, start, len, letterSeen, digitSeen))
    decreases |text| - pos, 0
  {
    var cls := ClassOf(kind, text[pos]);
    var start' := if len == 0 then pos else start;
    var ls, ds := letterSeen || cls == Alpha, digitSeen || cls == Num;
    var nextIsDigit := pos + 1 < ChunkEnd(|text|, pos) && kind(text[pos + 1]) == Digit;
    var nearChunkEnd := pos + 2 >= ChunkEnd(|text|, pos);
    if len == 0 {
      assert !Seen(kind, text, pos, pos, Alpha) && !Seen(kind, text, pos, pos, Num);
    }
    TakeStep(kind, text, start', len, pos, letterSeen, digitSeen, nextIsDigit, nearChunkEnd);
    ScanStep(kind, text, pos, start, len, letterSeen, digitSeen);
    ScanSound(kind, text, from, pos + 1, start', len + 1, ls, ds);
  }

  /** One step of a call: what `Scan` from `pos` is, for each decision
      at `pos`. */
  lemma ScanStep(kind: char -> CharKind, text: string, pos: nat, start: nat, len: nat, letterSeen: bool, digitSeen: bool)
    requires start + len <= pos < |text| && len <= MAX_WORD_LEN
    ensures StepAt(kind, text, pos, len, letterSeen, digitSeen) == Skip ==>
      Scan(kind, text, pos, start, len, letterSeen, digitSeen) == Scan(kind, text, pos + 1, start, len, letterSeen, digitSeen)
    ensures StepAt(kind, text, pos, len, letterSeen, digitSeen) == Take ==>
      Scan(kind, text, pos, start, len, letterSeen, digitSeen)
      == Scan(kind, text, pos + 1, if len == 0 then pos else start, len + 1,
              letterSeen || ClassOf(kind, text[pos]) == Alpha, digitSeen || ClassOf(kind, text[pos]) == Num)
    ensures StepAt(kind, text, pos, len, letterSeen, digitSeen) == TakeEmit ==>
      Scan(kind, text, pos, start, len, letterSeen, digitSeen) == Outcome(true, pos + 1, if len == 0 then pos else start, len + 1)
    ensures StepAt(kind, text, pos, len, letterSeen, digitSeen) == Emit ==>
      Scan(kind, text, pos, start, len, letterSeen, digitSeen) == Outcome(len > 0, pos + 1, start, len)
    ensures StepAt(kind, text, pos, len, letterSeen, digitSeen) == GiveBackEmit ==>
      Scan(kind, text, pos, start, len, letterSeen, digitSeen) == Outcome(true, pos, start, len)
  {
  }

  /** The steps that end the call. */
  lemma StopSound(kind: char -> CharKind, text: string, from: nat, pos: nat, start: nat, len: nat,
                  letterSeen: bool, digitSeen: bool)
    requires Inv(kind, text, from, pos, start, len, letterSeen, digitSeen)
    requires pos < |text| && StepAt(kind, text, pos, len, letterSeen, digitSeen) != Skip && StepAt(kind, text, pos, len, letterSeen, digitSeen) != Take
    ensures Sound(kind, text, from, Scan(kind, text, pos, start, len, letterSeen, digitSeen))
  {
    var step := StepAt(kind, text, pos, len, letterSeen, digitSeen);
    var o := Scan(kind, text, pos, start, len, letterSeen, digitSeen);
    var start' := if len == 0 then pos else start;
    var nextIsDigit := pos + 1 < ChunkEnd(|text|, pos) && kind(text[pos + 1]) == Digit;
    var nearChunkEnd := pos + 2 >= ChunkEnd(|text|, pos);
    if step == TakeEmit {
      if len == 0 {
        assert !Seen(kind, text, pos, pos, Alpha) && !Seen(kind, text, pos, pos, Num);
      }
      TakeStep(kind, text, start', len, pos, letterSeen, digitSeen, nextIsDigit, nearChunkEnd);
      assert o == Outcome(true, pos + 1, start', len + 1);
    } else if step == Emit {
      assert o == Outcome(len > 0, pos + 1, start, len);
      if len > 0 {
        PendingEmitted(kind, text, from, pos + 1, start, len);
      }
    } else {
      assert o == Outcome(true, pos, start, len);
      PendingEmitted(kind, text, from, pos, start, len);
    }
  }

  /** A pending term of at least one character is a term that may be emitted. */
  lemma PendingEmitted(kind: char -> CharKind, text: string, from: int, pos: int, start: int, len: int)
    requires Pending(kind, text, start, len) && 1 <= len <= MAX_WORD_LEN && BlankRun(kind, text, from, start)
    requires start + len <= pos <= start + len + 1 && pos <= |text|
    ensures Emitted(kind, text, from, pos, start, len)
  {
  }

  /** A call from `pos` starts with nothing pending; the term-level
      meaning of every call. */
  lemma IncrementTokenMeaning(kind: char -> CharKind, text: string, pos: nat)
    requires pos <= |text|
    ensures Sound(kind, text, pos, Scan(kind, text, pos, pos, 0, false, false))
  {
    assert !Seen(kind, text, pos, pos, Alpha) && !Seen(kind, text, pos, pos, Num);
    ScanSound(kind, text, pos, pos, pos, 0, false, false);
  }

  /** A '+', '#' or '.' read while no term is pending ends the stream:
      the call returns false with input left, so in "file (1).txt" the
      text after the dot is never read. */
  lemma StrayPunctuationStops(kind: char -> CharKind, text: string, pos: nat)
    requires pos < |text| && (ClassOf(kind, text[pos]) == Sym || ClassOf(kind, text[pos]) == Dot)
    ensures Scan(kind, text, pos, pos, 0, false, false) == Outcome(false, pos + 1, pos, 0)
  {
  }

  /** Each "other letter" is a term of its own, and it ends the term before it. */
  lemma OtherLetterAlone(kind: char -> CharKind, text: string, pos: nat, start: nat, len: nat, letterSeen: bool, digitSeen: bool)
    requires start + len == pos < |text| && len <= MAX_WORD_LEN && ClassOf(kind, text[pos]) == Other
    ensures Scan(kind, text, pos, start, len, letterSeen, digitSeen)
      == if len == 0 then Outcome(true, pos + 1, pos, 1) else Outcome(true, pos, start, len)
  {
  }

  /** `CharFolder::toLower` applied to each character. */
  function Folded(fold: char -> char, s: string): (r: string)
    ensures |r| == |s| && forall i :: 0 <= i < |s| ==> r[i] == fold(s[i])
  {
    seq(|s|, i requires 0 <= i < |s| => fold(s[i]))
  }

  /** A multiple of 1024: where a chunk of the reader starts. */
  ghost predicate Aligned(s: int)
    decreases if s < 0 then 0 else s
  {
    s == 0 || (s >= IO_BUFFER_SIZE && Aligned(s - IO_BUFFER_SIZE))
  }

  /** The index arithmetic of the reader: the chunk that starts at the
      aligned `s` and holds `at` ends where `ChunkEnd` says. */
  lemma {:induction false} ChunkAt(n: nat, s: nat, len: nat, at: nat)
    requires Aligned(s) && s <= at < s + len <= n && len <= IO_BUFFER_SIZE
    requires len == IO_BUFFER_SIZE || s + len == n
    ensures ChunkEnd(n, at) == s + len
    decreases s
  {
    if s > 0 {
      ChunkAt(n - IO_BUFFER_SIZE, s - IO_BUFFER_SIZE, len, at - IO_BUFFER_SIZE);
    }
  }

  /** The tokenizer's side of the reader: how much of the input the string
      reader has handed out (`consumed`), the last chunk it handed out
      (`ioBuffer_`), that chunk's length or -1 once the reader is exhausted
      (`dataLen_`), and the index of the next character in it
      (`bufferIndex_`). */
  datatype Reader = Reader(consumed: nat, ioBuffer: seq<char>, dataLen: int, bufferIndex: int)

  /** The chunk agrees with the input: it is the part of the input just
      before what the reader has handed out, it starts at a multiple of
      1024, and only the last chunk is short. */
  ghost predicate ChunkOk(text: string, r: Reader)
  {
    r.consumed <= |text|
    && ((r.dataLen == -1 && r.consumed == |text|)
        || (r.dataLen == |r.ioBuffer| <= IO_BUFFER_SIZE && |r.ioBuffer| <= r.consumed
            && Aligned(r.consumed - |r.ioBuffer|)
            && (|r.ioBuffer| == IO_BUFFER_SIZE || r.consumed == |text| || r.ioBuffer == [])
            && r.ioBuffer == text[r.consumed - |r.ioBuffer|..r.consumed]))
  }

  /** A chunk that agrees with the input, and an index into it. */
  ghost predicate ReaderOk(text: string, r: Reader)
  {
    ChunkOk(text, r) && (r.dataLen != -1 ==> 0 <= r.bufferIndex <= |r.ioBuffer|)
  }

  /** The index in the input of the next character to be read. */
  ghost function Position(text: string, r: Reader): (p: int)
    requires ReaderOk(text, r)
    ensures 0 <= p <= |text|
  {
    if r.dataLen == -1 then |text| else r.consumed - |r.ioBuffer| + r.bufferIndex
  }

  /** The refill at the head of the loop, once the chunk is used up:
      `input->read(ioBuffer_, 0, 1024)` on a string reader gives the next
      chunk of up to 1024 characters, or -1 when nothing is left, and
      `bufferIndex_` goes back to 0. The next character to be read stays
      the same. */
  function Fill(text: string, r: Reader): (r': Reader)
    requires ReaderOk(text, r) && r.bufferIndex >= r.dataLen
    ensures ReaderOk(text, r') && Position(text, r') == Position(text, r)
    ensures r'.dataLen == -1 <==> r.consumed == |text|
    ensures r'.dataLen != -1 ==> r'.consumed > r.consumed && r'.bufferIndex == 0 < r'.dataLen
  {
    if r.consumed == |text| then Reader(r.consumed, r.ioBuffer, -1, 0)
    else
      var n := if |text| - r.consumed < IO_BUFFER_SIZE then |text| - r.consumed else IO_BUFFER_SIZE;
      Reader(r.consumed + n, text[r.consumed..r.consumed + n], n, 0)
  }

  /** `bufferIndex_ < dataLen_ && isDigit(ioBuffer_[bufferIndex_])`: the
      chunk holds a next character, and it is a digit. */
  function NextIsDigit(kind: char -> CharKind, r: Reader): bool
  {
    0 <= r.bufferIndex < r.dataLen && r.bufferIndex < |r.ioBuffer| && kind(r.ioBuffer[r.bufferIndex]) == Digit
  }

  /** `bufferIndex_ >= dataLen_ - 1`: at most one character of the chunk
      is left. */
  function NearChunkEnd(r: Reader): bool
  {
    r.bufferIndex >= r.dataLen - 1
  }

  /** Taking the character at `p` from the chunk moves the reader on by
      one; right after it, the look-ahead of the source agrees with
      `StepAt`'s: both stop at the end of the chunk. */
  lemma LookAhead(kind: char -> CharKind, text: string, r: Reader, p: int, r': Reader)
    requires ReaderOk(text, r) && r.dataLen != -1 && r.bufferIndex < r.dataLen && p == Position(text, r)
    requires r' == r.(bufferIndex := r.bufferIndex + 1)
    ensures ReaderOk(text, r') && Position(text, r') == p + 1 && p < |text| && r.ioBuffer[r.bufferIndex] == text[p]
    ensures NextIsDigit(kind, r') == (p + 1 < ChunkEnd(|text|, p) && kind(text[p + 1]) == Digit)
    ensures NearChunkEnd(r') == (p + 2 >= ChunkEnd(|text|, p))
  {
    ChunkAt(|text|, r.consumed - |r.ioBuffer|, |r.ioBuffer|, p);
  }

  /** The head of the loop: `++offset_`, a new chunk when the last one is
      used up, and then the next character, or nothing (with `offset_`
      put back) at the end of the input. */
  method Read(kind: char -> CharKind, text: string, r: Reader, off: int) returns (c: Option<char>, r': Reader, off': int)
    requires ReaderOk(text, r) && off == Position(text, r)
    ensures ReaderOk(text, r') && off' == Position(text, r')
    ensures c.None? ==> off == off' == |text|
    ensures c.Some? ==> off < |text| && c.value == text[off] && off' == off + 1
    ensures c.Some? ==> r'.dataLen != -1 && 0 < r'.bufferIndex <= r'.dataLen
    ensures c.Some? ==> NextIsDigit(kind, r') == (off' < ChunkEnd(|text|, off) && kind(text[off']) == Digit)
    ensures c.Some? ==> NearChunkEnd(r') == (off' + 1 >= ChunkEnd(|text|, off))
  {
    r', off' := r, off + 1;
    if r'.bufferIndex >= r'.dataLen {
      r' := Fill(text, r');
    }
    if r'.dataLen == -1 {
      off' := off' - 1;
      return None, r', off';
    }
    var r1 := r'.(bufferIndex := r'.bufferIndex + 1);
    LookAhead(kind, text, r', off, r1);
    c, r' := Some(r'.ioBuffer[r'.bufferIndex]), r1;
  }

  class Tokenizer {
    /** The character classes and the case folding, from Lucene++. */
    const kind: char -> CharKind
    const fold: char -> char
    /** Everything the reader holds. */
    var text: string
    /** The reader's fields; see `Reader`. */
    var consumed: nat
    var ioBuffer: seq<char>
    var dataLen: int
    var bufferIndex: int
    var offset: int
    /** `buffer_` and `length_`: the term being built and its length;
        `start_` is where it starts in the input. */
    const buffer: array<char>
    var length: nat
    var start: nat
    /** The term and offset attributes. */
    var term: string
    var startOffset: int
    var endOffset: int

    /** The reader's fields as one value. */
    function State(): Reader
      reads this`consumed, this`ioBuffer, this`dataLen, this`bufferIndex
    {
      Reader(consumed, ioBuffer, dataLen, bufferIndex)
    }

    ghost predicate Valid()
      reads this`text, this`consumed, this`ioBuffer, this`dataLen, this`bufferIndex, this`offset, this`length
    {
      buffer.Length == MAX_WORD_LEN && length <= MAX_WORD_LEN && ReaderOk(text, State())
      && offset == Position(text, State())
    }

    /** The index in the input of the next character to be read. */
    ghost function Pos(): int
      reads this`text, this`consumed, this`ioBuffer, this`dataLen, this`bufferIndex, this`offset, this`length
      requires Valid()
    {
      Position(text, State())
    }

    /** The constructor and `initialize`. */
    constructor (kind: char -> CharKind, fold: char -> char, input: string)
      ensures Valid() && Pos() == 0 && text == input && this.kind == kind && this.fold == fold
      ensures fresh(buffer)
    {
      this.kind := kind;
      this.fold := fold;
      text := input;
      consumed := 0;
      ioBuffer := [];
      dataLen := 0;
      bufferIndex := 0;
      offset := 0;
      buffer := new char[MAX_WORD_LEN];
      length := 0;
      start := 0;
      term := [];
      startOffset, endOffset := 0, 0;
    }

    /** `reset(input)`: a new reader, read from its start. */
    method Reset(input: string)
      requires Valid()
      modifies this
      ensures Valid() && Pos() == 0 && text == input
    {
      text := input;
      consumed := 0;
      ioBuffer := [];
      offset := 0;
      bufferIndex := 0;
      dataLen := 0;
    }

    /** `end`: both offsets at the final position. */
    method End()
      requires Valid()
      modifies this`startOffset, this`endOffset
      ensures startOffset == endOffset == Pos()
    {
      startOffset, endOffset := offset, offset;
    }

    /** `flush`: a non-empty term is emitted with its offsets. */
    method Flush() returns (r: bool)
      requires buffer.Length == MAX_WORD_LEN && length <= MAX_WORD_LEN
      modifies this`term, this`startOffset, this`endOffset
      ensures r <==> length > 0
      ensures r ==> term == buffer[..length] && startOffset == start && endOffset == start + length
      ensures !r ==> term == old(term) && startOffset == old(startOffset) && endOffset == old(endOffset)
    {
      if length > 0 {
        term := buffer[..length];
        startOffset, endOffset := start, start + length;
        return true;
      }
      return false;
    }

    /** The term being built is held, folded, in the buffer. */
    ghost predicate Holds(len: nat, st: nat)
      reads this`text, buffer
    {
      buffer.Length == MAX_WORD_LEN && len <= MAX_WORD_LEN && st + len <= |text|
      && forall i :: 0 <= i < len ==> buffer[i] == fold(text[st + i])
    }

    /** `push`: the folded character goes to the end of the term; the
        first one fixes the start of the term, just before `offset_`. */
    method Push(c: char, off: int, st: nat, len: nat) returns (st': nat)
      requires Holds(len, st) && len < MAX_WORD_LEN && 0 < off <= |text| && c == text[off - 1]
      requires len > 0 ==> st + len == off - 1
      modifies buffer
      ensures Holds(len + 1, st') && st' == if len == 0 then off - 1 else st
    {
      st' := st;
      if len == 0 {
        st' := off - 1;
      }
      buffer[len] := fold(c);
    }

    /** What the loop does with the character `c` just read at `off`, once
        `step` is decided: push it, emit the term, give it back, or skip it.
        `r` and `off + 1` are the reader and the offset after the read. */
    method Handle(step: Step, c: char, r: Reader, off: int, st: nat, len: nat, lastIsEn: bool, lastIsSym: bool, lastIsNum: bool)
      returns (r': Reader, off': int, st': nat, len': nat, lastIsEn': bool, lastIsSym': bool, lastIsNum': bool, done: bool)
      requires ReaderOk(text, r) && off + 1 == Position(text, r) && r.dataLen != -1 && 0 < r.bufferIndex <= r.dataLen
      requires Holds(len, st) && st + len <= off && (len > 0 ==> st + len == off)
      requires off < |text| && c == text[off] && step == StepAt(kind, text, off, len, lastIsEn || lastIsSym, lastIsNum)
      modifies buffer
      ensures ReaderOk(text, r') && off' == Position(text, r') && Holds(len', st') && st' + len' <= off'
      ensures !done ==> off < off' && (len' > 0 ==> st' + len' == off')
      ensures !done ==> Scan(kind, text, off', st', len', lastIsEn' || lastIsSym', lastIsNum')
                        == Scan(kind, text, off, st, len, lastIsEn || lastIsSym, lastIsNum)
      ensures done ==> Outcome(len' > 0, off', st', len') == Scan(kind, text, off, st, len, lastIsEn || lastIsSym, lastIsNum)
    {
      r', off', st', len', lastIsEn', lastIsSym', lastIsNum', done := r, off + 1, st, len, lastIsEn, lastIsSym, lastIsNum, false;
      ScanStep(kind, text, off, st, len, lastIsEn || lastIsSym, lastIsNum);
      var cls := ClassOf(kind, c);
      if step == Skip {
      } else if step == Take || step == TakeEmit {
        st' := Push(c, off', st, len);
        len' := len + 1;
        if step == TakeEmit {
          done := true;
        } else if cls == Alpha {
          lastIsEn' := true;
        } else if cls == Num {
          lastIsNum' := true;
        } else if cls == Sym {
          lastIsEn' := false;
          lastIsSym' := true;
        }
      } else if step == Emit {
        done := true;
      } else {
        r' := r'.(bufferIndex := r'.bufferIndex - 1);
        off' := off' - 1;
        done := true;
      }
    }

    /** One pass of the loop of `incrementToken`, on the reader `r`, the
        offset `off`, the term's start `st` and length `len`, and the flags
        `last_is_en`, `last_is_sym` and `last_is_num`: either the loop goes
        on from a later offset with the same outcome ahead, or it stops
        (`done`) with the outcome `Scan` gives. */
    method Advance(r: Reader, off: int, st: nat, len: nat, lastIsEn: bool, lastIsSym: bool, lastIsNum: bool)
      returns (r': Reader, off': int, st': nat, len': nat, lastIsEn': bool, lastIsSym': bool, lastIsNum': bool, done: bool)
      requires ReaderOk(text, r) && off == Position(text, r) && Holds(len, st)
      requires st + len <= off && (len > 0 ==> st + len == off)
      modifies buffer
      ensures ReaderOk(text, r') && off' == Position(text, r') && Holds(len', st') && st' + len' <= off'
      ensures !done ==> off < off' && (len' > 0 ==> st' + len' == off')
      ensures !done ==> Scan(kind, text, off', st', len', lastIsEn' || lastIsSym', lastIsNum')
                        == Scan(kind, text, off, st, len, lastIsEn || lastIsSym, lastIsNum)
      ensures done ==> Outcome(len' > 0, off', st', len') == Scan(kind, text, off, st, len, lastIsEn || lastIsSym, lastIsNum)
    {
      var c, r1, off1 := Read(kind, text, r, off);
      if c.None? {
        return r1, off1, st, len, lastIsEn, lastIsSym, lastIsNum, true;
      }
      var step := Decide(ClassOf(kind, c.value), c.value, len, lastIsEn || lastIsSym, lastIsNum, NextIsDigit(kind, r1), NearChunkEnd(r1));
      assert step == StepAt(kind, text, off, len, lastIsEn || lastIsSym, lastIsNum);
      r', off', st', len', lastIsEn', lastIsSym', lastIsNum', done := Handle(step, c.value, r1, off, st, len, lastIsEn, lastIsSym, lastIsNum);
    }

    /** `incrementToken`, with every push checked against the buffer size:
        the call does what `Scan` says, and the term attribute is the
        folded text of the term. The loop works on the reader's fields, on
        `length_` and `start_` as local values; they are stored back once
        the loop ends. */
    method IncrementToken() returns (has: bool)
      requires Valid()
      modifies this, buffer
      ensures Valid() && text == old(text)
      ensures Outcome(has, Pos(), start, length) == Scan(kind, text, old(Pos()), old(Pos()), 0, false, false)
      ensures has ==> term == Folded(fold, text[start..start + length]) && startOffset == start && endOffset == start + length
      ensures !has ==> term == []
    {
      term, startOffset, endOffset := [], 0, 0;
      var r, off, st, len := Run(State(), offset);
      has := Finish(r, off, st, len);
    }

    /** The loop of `incrementToken` from the reader state `r0` at `off0`:
        it ends with the term `Scan` finds, held in the buffer. */
    method Run(r0: Reader, off0: int) returns (r: Reader, off: int, st: nat, len: nat)
      requires ReaderOk(text, r0) && off0 == Position(text, r0) && buffer.Length == MAX_WORD_LEN
      modifies buffer
      ensures ReaderOk(text, r) && off == Position(text, r) && Holds(len, st)
      ensures Outcome(len > 0, off, st, len) == Scan(kind, text, off0, off0, 0, false, false)
    {
      r, off, st, len := r0, off0, off0, 0;
      var lastIsEn, lastIsSym, lastIsNum := false, false, false;
      ghost var target := Scan(kind, text, off, off, 0, false, false);
      var done := false;
      while !done
        invariant ReaderOk(text, r) && off == Position(text, r) && Holds(len, st) && st + len <= off
        invariant !done ==> (len > 0 ==> st + len == off)
        invariant !done ==> Scan(kind, text, off, st, len, lastIsEn || lastIsSym, lastIsNum) == target
        invariant done ==> Outcome(len > 0, off, st, len) == target
        decreases |text| - off + (if done then 0 else 1)
        modifies buffer
      {
        r, off, st, len, lastIsEn, lastIsSym, lastIsNum, done := Advance(r, off, st, len, lastIsEn, lastIsSym, lastIsNum);
      }
    }

    /** The end of `incrementToken`: the reader's fields, `length_` and
        `start_` take the loop's final values, and `flush` emits the term. */
    method Finish(r: Reader, off: int, st: nat, len: nat) returns (has: bool)
      requires ReaderOk(text, r) && off == Position(text, r) && Holds(len, st)
      requires term == [] && startOffset == 0 && endOffset == 0
      modifies this
      ensures Valid() && text == old(text) && Pos() == off && start == st && length == len
      ensures has <==> len > 0
      ensures has ==> term == Folded(fold, text[start..start + length]) && startOffset == start && endOffset == start + length
      ensures !has ==> term == []
    {
      consumed, ioBuffer, dataLen, bufferIndex, offset := r.consumed, r.ioBuffer, r.dataLen, r.bufferIndex, off;
      length, start := len, st;
      assert State() == r;
      has := Flush();
      if has {
        FoldedBuffer(fold, text, start, length, term);
      }
    }
  }

  /** The buffer's characters, read back, are the folded term. */
  lemma FoldedBuffer(fold: char -> char, text: string, start: nat, len: nat, b: seq<char>)
    requires start + len <= |text| && |b| == len && forall i :: 0 <= i < len ==> b[i] == fold(text[start + i])
    ensures b == Folded(fold, text[start..start + len])
  {
  }
}

/** The pinyin conversion of the server
    (src/server/src/core/pinyin_processor.cpp): a dictionary from UTF-8
    characters to their readings, loaded from lines "U+XXXX: reading,... #
    comment", and the conversion of a sentence into its own text followed by
    the readings of its Chinese characters, their initials and the spelled
    out sentence. `std::string` is a byte string: each char of a model
    string holds one byte of UTF-8 text. */
module Pinyin {
  import opened Common
  import StringHelper
  import QtNumber

  /** The byte a char stands for, read as an `unsigned char`: a char of a
      model string holds one byte, so its code is below 256. */
  function Octet(c: char): nat
  {
    c as int
  }

  /** `get_utf8_char_length`: the length a UTF-8 lead byte announces, and 1
      for ASCII and for bytes that cannot lead a character. */
  function CharLength(c: char): (n: nat)
    ensures 1 <= n <= 4
    ensures n == 2 <==> 0xC0 <= Octet(c) < 0xE0
    ensures n == 3 <==> 0xE0 <= Octet(c) < 0xF0
    ensures n == 4 <==> 0xF0 <= Octet(c) < 0xF8
  {
    var b := Octet(c);
    if b < 0x80 then 1
    else if 0xC0 <= b < 0xE0 then 2
    else if 0xE0 <= b < 0xF0 then 3
    else if 0xF0 <= b < 0xF8 then 4
    else 1
  }

  /** The tests of the source keep the top bits of the byte with a mask:
      `(c & 0x80) == 0`, `(c & 0xE0) == 0xC0`, `(c & 0xF0) == 0xE0` and
      `(c & 0xF8) == 0xF0`; on a byte these are the ranges above. */
  lemma {:induction false} CharLengthMasks(c: char)
    requires Octet(c) < 256
    ensures var b := Octet(c) as bv8;
      CharLength(c) == if b & 0x80 == 0 then 1
                       else if b & 0xE0 == 0xC0 then 2
                       else if b & 0xF0 == 0xE0 then 3
                       else if b & 0xF8 == 0xF0 then 4
                       else 1
  {
    var b := Octet(c) as bv8;
    assert (b & 0x80 == 0) == (b < 0x80);
    assert (b & 0xE0 == 0xC0) == (0xC0 <= b < 0xE0);
    assert (b & 0xF0 == 0xE0) == (0xE0 <= b < 0xF0);
    assert (b & 0xF8 == 0xF0) == (0xF0 <= b < 0xF8);
  }

  /** The length of the piece `split_utf8_characters` cuts at the start of
      `s`: what the lead byte announces, or what is left. */
  function PieceLength(s: string): (n: nat)
    requires s != []
    ensures 1 <= n <= |s| && n <= CharLength(s[0])
    ensures n < CharLength(s[0]) ==> n == |s|
  {
    if CharLength(s[0]) <= |s| then CharLength(s[0]) else |s|
  }

  /** The pieces `split_utf8_characters` returns. */
  function Pieces(s: string): seq<string>
    decreases |s|
  {
    if s == [] then [] else [s[..PieceLength(s)]] + Pieces(s[PieceLength(s)..])
  }

  /** The pieces laid end to end. */
  function Concat(ps: seq<string>): string
  {
    if ps == [] then [] else ps[0] + Concat(ps[1..])
  }

  lemma {:induction false} ConcatSnoc(ps: seq<string>, p: string)
    ensures Concat(ps + [p]) == Concat(ps) + p
  {
    if ps != [] {
      assert (ps + [p])[1..] == ps[1..] + [p];
      ConcatSnoc(ps[1..], p);
    }
  }

  /** The pieces give the sentence back. */
  lemma {:induction false} PiecesConcat(s: string)
    ensures Concat(Pieces(s)) == s
    decreases |s|
  {
    if s != [] {
      var n := PieceLength(s);
      PiecesConcat(s[n..]);
      assert s[..n] + s[n..] == s;
    }
  }

  /** Every piece is non-empty and starts with a byte that announces its
      length; only the last piece may be shorter, cut off by the end of the
      sentence. */
  lemma {:induction false} PiecesShape(s: string, k: nat)
    requires k < |Pieces(s)|
    ensures Pieces(s)[k] != [] && |Pieces(s)[k]| <= CharLength(Pieces(s)[k][0])
    ensures k < |Pieces(s)| - 1 ==> |Pieces(s)[k]| == CharLength(Pieces(s)[k][0])
    decreases |s|
  {
    var n := PieceLength(s);
    if k > 0 {
      PiecesShape(s[n..], k - 1);
    } else if |Pieces(s)| > 1 {
      assert s[n..] != [];
    }
  }

  /** The pieces of a suffix of the sentence: the one at its head, then the
      rest. */
  lemma PiecesStep(s: string, i: nat)
    requires i < |s|
    ensures var n := PieceLength(s[i..]);
      i + n <= |s| && Pieces(s[i..]) == [s[i..i + n]] + Pieces(s[i + n..])
  {
    var n := PieceLength(s[i..]);
    assert s[i..][..n] == s[i..i + n] && s[i..][n..] == s[i + n..];
  }

  /** The length of the character at `i`: `get_utf8_char_length` of its
      lead byte, cut to what is left as `substr` does. */
  method PieceAt(s: string, i: nat) returns (n: nat)
    requires i < |s|
    ensures i + n <= |s| && n == PieceLength(s[i..])
  {
    var charLen := CharLength(s[i]);
    n := if i + charLen <= |s| then charLen else |s| - i;
    assert s[i..][0] == s[i];
  }

  /** The split has cut `done` from the first `i` bytes of `s`. */
  predicate SplitUpTo(s: string, i: nat, done: seq<string>)
  {
    i <= |s| && done + Pieces(s[i..]) == Pieces(s)
  }

  /** One step of the split: the head piece moves to the pieces cut so far. */
  lemma PiecesAdvance(s: string, i: nat, done: seq<string>, next: nat, out: seq<string>)
    requires i < |s| && SplitUpTo(s, i, done)
    requires next == i + PieceLength(s[i..]) && next <= |s| && out == done + [s[i..next]]
    ensures SplitUpTo(s, next, out)
  {
    var n := PieceLength(s[i..]);
    PiecesStep(s, i);
    AppendAssoc(done, [s[i..i + n]], Pieces(s[i + n..]));
  }

  lemma SplitBounds(s: string, i: nat, done: seq<string>)
    ensures i == 0 && done == [] ==> SplitUpTo(s, i, done)
    ensures i == |s| && SplitUpTo(s, i, done) ==> done == Pieces(s)
  {
    assert s[0..] == s;
    assert s[|s|..] == [];
  }

  /** `split_utf8_characters`. The step is cut to what is left of the
      sentence, which ends the loop just as the longer step of the source
      does. */
  method SplitUtf8Characters(sentence: string) returns (result: seq<string>)
    ensures result == Pieces(sentence)
  {
    result := [];
    var i := 0;
    SplitBounds(sentence, 0, []);
    while i < |sentence|
      invariant SplitUpTo(sentence, i, result)
      decreases |sentence| - i
    {
      var n := PieceAt(sentence, i);
      ghost var done, at := result, i;
      result := result + [sentence[i..i + n]];
      i := i + n;
      PiecesAdvance(sentence, at, done, i, result);
    }
    SplitBounds(sentence, i, result);
  }

  /** What one character adds in `hex_to_dec`: its value as a hexadecimal
      digit, 0 for any other character. */
  function Nibble(c: char): nat
  {
    if QtNumber.HexVal(c) < 16 then QtNumber.HexVal(c) else 0
  }

  /** The value `hex_to_dec` computes in an `unsigned int`: every character
      multiplies by 16 and adds its digit, modulo 2^32. */
  function HexDec(s: string): u32
  {
    if s == [] then 0 else Wrap32(Wrap32(16 * HexDec(s[..|s| - 1])) + Nibble(s[|s| - 1]))
  }

  /** `hex_to_dec`. */
  method HexToDec(hex: string) returns (result: u32)
    ensures result == HexDec(hex)
  {
    result := 0;
    for i := 0 to |hex|
      invariant result == HexDec(hex[..i])
    {
      assert hex[..i + 1][..i] == hex[..i];
      result := Wrap32(16 * result);
      result := Wrap32(result + Nibble(hex[i]));
    }
    assert hex[..|hex|] == hex;
  }

  /** On a string of hexadecimal digits `hex_to_dec` is the base-16 value
      modulo 2^32. */
  lemma {:induction false} HexDecValue(s: string)
    requires QtNumber.DigitsIn(s, 16)
    ensures HexDec(s) as int == QtNumber.ValueIn(s, 16) % TWO32
  {
    if s != [] {
      var f := s[..|s| - 1];
      assert QtNumber.DigitsIn(f, 16) by {
        forall i | 0 <= i < |f| ensures QtNumber.HexVal(f[i]) < 16 { assert f[i] == s[i]; }
      }
      HexDecValue(f);
      var v := QtNumber.ValueIn(f, 16);
      var d := QtNumber.HexVal(s[|s| - 1]);
      assert d < 16;
      ModStep(v, d);
    }
  }

  lemma ModStep(v: nat, d: nat)
    ensures ((16 * (v % TWO32)) % TWO32 + d) % TWO32 == (16 * v + d) % TWO32
  {
    var q := v / TWO32;
    assert v == q * TWO32 + v % TWO32;
    assert 16 * v + d == (16 * (v % TWO32) + d) + (16 * q) * TWO32;
    ModAdd(16 * (v % TWO32) + d, 16 * q);
    ModAdd(16 * (v % TWO32), 16 * q * 0);
  }

  lemma ModAdd(x: nat, k: nat)
    ensures (x + k * TWO32) % TWO32 == x % TWO32
  {
    var q := x / TWO32;
    assert x + k * TWO32 == (q + k) * TWO32 + x % TWO32;
  }

  /** A character that is not a hexadecimal digit still shifts the value. */
  lemma NonHexShifts(s: string, c: char)
    requires QtNumber.HexVal(c) >= 16
    ensures HexDec(s + [c]) == Wrap32(16 * HexDec(s))
  {
    assert (s + [c])[..|s|] == s;
  }

  /** The plain letter of a two-byte toned vowel in the table of
      `remove_tone` ("ǖ", "ǘ", "ǚ", "ǜ" and "ü" become "v"). */
  function ToneVowel(a: int, b: int): Option<char>
  {
    if a == 0xC3 then
      if b == 0xA0 || b == 0xA1 then Some('a')
      else if b == 0xA8 || b == 0xA9 then Some('e')
      else if b == 0xAC || b == 0xAD then Some('i')
      else if b == 0xB2 || b == 0xB3 then Some('o')
      else if b == 0xB9 || b == 0xBA then Some('u')
      else if b == 0xBC then Some('v')
      else None
    else if a == 0xC4 then
      if b == 0x81 then Some('a')
      else if b == 0x93 || b == 0x9B then Some('e')
      else if b == 0xAB then Some('i')
      else None
    else if a == 0xC5 then
      if b == 0x8D then Some('o')
      else if b == 0xAB then Some('u')
      else None
    else if a == 0xC7 then
      if b == 0x8E then Some('a')
      else if b == 0x90 then Some('i')
      else if b == 0x92 then Some('o')
      else if b == 0x94 then Some('u')
      else if b == 0x96 || b == 0x98 || b == 0x9A || b == 0x9C then Some('v')
      else None
    else None
  }

  /** The lookup in the tone table: only two-byte characters are in it,
      and each maps to one of the plain vowels. */
  function ToneFree(p: string): (r: Option<char>)
    ensures r.Some? ==> |p| == 2 && CharLength(p[0]) == 2 && r.value in "aeiouv"
  {
    if |p| == 2 then ToneVowel(p[0] as int, p[1] as int) else None
  }

  /** One piece after `remove_tone`. */
  function Plain(p: string): string
  {
    match ToneFree(p)
    case Some(c) => [c]
    case None => p
  }

  /** The pieces, each replaced by its plain form, laid end to end. */
  function Replaced(ps: seq<string>): string
  {
    if ps == [] then [] else Plain(ps[0]) + Replaced(ps[1..])
  }

  /** What `remove_tone` returns: the sentence cut as the split cuts it,
      each piece replaced by its plain form. */
  function Untoned(s: string): string
    decreases |s|
  {
    if s == [] then [] else Plain(s[..PieceLength(s)]) + Untoned(s[PieceLength(s)..])
  }

  /** `remove_tone` replaces the pieces `split_utf8_characters` cuts. */
  lemma {:induction false} UntonedPieces(s: string)
    ensures Untoned(s) == Replaced(Pieces(s))
    decreases |s|
  {
    if s != [] {
      var n := PieceLength(s);
      UntonedPieces(s[n..]);
      var ps := Pieces(s);
      assert ps[0] == s[..n] && ps[1..] == Pieces(s[n..]);
    }
  }

  lemma UntonedStep(s: string, i: nat)
    requires i < |s|
    ensures var n := PieceLength(s[i..]);
      i + n <= |s| && Untoned(s[i..]) == Plain(s[i..i + n]) + Untoned(s[i + n..])
  {
    var n := PieceLength(s[i..]);
    assert s[i..][..n] == s[i..i + n] && s[i..][n..] == s[i + n..];
  }

  /** `remove_tone` has produced `done` from the first `i` bytes of `s`. */
  predicate UntonedUpTo(s: string, i: nat, done: string)
  {
    i <= |s| && done + Untoned(s[i..]) == Untoned(s)
  }

  /** One step of `remove_tone`: the head piece, untoned, moves to the
      text converted so far. */
  lemma UntonedAdvance(s: string, i: nat, done: string, next: nat, out: string)
    requires i < |s| && UntonedUpTo(s, i, done)
    requires next == i + PieceLength(s[i..]) && next <= |s| && out == done + Plain(s[i..next])
    ensures UntonedUpTo(s, next, out)
  {
    var n := PieceLength(s[i..]);
    UntonedStep(s, i);
    AppendAssoc(done, Plain(s[i..i + n]), Untoned(s[i + n..]));
  }

  lemma UntonedBounds(s: string, i: nat, done: string)
    ensures i == 0 && done == [] ==> UntonedUpTo(s, i, done)
    ensures i == |s| && UntonedUpTo(s, i, done) ==> done == Untoned(s)
  {
    assert s[0..] == s;
    assert s[|s|..] == [];
  }

  /** The lookup of one piece in the tone table of `remove_tone`: the
      plain vowel when the piece is in it, the piece itself otherwise. */
  method ToneLookup(charStr: string) returns (r: string)
    ensures r == Plain(charStr)
  {
    var plain := ToneFree(charStr);
    if plain.Some? {
      r := [plain.value];
    } else {
      r := charStr;
    }
  }

  /** `remove_tone`. */
  method RemoveTone(pinyin: string) returns (result: string)
    ensures result == Untoned(pinyin)
  {
    result := [];
    var i := 0;
    UntonedBounds(pinyin, 0, []);
    while i < |pinyin|
      invariant UntonedUpTo(pinyin, i, result)
      decreases |pinyin| - i
    {
      var n := PieceAt(pinyin, i);
      var charStr := pinyin[i..i + n];
      var replacement := ToneLookup(charStr);
      ghost var done, at := result, i;
      result := result + replacement;
      i := i + n;
      UntonedAdvance(pinyin, at, done, i, result);
    }
    UntonedBounds(pinyin, i, result);
  }

  lemma {:induction false} ReplacedNone(ps: seq<string>)
    requires forall k :: 0 <= k < |ps| ==> ToneFree(ps[k]).None?
    ensures Replaced(ps) == Concat(ps)
  {
    if ps != [] {
      ReplacedNone(ps[1..]);
    }
  }

  /** `remove_tone` leaves a string without toned vowels unchanged. */
  lemma UntonedIdentity(s: string)
    requires forall k :: 0 <= k < |Pieces(s)| ==> ToneFree(Pieces(s)[k]).None?
    ensures Untoned(s) == s
  {
    ReplacedNone(Pieces(s));
    PiecesConcat(s);
    UntonedPieces(s);
  }

  /** A toned vowel at the front becomes its plain letter, and the rest is
      converted on its own. */
  lemma UntonedVowel(p: string, t: string)
    requires ToneFree(p).Some?
    ensures Untoned(p + t) == [ToneFree(p).value] + Untoned(t)
  {
    var s := p + t;
    assert s[0] == p[0];
    assert PieceLength(s) == 2;
    assert s[..2] == p && s[2..] == t;
  }

  /** `remove_tone` never lengthens a string. */
  lemma {:induction false} UntonedShorter(s: string)
    ensures |Untoned(s)| <= |s|
    decreases |s|
  {
    if s != [] {
      UntonedShorter(s[PieceLength(s)..]);
    }
  }

  /** The first byte of a word, or the NUL `operator[]` finds after an
      empty one. */
  function Lead(w: string): char
  {
    if w == [] then 0 as char else w[0]
  }

  /** `w.substr(0, get_utf8_char_length(w[0]))`: the first character. */
  function Initial(w: string): (r: string)
    ensures IsPrefix(r, w) && |r| <= 4
    ensures w != [] ==> r != []
  {
    var n := CharLength(Lead(w));
    if n <= |w| then w[..n] else w
  }

  /** `it->second[0]`: the first reading. The source does not guard an empty
      list, which `load_pinyin_dict` never stores (`LoadedWellFormed`). */
  function FirstReading(readings: seq<string>): string
  {
    if readings == [] then [] else readings[0]
  }

  /** The variables of the first loop of `convert_to_pinyin`. */
  datatype Scan = Scan(sentence: string, temp: string, acronym: string, english: string,
                       groups: seq<string>, lastUtf8: bool, lastSingle: bool)

  const START: Scan := Scan([], [], [], [], [], false, false)

  /** One character of the first loop. A dictionary character adds its
      untoned first reading, after a space when anything came before; any
      other character is copied, after a space if it follows a dictionary
      character, which also closes the current group of readings. */
  function Step(dict: map<string, seq<string>>, st: Scan, ch: string): Scan
  {
    if ch in dict then
      var space := st.lastSingle || st.lastUtf8;
      var pinyin := Untoned(FirstReading(dict[ch]));
      Scan(st.sentence + (if space then " " else []) + pinyin,
           (if space && st.temp != [] then st.temp + " " else st.temp) + pinyin,
           st.acronym + Initial(pinyin), st.english + pinyin, st.groups, true, false)
    else
      var close := st.lastUtf8 && st.temp != [];
      Scan(st.sentence + (if st.lastUtf8 then " " else []) + ch,
           if close then [] else st.temp,
           st.acronym + ch, st.english + ch,
           if close then st.groups + [st.temp] else st.groups, false, true)
  }

  function Scanned(dict: map<string, seq<string>>, chars: seq<string>): Scan
  {
    if chars == [] then START else Step(dict, Scanned(dict, chars[..|chars| - 1]), chars[|chars| - 1])
  }

  /** The inner loop over the words of one group: the sentence so far and
      the group's acronym. A space comes before the words while the acronym
      is still empty. */
  function Words(words: seq<string>, sentence: string): (string, string)
  {
    if words == [] then (sentence, [])
    else
      var (s, acronym) := Words(words[..|words| - 1], sentence);
      var w := words[|words| - 1];
      (s + (if acronym == [] then " " else []) + w, acronym + Initial(w))
  }

  /** The loop over the groups: each adds its words and then its acronym. */
  function Phrases(groups: seq<string>, sentence: string): string
  {
    if groups == [] then sentence
    else
      var (s, acronym) := Words(StringHelper.SplitSpec(groups[|groups| - 1], " "), Phrases(groups[..|groups| - 1], sentence));
      s + " " + acronym
  }

  /** The groups once the last one is closed. */
  function Closed(st: Scan): seq<string>
  {
    if st.temp != [] then st.groups + [st.temp] else st.groups
  }

  /** The two texts the conversion ends with. */
  function Ending(st: Scan): string
  {
    " " + st.acronym + " " + st.english
  }

  /** What `convert_to_pinyin` returns. */
  function Converted(dict: map<string, seq<string>>, sentence: string): string
  {
    var st := Scanned(dict, Pieces(sentence));
    Phrases(Closed(st), st.sentence) + Ending(st)
  }

  /** The sentence spelled out: each dictionary character replaced by its
      untoned first reading. */
  function Spelled(dict: map<string, seq<string>>, chars: seq<string>): string
  {
    if chars == [] then []
    else
      var ch := chars[|chars| - 1];
      Spelled(dict, chars[..|chars| - 1]) + (if ch in dict then Untoned(FirstReading(dict[ch])) else ch)
  }

  /** The sentence with each dictionary character replaced by the first
      character of its reading. */
  function Acronyms(dict: map<string, seq<string>>, chars: seq<string>): string
  {
    if chars == [] then []
    else
      var ch := chars[|chars| - 1];
      Acronyms(dict, chars[..|chars| - 1]) + (if ch in dict then Initial(Untoned(FirstReading(dict[ch]))) else ch)
  }

  /** The scan accumulates the acronym and the spelled sentence. */
  lemma {:induction false} ScannedTail(dict: map<string, seq<string>>, chars: seq<string>)
    ensures Scanned(dict, chars).acronym == Acronyms(dict, chars)
    ensures Scanned(dict, chars).english == Spelled(dict, chars)
  {
    if chars != [] {
      ScannedTail(dict, chars[..|chars| - 1]);
    }
  }

  /** The conversion ends with the acronym and the spelled sentence. */
  lemma ConvertedEnds(dict: map<string, seq<string>>, sentence: string)
    ensures IsSuffix(" " + Acronyms(dict, Pieces(sentence)) + " " + Spelled(dict, Pieces(sentence)), Converted(dict, sentence))
  {
    var st := Scanned(dict, Pieces(sentence));
    ScannedTail(dict, Pieces(sentence));
    var head := Phrases(Closed(st), st.sentence);
    assert Converted(dict, sentence) == head + Ending(st);
    assert (head + Ending(st))[|head|..] == Ending(st);
  }

  /** Scanning characters none of which is in the dictionary copies them to
      all three texts and opens no group. */
  lemma {:induction false} ScannedPlain(dict: map<string, seq<string>>, chars: seq<string>)
    requires forall k :: 0 <= k < |chars| ==> chars[k] !in dict
    ensures Scanned(dict, chars) == Scan(Concat(chars), [], Concat(chars), Concat(chars), [], false, chars != [])
  {
    if chars != [] {
      var front := chars[..|chars| - 1];
      ScannedPlain(dict, front);
      ConcatSnoc(front, chars[|chars| - 1]);
      assert front + [chars[|chars| - 1]] == chars;
    }
  }

  /** A sentence without dictionary characters converts to itself three
      times over, separated by spaces. */
  lemma ConvertedPlain(dict: map<string, seq<string>>, sentence: string)
    requires forall k :: 0 <= k < |Pieces(sentence)| ==> Pieces(sentence)[k] !in dict
    ensures Converted(dict, sentence) == sentence + " " + sentence + " " + sentence
  {
    ScannedPlain(dict, Pieces(sentence));
    PiecesConcat(sentence);
  }

  /** The largest code point `std::codecvt_utf8<wchar_t>` encodes; beyond
      it `to_bytes` throws. */
  const MAX_CODE: nat := 0x10FFFF

  /** The UTF-8 encoding of a code point. */
  function Utf8(cp: nat): (r: string)
    requires cp <= MAX_CODE
    ensures 1 <= |r| <= 4 && |r| == CharLength(r[0])
    ensures forall i :: 1 <= i < |r| ==> 0x80 <= r[i] as int < 0xC0
  {
    if cp < 0x80 then [cp as char]
    else if cp < 0x800 then
      assert cp / 64 < 32;
      [(0xC0 + cp / 64) as char, (0x80 + cp % 64) as char]
    else if cp < 0x10000 then
      assert cp / 4096 < 16;
      [(0xE0 + cp / 4096) as char, (0x80 + cp / 64 % 64) as char, (0x80 + cp % 64) as char]
    else
      assert cp / 262144 < 8 && cp / 262144 >= 0;
      [(0xF0 + cp / 262144) as char, (0x80 + cp / 4096 % 64) as char, (0x80 + cp / 64 % 64) as char, (0x80 + cp % 64) as char]
  }

  /** An encoded character is one piece of any sentence it starts. */
  lemma Utf8Piece(cp: nat, t: string)
    requires cp <= MAX_CODE
    ensures Pieces(Utf8(cp) + t) == [Utf8(cp)] + Pieces(t)
  {
    var e := Utf8(cp);
    var s := e + t;
    assert s[0] == e[0];
    assert PieceLength(s) == |e|;
    assert s[..|e|] == e && s[|e|..] == t;
  }

  /** What `load_pinyin_dict` makes of one line. */
  datatype Line = Skip | Entry(hanzi: string, readings: seq<string>) | Unencodable

  /** One line: it must start with "U+" and hold a ':'; the hexadecimal
      code between them is converted to UTF-8 before the '#' is looked for;
      the readings are the trimmed text after the ':' up to the '#', split
      at commas. A '#' before the ':' makes the unsigned length of the
      reading wrap around, so the reading runs to the end of the line. */
  function ParseLine(line: string): (r: Line)
    ensures !r.Skip? ==> IsPrefix("U+", line) && ':' in line
    ensures r.Entry? ==> '#' in line && |r.readings| >= 1
    ensures IsPrefix("U+", line) && ':' in line && '#' in line ==> !r.Skip?
  {
    if !IsPrefix("U+", line) then Skip
    else
      match IndexFrom(line, ':', 0)
      case None => Skip
      case Some(colon) =>
        assert line[0] == 'U' && line[1] == '+';
        var code := HexDec(line[2..colon]);
        if code as nat > MAX_CODE then Unencodable
        else
          match IndexFrom(line, '#', 0)
          case None => Skip
          case Some(hash) =>
            var reading := if hash > colon then line[colon + 1..hash] else line[colon + 1..];
            Entry(Utf8(code as nat), StringHelper.SplitSpec(QtNumber.Trim(reading), ","))
  }

  /** Each line as `load_pinyin_dict` reads it. */
  function ParsedLines(lines: seq<string>): (r: seq<Line>)
    ensures |r| == |lines| && forall i :: 0 <= i < |lines| ==> r[i] == ParseLine(lines[i])
  {
    if lines == [] then [] else ParsedLines(lines[..|lines| - 1]) + [ParseLine(lines[|lines| - 1])]
  }

  /** The dictionary after loading the parsed lines into `dict`: `emplace`
      keeps the first entry for a character, and an unencodable code point
      ends the load. */
  function Loaded(dict: map<string, seq<string>>, lines: seq<Line>): map<string, seq<string>>
    decreases |lines|
  {
    if lines == [] then dict
    else if lines[0].Unencodable? then dict
    else if lines[0].Skip? then Loaded(dict, lines[1..])
    else if lines[0].hanzi in dict then Loaded(dict, lines[1..])
    else Loaded(dict[lines[0].hanzi := lines[0].readings], lines[1..])
  }

  /** The load from line `i` on: it stops at an unencodable line, skips a
      line that is not an entry or whose character is known, and otherwise
      adds the entry. */
  lemma LoadedHead(dict: map<string, seq<string>>, lines: seq<Line>, i: nat)
    requires i <= |lines|
    ensures i == 0 ==> lines[i..] == lines
    ensures i == |lines| ==> Loaded(dict, lines[i..]) == dict
    ensures i < |lines| && lines[i].Unencodable? ==> Loaded(dict, lines[i..]) == dict
    ensures i < |lines| && !lines[i].Unencodable? && !(lines[i].Entry? && lines[i].hanzi !in dict) ==>
      Loaded(dict, lines[i..]) == Loaded(dict, lines[i + 1..])
    ensures i < |lines| && lines[i].Entry? && lines[i].hanzi !in dict ==>
      Loaded(dict, lines[i..]) == Loaded(dict[lines[i].hanzi := lines[i].readings], lines[i + 1..])
  {
    if i < |lines| {
      assert lines[i..][0] == lines[i] && lines[i..][1..] == lines[i + 1..];
    }
  }

  /** Whether loading `lines` throws: `to_bytes` raises `std::range_error`
      for a code point that has no UTF-8 form. */
  predicate Throws(lines: seq<string>)
  {
    Unencodable() in ParsedLines(lines)
  }

  /** Every character has at least one reading. */
  ghost predicate WellFormed(dict: map<string, seq<string>>)
  {
    forall k :: k in dict ==> dict[k] != []
  }

  /** A dictionary loaded from lines gives every character at least one
      reading. */
  lemma {:induction false} LoadedWellFormed(dict: map<string, seq<string>>, lines: seq<string>)
    requires WellFormed(dict)
    ensures WellFormed(Loaded(dict, ParsedLines(lines)))
  {
    LoadedWellFormedFrom(dict, ParsedLines(lines));
  }

  lemma {:induction false} LoadedWellFormedFrom(dict: map<string, seq<string>>, lines: seq<Line>)
    requires WellFormed(dict)
    requires forall i :: 0 <= i < |lines| && lines[i].Entry? ==> lines[i].readings != []
    ensures WellFormed(Loaded(dict, lines))
    decreases |lines|
  {
    if lines != [] && !lines[0].Unencodable? {
      var d := if lines[0].Skip? || lines[0].hanzi in dict then dict else dict[lines[0].hanzi := lines[0].readings];
      assert Loaded(dict, lines) == Loaded(d, lines[1..]);
      assert forall i :: 0 <= i < |lines[1..]| ==> lines[1..][i] == lines[i + 1];
      LoadedWellFormedFrom(d, lines[1..]);
    }
  }

  /** An entry already present is never replaced. */
  lemma {:induction false} LoadedKeeps(dict: map<string, seq<string>>, lines: seq<Line>, k: string)
    requires k in dict
    ensures k in Loaded(dict, lines) && Loaded(dict, lines)[k] == dict[k]
    decreases |lines|
  {
    if lines != [] && !lines[0].Unencodable? {
      var d := if lines[0].Skip? || lines[0].hanzi in dict then dict else dict[lines[0].hanzi := lines[0].readings];
      assert Loaded(dict, lines) == Loaded(d, lines[1..]);
      LoadedKeeps(d, lines[1..], k);
    }
  }

  /** A new entry comes from a line that parsed to it. */
  lemma {:induction false} LoadedFrom(dict: map<string, seq<string>>, lines: seq<Line>, k: string)
    requires k in Loaded(dict, lines) && k !in dict
    ensures exists i :: 0 <= i < |lines| && lines[i] == Entry(k, Loaded(dict, lines)[k])
    decreases |lines|
  {
    var d := if lines[0].Skip? || lines[0].hanzi in dict then dict else dict[lines[0].hanzi := lines[0].readings];
    assert Loaded(dict, lines) == Loaded(d, lines[1..]);
    if lines[0].Entry? && lines[0].hanzi == k {
      LoadedKeeps(d, lines[1..], k);
      assert lines[0] == Entry(k, Loaded(dict, lines)[k]);
    } else {
      LoadedFrom(d, lines[1..], k);
      var i :| 0 <= i < |lines[1..]| && lines[1..][i] == Entry(k, Loaded(dict, lines)[k]);
      assert lines[i + 1] == lines[1..][i];
    }
  }

  /** The first loop of `convert_to_pinyin`, over the characters. */
  method ScanCharacters(dict: map<string, seq<string>>, results: seq<string>) returns (st: Scan)
    ensures st == Scanned(dict, results)
  {
    var newSentence: string := [];
    var pinyinTemp: string := [];
    var acronymEnglish: string := [];
    var pinyinEnglish: string := [];
    var groups: seq<string> := [];
    var lastUtf8 := false;
    var lastSingle := false;
    for k := 0 to |results|
      invariant Scan(newSentence, pinyinTemp, acronymEnglish, pinyinEnglish, groups, lastUtf8, lastSingle) == Scanned(dict, results[..k])
    {
      assert results[..k + 1][..k] == results[..k];
      var ch := results[k];
      if ch in dict {
        if lastSingle || lastUtf8 {
          newSentence := newSentence + " ";
          if pinyinTemp != [] {
            pinyinTemp := pinyinTemp + " ";
          }
        }
        var pinyin := RemoveTone(FirstReading(dict[ch]));
        newSentence := newSentence + pinyin;
        pinyinTemp := pinyinTemp + pinyin;
        acronymEnglish := acronymEnglish + Initial(pinyin);
        pinyinEnglish := pinyinEnglish + pinyin;
        lastUtf8 := true;
        lastSingle := false;
      } else {
        if lastUtf8 {
          newSentence := newSentence + " ";
          if pinyinTemp != [] {
            groups := groups + [pinyinTemp];
            pinyinTemp := [];
          }
        }
        newSentence := newSentence + ch;
        acronymEnglish := acronymEnglish + ch;
        pinyinEnglish := pinyinEnglish + ch;
        lastUtf8 := false;
        lastSingle := true;
      }
    }
    assert results[..|results|] == results;
    return Scan(newSentence, pinyinTemp, acronymEnglish, pinyinEnglish, groups, lastUtf8, lastSingle);
  }

  /** The inner loop of the second part: the words of one group. */
  method AppendWords(words: seq<string>, sentence: string) returns (s: string, acronym: string)
    ensures (s, acronym) == Words(words, sentence)
  {
    s := sentence;
    acronym := [];
    for w := 0 to |words|
      invariant (s, acronym) == Words(words[..w], sentence)
    {
      assert words[..w + 1][..w] == words[..w];
      ghost var s0 := s;
      ghost var space: string := if acronym == [] then " " else [];
      if acronym == [] {
        s := s + " ";
      }
      assert s == s0 + space;
      acronym := acronym + Initial(words[w]);
      s := s + words[w];
    }
    assert words[..|words|] == words;
  }

  /** The second loop of `convert_to_pinyin`, over the groups of readings. */
  method AppendPhrases(groups: seq<string>, sentence: string) returns (s: string)
    ensures s == Phrases(groups, sentence)
  {
    s := sentence;
    for g := 0 to |groups|
      invariant s == Phrases(groups[..g], sentence)
    {
      assert groups[..g + 1][..g] == groups[..g];
      var words := StringHelper.Split(groups[g], " ");
      var acronym;
      s, acronym := AppendWords(words, s);
      s := s + " " + acronym;
    }
    assert groups[..|groups|] == groups;
  }

  /** `pinyin_processor`: the dictionary is its only state. */
  class PinyinProcessor {
    var dict: map<string, seq<string>>

    /** The default constructor: an empty dictionary. */
    constructor ()
      ensures dict == map[]
    {
      dict := map[];
    }

    /** The constructor that loads a file; `file` is its lines, None when it
        cannot be opened. The constructor throws, and so makes no
        processor (`None`), when loading throws. */
    static method FromFile(file: Option<seq<string>>) returns (p: Option<PinyinProcessor>)
      ensures p.None? <==> file.Some? && Throws(file.value)
      ensures p.Some? ==> fresh(p.value) && p.value.dict == if file.Some? then Loaded(map[], ParsedLines(file.value)) else map[]
    {
      var q := new PinyinProcessor();
      var threw := q.LoadPinyinDict(file);
      p := if threw then None else Some(q);
    }

    /** `load_pinyin_dict`: nothing happens when the file cannot be opened.
        A line with an unencodable code point throws (`threw`), leaving
        the entries of the lines before it in the dictionary. */
    method LoadPinyinDict(file: Option<seq<string>>) returns (threw: bool)
      modifies this
      ensures threw <==> file.Some? && Throws(file.value)
      ensures dict == if file.Some? then Loaded(old(dict), ParsedLines(file.value)) else old(dict)
    {
      threw := false;
      if file.None? {
        return;
      }
      var lines := file.value;
      ghost var parsed := ParsedLines(lines);
      var i := 0;
      ghost var start := dict;
      LoadedHead(start, parsed, 0);
      while i < |lines|
        invariant i <= |lines| && |parsed| == |lines|
        invariant Loaded(dict, parsed[i..]) == Loaded(start, parsed)
        invariant forall j :: 0 <= j < i ==> !parsed[j].Unencodable?
        decreases |lines| - i
      {
        var line := ParseLine(lines[i]);
        assert parsed[i] == line;
        LoadedHead(dict, parsed, i);
        if line.Unencodable? {
          assert parsed[i] in parsed;
          return true;
        }
        if line.Entry? && line.hanzi !in dict {
          dict := dict[line.hanzi := line.readings];
        }
        i := i + 1;
      }
      LoadedHead(dict, parsed, i);
    }

    /** `convert_to_pinyin`. */
    method ConvertToPinyin(sentence: string) returns (r: string)
      ensures r == Converted(dict, sentence)
    {
      var results := SplitUtf8Characters(sentence);
      var st := ScanCharacters(dict, results);
      var groups := st.groups;
      if st.temp != [] {
        groups := groups + [st.temp];
      }
      assert groups == Closed(st);
      var newSentence := AppendPhrases(groups, st.sentence);
      ghost var phrases := newSentence;
      newSentence := newSentence + " " + st.acronym;
      newSentence := newSentence + " " + st.english;
      AppendAssoc(phrases, " ", st.acronym);
      AppendAssoc(phrases, " " + st.acronym, " ");
      AppendAssoc(phrases, " " + st.acronym + " ", st.english);
      assert newSentence == phrases + Ending(st);
      assert Converted(dict, sentence) == Phrases(Closed(st), st.sentence) + Ending(st);
      return newSentence;
    }
  }
}

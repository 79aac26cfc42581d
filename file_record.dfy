/** The server's file records: the name, extension and hidden flag derived
    from a path, and the validation and normalisation of date strings. */
module FileRecord {
  import opened Common
  import StringHelper
  import Tools

  datatype FileRecord = FileRecord(fileName: string, fullPath: string, fileType: string, fileExt: string,
                                   modifyTime: int, fileSize: int, isHidden: bool)

  /** `path::filename()`: the text after the last '/', empty when the path
      ends in '/'. */
  function FileName(p: string): (r: string)
    ensures IsSuffix(r, p) && '/' !in r
  {
    match LastIndexOf(p, '/')
    case None => p
    case Some(i) => p[i + 1..]
  }

  /** `path::extension()`: from the last '.' of the file name to its end;
      empty for "." and "..", for a name without a dot and for a name whose
      only dot is its first character. */
  function Extension(name: string): (r: string)
    ensures IsSuffix(r, name)
    ensures r != [] ==> r[0] == '.' && '.' !in r[1..] && |r| < |name|
  {
    if name == "." || name == ".." then []
    else
      match LastIndexOf(name, '.')
      case None => []
      case Some(i) => if i == 0 then [] else name[i..]
  }

  /** `file_ext`: the extension without its dot, unless it is the dot alone. */
  function FileExt(p: string): string
  {
    var ext := Extension(FileName(p));
    if |ext| > 1 then ext[1..] else ext
  }

  /** `make_file_record`, with the `stat` result as a parameter. */
  function MakeFileRecord(p: string, st: Option<Tools.Stat>): (r: FileRecord)
    ensures r.fullPath == p && r.fileName == FileName(p) && r.fileExt == FileExt(p)
    ensures r.isHidden <==> Contains(p, "/.")
    ensures r.fileType == Tools.Info(p, st).fileType
    ensures r.modifyTime == Tools.Info(p, st).modifyTime && r.fileSize == Tools.Info(p, st).fileSize
  {
    var info := Tools.Info(p, st);
    FileRecord(FileName(p), p, info.fileType, FileExt(p), info.modifyTime, info.fileSize,
               StringHelper.ContainsStr(p, "/."))
  }

  /** The extension is empty, a lone dot (the name ends in '.'), or the text
      after the name's last dot, which is not its first character. */
  lemma ExtensionShape(p: string)
    ensures var name, ext := FileName(p), FileExt(p);
      ext == [] || ext == "." ||
      ('.' !in ext && exists stem :: stem != [] && name == stem + "." + ext)
  {
    var name := FileName(p);
    var e := Extension(name);
    if |e| > 1 {
      var stem, ext := name[..|name| - |e|], e[1..];
      assert FileExt(p) == ext && '.' !in ext;
      StemOf(name, e);
      assert stem != [] && name == stem + "." + ext;
    } else if e != [] {
      assert e == [e[0]];
      assert FileExt(p) == ".";
    }
  }

  lemma StemOf(name: string, e: string)
    requires IsSuffix(e, name) && |e| > 1 && |e| < |name| && e[0] == '.'
    ensures name == name[..|name| - |e|] + "." + e[1..]
  {
    assert name == name[..|name| - |e|] + e;
    assert e == "." + e[1..];
  }

  /** With no `c` after it, the `c` between `a` and `b` is the last one. */
  lemma {:induction false} LastIndexAt(a: string, c: char, b: string)
    requires c !in b
    ensures LastIndexOf(a + [c] + b, c) == Some(|a|)
    decreases |b|
  {
    var s := a + [c] + b;
    if b != [] {
      assert s[..|s| - 1] == a + [c] + b[..|b| - 1];
      LastIndexAt(a, c, b[..|b| - 1]);
    }
  }

  /** The path of an entry `name` in directory `dir`. */
  lemma FileNameOf(dir: string, name: string)
    requires '/' !in name
    ensures FileName(dir + "/" + name) == name
  {
    LastIndexAt(dir, '/', name);
    assert (dir + "/" + name)[|dir| + 1..] == name;
  }

  /** A name ending in '.' keeps the dot as its extension. */
  lemma TrailingDotExt(dir: string, stem: string)
    requires '/' !in stem && stem != [] && stem != "." && stem[0] != '.'
    ensures FileExt(dir + "/" + stem + ".") == "."
  {
    var name := stem + ".";
    var p := dir + "/" + stem + ".";
    assert p == dir + "/" + name;
    FileNameOf(dir, name);
    assert FileName(p) == name;
    assert name == stem + ['.'] + [];
    LastIndexAt(stem, '.', []);
    NotDots(name);
    ExtensionAt(name, |stem|);
    assert name[|stem|..] == ".";
  }

  lemma ExtensionAt(name: string, i: nat)
    requires LastIndexOf(name, '.') == Some(i) && 0 < i && name != "." && name != ".."
    ensures Extension(name) == name[i..]
  {
  }

  lemma NotDots(name: string)
    requires |name| >= 2 && name[0] != '.'
    ensures name != "." && name != ".."
  {
    assert ".."[0] == '.';
  }

  /** A name whose only dot leads it, such as ".bashrc", has no extension,
      but the path is hidden. */
  lemma DotFile(dir: string, rest: string)
    requires '/' !in rest && '.' !in rest && rest != [] && rest != "."
    ensures FileExt(dir + "/." + rest) == [] && MakeFileRecord(dir + "/." + rest, None).isHidden
  {
    var p := dir + "/." + rest;
    assert p == dir + "/" + ("." + rest);
    FileNameOf(dir, "." + rest);
    assert "." + rest == [] + ['.'] + rest;
    LastIndexAt([], '.', rest);
    HiddenComponent(dir, rest, None);
  }

  /** Any component starting with '.' makes the path hidden. */
  lemma HiddenComponent(before: string, after: string, st: Option<Tools.Stat>)
    ensures MakeFileRecord(before + "/." + after, st).isHidden
  {
    var p := before + "/." + after;
    assert p[|before|..|before| + 2] == "/.";
    assert OccursAt("/.", p, |before|);
  }

  /* Date strings. */

  /** "YYYY-MM-DD HH:MM:SS", with no range check on the digits. */
  predicate DateTime(s: string)
  {
    |s| == 19 && s[4] == '-' && s[7] == '-' && s[10] == ' ' && s[13] == ':' && s[16] == ':'
    && forall i :: 0 <= i < 19 && i != 4 && i != 7 && i != 10 && i != 13 && i != 16 ==> IsDigit(s[i])
  }

  /** "YYYY-MM-DD". */
  predicate Date(s: string)
  {
    |s| == 10 && s[4] == '-' && s[7] == '-' && forall i :: 0 <= i < 10 && i != 4 && i != 7 ==> IsDigit(s[i])
  }

  /** "YYYY". */
  predicate Year(s: string)
  {
    |s| == 4 && forall i :: 0 <= i < 4 ==> IsDigit(s[i])
  }

  /** The normalised form of an accepted date string. */
  function Normalised(s: string): (r: Option<string>)
    ensures r.Some? <==> DateTime(s) || Date(s) || Year(s)
    ensures r.Some? ==> DateTime(r.value) && IsPrefix(s, r.value)
  {
    if DateTime(s) then Some(s)
    else if Date(s) then
      var r := s + " 00:00:00";
      assert r[..10] == s;
      Some(r)
    else if Year(s) then
      var r := s + "-01-01 00:00:00";
      assert r[..4] == s;
      Some(r)
    else None
  }

  /** `is_valid_date_format`: the string is passed by reference, so the
      method returns its new value. */
  method IsValidDateFormat(dateTime: string) returns (ok: bool, out: string)
    ensures ok == Normalised(dateTime).Some?
    ensures out == if ok then Normalised(dateTime).value else dateTime
  {
    out := dateTime;
    if |dateTime| == 19 {
      if dateTime[4] != '-' || dateTime[7] != '-' || dateTime[10] != ' ' || dateTime[13] != ':' || dateTime[16] != ':' {
        return false, out;
      }
      for i := 0 to |dateTime|
        invariant forall j :: 0 <= j < i && j != 4 && j != 7 && j != 10 && j != 13 && j != 16 ==> IsDigit(dateTime[j])
      {
        if i == 4 || i == 7 || i == 10 || i == 13 || i == 16 {
          continue;
        }
        if !IsDigit(dateTime[i]) {
          return false, out;
        }
      }
      return true, out;
    } else if |dateTime| == 10 {
      if dateTime[4] != '-' || dateTime[7] != '-' {
        return false, out;
      }
      for i := 0 to |dateTime|
        invariant forall j :: 0 <= j < i && j != 4 && j != 7 ==> IsDigit(dateTime[j])
      {
        if i == 4 || i == 7 {
          continue;
        }
        if !IsDigit(dateTime[i]) {
          return false, out;
        }
      }
      out := out + " 00:00:00";
      return true, out;
    } else if |dateTime| == 4 {
      var i := 0;
      while i < |dateTime| && IsDigit(dateTime[i])
        invariant 0 <= i <= |dateTime|
        invariant forall j :: 0 <= j < i ==> IsDigit(dateTime[j])
      {
        i := i + 1;
      }
      if i == |dateTime| {
        out := out + "-01-01 00:00:00";
        return true, out;
      }
      return false, out;
    }
    return false, out;
  }

  /** Normalising is idempotent. */
  lemma NormalisedIdempotent(s: string)
    requires Normalised(s).Some?
    ensures Normalised(Normalised(s).value) == Normalised(s)
  {
  }

  /** Months and days are not range-checked: any digits are accepted. */
  lemma AnyDigitsAccepted(y: string, m: string, d: string)
    requires Year(y) && |m| == 2 && |d| == 2 && IsDigit(m[0]) && IsDigit(m[1]) && IsDigit(d[0]) && IsDigit(d[1])
    ensures Normalised(y + "-" + m + "-" + d) == Some(y + "-" + m + "-" + d + " 00:00:00")
  {
    var s := y + "-" + m + "-" + d;
    assert s[4] == '-' && s[7] == '-';
    assert forall i :: 0 <= i < 4 ==> s[i] == y[i];
    assert s[5] == m[0] && s[6] == m[1] && s[8] == d[0] && s[9] == d[1];
    assert Date(s);
  }

  lemma NoRangeCheck()
    ensures Normalised("9999-99-99") == Some("9999-99-99 00:00:00")
  {
    assert Year("9999");
    AnyDigitsAccepted("9999", "99", "99");
    assert "9999" + "-" + "99" + "-" + "99" == "9999-99-99";
    assert "9999-99-99" + " 00:00:00" == "9999-99-99 00:00:00";
  }

  /** A date string differs from its normalised form only by the time, or by
      month, day and time, appended to it. */
  lemma NormalisedSuffix(s: string)
    requires Normalised(s).Some?
    ensures var r := Normalised(s).value;
      (|s| == 19 && r == s) || (|s| == 10 && r == s + " 00:00:00") || (|s| == 4 && r == s + "-01-01 00:00:00")
  {
  }
}

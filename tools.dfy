/** The server's C utilities: the file-type classification of
    `get_file_info`, the `format_size` threshold and the thread-pool size
    read from the environment. `stat`, `getenv` and `g_format_size` are
    parameters of the model. */
module Tools {
  import opened Common
  import StringHelper

  /** `MAX_EXTENSION`: the longest extension, dot included, that is looked up. */
  const MAX_EXTENSION: nat := 10

  /* The extension lists. Each C literal of the table is one Dafny literal
     below; adjacent literals are joined, so one that ends in ';' next to one
     that starts with ';' leaves ";;" in the list. The second archive literal
     has its leading ';' written apart so that the join can be reasoned about. */
  const APP_LIST: string := ";desktop;"
  const ARCHIVE_1: string := ";7z;ace;arj;bz2;cab;gz;gzip;jar;r00;r01;r02;r03;r04;r05;r06;r07;r08;r09;"
  const ARCHIVE_2: string := ";" + "r10;r11;r12;r13;r14;r15;r16;r17;r18;r19;r20;r21;r22;r23;r24;r25;r26;r27;"
  const ARCHIVE_3: string := ";r28;r29;rar;tar;tgz;z;zip;"
  const ARCHIVE_LIST: string := ARCHIVE_1 + ARCHIVE_2 + ARCHIVE_3
  const AUDIO_LIST: string :=
    ";aac;ac3;aif;aifc;aiff;au;cda;dts;fla;flac;it;m1a;m2a;m3u;m4a;mid;midi;"
    + ";mka;mod;mp2;mp3;mpa;ogg;opus;ra;rmi;spc;rmi;snd;umx;voc;wav;wma;xm;ape;"
  const DOC_LIST: string :=
    ";c;chm;cpp;csv;cxx;doc;docm;docx;dot;dotm;dotx;h;hpp;htm;html;hxx;ini;java;"
    + ";lua;mht;mhtml;ods;odt;odp;pdf;potx;potm;ppam;ppsm;ppsx;pps;ppt;pptm;pptx;rtf;"
    + ";sldm;sldx;thmx;txt;vsd;wpd;wps;wri;xlam;xls;xlsb;xlsm;xlsx;xltm;xltx;xml;latex;"
    + ";wpt;md;odg;dps;sh;xhtml;dhtml;shtm;shtml;json;css;yaml;bat;js;sql;uof;ofd;log;tex;"
  const PIC_LIST: string := ";ani;bmp;gif;ico;jpe;jpeg;jpg;pcx;png;psd;tga;tif;tiff;webp;wmf;svg;"
  const VIDEO_LIST: string :=
    ";3g2;3gp;3gp2;3gpp;amr;amv;asf;asx;avi;bdmv;bik;d2v;divx;drc;dsa;dsm;dss;dsv;"
    + ";evo;f4v;flc;fli;flic;flv;hdmov;ifo;ivf;m1v;m2p;m2t;m2ts;m2v;m4b;m4p;m4v;mkv;"
    + ";mp2v;mp4;mp4v;mpe;mpeg;mpg;mpls;mpv2;mpv4;mov;mts;ogm;ogv;pss;pva;qt;ram;"
    + ";ratdvd;rm;rmm;rmvb;roq;rpm;smil;smk;swf;tp;tpr;ts;vob;vp6;webm;wm;wmp;wmv;"

  /** `file_type_maps`: category name and extension list, searched in order. */
  const FILE_TYPE_MAPS: seq<(string, string)> := [
    ("app", APP_LIST), ("archive", ARCHIVE_LIST), ("audio", AUDIO_LIST),
    ("doc", DOC_LIST), ("pic", PIC_LIST), ("video", VIDEO_LIST)]

  /** What `stat` reports, reduced to what is used. */
  datatype FileKind = Directory | Regular | OtherKind
  datatype Stat = Stat(kind: FileKind, mtime: int, size: int)

  /** The out-parameters and return value of `get_file_info`. */
  datatype FileInfo = FileInfo(ret: int, fileType: string, modifyTime: int, fileSize: int)

  /** `g_ascii_tolower`. */
  function AsciiLower(c: char): (r: char)
    ensures 'A' <= c <= 'Z' ==> r as int == c as int + 32
    ensures !('A' <= c <= 'Z') ==> r == c
  {
    if 'A' <= c <= 'Z' then (c as int + 32) as char else c
  }

  /** `g_ascii_strdown`. */
  function AsciiLowerStr(s: string): (r: string)
    ensures |r| == |s| && forall i :: 0 <= i < |s| ==> r[i] == AsciiLower(s[i])
  {
    seq(|s|, i requires 0 <= i < |s| => AsciiLower(s[i]))
  }

  /** `strrchr(s, '.')`: the index of the last dot. */
  function LastDot(s: string): (r: Option<nat>)
    ensures r.Some? ==> r.value < |s| && s[r.value] == '.' && forall j :: r.value < j < |s| ==> s[j] != '.'
    ensures r.None? ==> forall j :: 0 <= j < |s| ==> s[j] != '.'
  {
    if s == [] then None
    else if s[|s| - 1] == '.' then Some(|s| - 1)
    else LastDot(s[..|s| - 1])
  }

  /** The search key: the lowercased text after the dot between semicolons. */
  function ExtensionKey(path: string, dot: nat): string
    requires dot < |path|
  {
    AsciiLowerStr(";" + path[dot + 1..] + ";")
  }

  /** The first category whose list holds `key` as a substring, else "other". */
  function Lookup(key: string): (r: string)
    ensures r != "other" ==>
      exists k :: (0 <= k < |FILE_TYPE_MAPS| && FILE_TYPE_MAPS[k].0 == r
        && Contains(FILE_TYPE_MAPS[k].1, key) && forall j :: 0 <= j < k ==> !Contains(FILE_TYPE_MAPS[j].1, key))
    ensures r == "other" <==> forall k :: 0 <= k < |FILE_TYPE_MAPS| ==> !Contains(FILE_TYPE_MAPS[k].1, key)
  {
    LookupFrom(key, 0)
  }

  function LookupFrom(key: string, k: nat): (r: string)
    requires k <= |FILE_TYPE_MAPS|
    ensures r != "other" ==>
      exists i :: (k <= i < |FILE_TYPE_MAPS| && FILE_TYPE_MAPS[i].0 == r
        && Contains(FILE_TYPE_MAPS[i].1, key) && forall j :: k <= j < i ==> !Contains(FILE_TYPE_MAPS[j].1, key))
    ensures r == "other" <==> forall i :: k <= i < |FILE_TYPE_MAPS| ==> !Contains(FILE_TYPE_MAPS[i].1, key)
    decreases |FILE_TYPE_MAPS| - k
  {
    if k == |FILE_TYPE_MAPS| then "other"
    else if StringHelper.ContainsStr(FILE_TYPE_MAPS[k].1, key) then FILE_TYPE_MAPS[k].0
    else LookupFrom(key, k + 1)
  }

  /** The type of a regular file, decided by its path alone. */
  function RegularType(path: string): (r: string)
    ensures r != "dir"
    ensures r == "other" || exists k :: 0 <= k < |FILE_TYPE_MAPS| && FILE_TYPE_MAPS[k].0 == r
    ensures (forall j :: 0 <= j < |path| ==> path[j] != '.') ==> r == "other"
  {
    match LastDot(path)
    case None => "other"
    case Some(dot) => if |path| - dot > MAX_EXTENSION then "other" else Lookup(ExtensionKey(path, dot))
  }

  /** What `get_file_info` reports for `path` when `stat` gives `st`. */
  function Info(path: string, st: Option<Stat>): (r: FileInfo)
    ensures r.ret == 0 <==> st.Some?
    ensures r.fileType == "dir" <==> st.Some? && st.value.kind == Directory
    ensures st.Some? ==> r.modifyTime == st.value.mtime && r.fileSize == st.value.size
    ensures st.None? ==> r.ret == 1 && r.fileType == "other"
  {
    match st
    case None => FileInfo(1, "other", 0, 0)
    case Some(s) =>
      FileInfo(0, if s.kind == Directory then "dir" else if s.kind == Regular then RegularType(path) else "other",
               s.mtime, s.size)
  }

  /** `get_file_info`: a failed `stat` returns 1 with type "other" and zero
      times; otherwise the table is searched in order for a regular file. */
  method GetFileInfo(path: string, st: Option<Stat>) returns (ret: int, fileType: string, modifyTime: int, fileSize: int)
    ensures FileInfo(ret, fileType, modifyTime, fileSize) == Info(path, st)
  {
    fileType := "other";
    modifyTime, fileSize := 0, 0;
    if st.None? {
      return 1, fileType, modifyTime, fileSize;
    }
    modifyTime, fileSize := st.value.mtime, st.value.size;
    ret := 0;
    if st.value.kind == Directory {
      fileType := "dir";
    } else if st.value.kind == Regular {
      var dot := LastDot(path);
      if dot.None? {
        return;
      }
      if |path| - dot.value > MAX_EXTENSION {
        return;
      }
      var key := AsciiLowerStr(";" + path[dot.value + 1..] + ";");
      var k := 0;
      while k < |FILE_TYPE_MAPS|
        invariant 0 <= k <= |FILE_TYPE_MAPS|
        invariant LookupFrom(key, k) == Lookup(key)
      {
        if StringHelper.ContainsStr(FILE_TYPE_MAPS[k].1, key) {
          fileType := FILE_TYPE_MAPS[k].0;
          return;
        }
        k := k + 1;
      }
    }
  }

  /** A directory is "dir" whatever its name. */
  lemma DirectoryType(path: string, mtime: int, size: int)
    ensures Info(path, Some(Stat(Directory, mtime, size))) == FileInfo(0, "dir", mtime, size)
  {
  }

  /** A regular file without a dot in its path, or whose last dot starts
      more than `MAX_EXTENSION` characters from the end, is "other". */
  lemma NoExtension(path: string)
    ensures (forall j :: 0 <= j < |path| ==> path[j] != '.') ==> RegularType(path) == "other"
    ensures forall d :: (0 <= d < |path| - MAX_EXTENSION && path[d] == '.'
      && (forall j :: d < j < |path| ==> path[j] != '.')) ==> RegularType(path) == "other"
  {
  }

  /** Lowercasing the path does not change its type: the key is lowercased. */
  lemma CaseInsensitive(path: string)
    ensures RegularType(AsciiLowerStr(path)) == RegularType(path)
  {
    var low := AsciiLowerStr(path);
    assert forall j :: 0 <= j < |path| ==> (low[j] == '.' <==> path[j] == '.');
    LastDotSame(path, low);
    if LastDot(path).Some? {
      LowerKey(path, LastDot(path).value);
    }
  }

  /** The search key of the lowercased path is the key of the path. */
  lemma LowerKey(path: string, dot: nat)
    requires dot < |path|
    ensures ExtensionKey(AsciiLowerStr(path), dot) == ExtensionKey(path, dot)
  {
    var low := AsciiLowerStr(path);
    var a, b := ";" + low[dot + 1..] + ";", ";" + path[dot + 1..] + ";";
    assert |a| == |b|;
    forall i | 0 <= i < |a|
      ensures AsciiLower(a[i]) == AsciiLower(b[i])
    {
      if 0 < i < |a| - 1 {
        assert a[i] == low[dot + i] && b[i] == path[dot + i];
      }
    }
    assert AsciiLowerStr(a) == AsciiLowerStr(b);
  }

  lemma {:induction false} LastDotSame(a: string, b: string)
    requires |a| == |b| && forall j :: 0 <= j < |a| ==> (a[j] == '.' <==> b[j] == '.')
    ensures LastDot(a) == LastDot(b)
  {
    if a != [] {
      LastDotSame(a[..|a| - 1], b[..|b| - 1]);
    }
  }

  /** The archive list holds ";;" where its first two literals meet. */
  lemma ArchiveHoldsEmpty()
    ensures Contains(ARCHIVE_LIST, ";;")
  {
    assert |ARCHIVE_1| == 72 && ARCHIVE_1[71] == ';';
    Meet(ARCHIVE_1, ARCHIVE_2, ARCHIVE_3);
  }

  lemma Meet(a: string, b: string, c: string)
    requires |a| >= 1 && a[|a| - 1] == ';' && |b| >= 1 && b[0] == ';'
    ensures Contains(a + b + c, ";;")
  {
    var s := a + b + c;
    assert s[|a| - 1..|a| + 1] == [a[|a| - 1], b[0]];
    assert OccursAt(";;", s, |a| - 1);
  }

  lemma AppLacksEmpty()
    ensures !Contains(APP_LIST, ";;")
  {
    forall j | 0 <= j <= |APP_LIST| ensures !OccursAt(";;", APP_LIST, j) {
      if j + 2 <= |APP_LIST| {
        assert APP_LIST[j..j + 2] == [APP_LIST[j], APP_LIST[j + 1]];
      }
    }
  }

  /** A regular file whose path ends in '.' is an "archive": its key is ";;",
      which the archive list holds and the app list does not. */
  lemma TrailingDotIsArchive(path: string)
    requires |path| >= 1 && path[|path| - 1] == '.'
    ensures RegularType(path) == "archive"
  {
    TrailingDotKey(path);
    ArchiveHoldsEmpty();
    AppLacksEmpty();
    assert LookupFrom(";;", 1) == "archive";
  }

  lemma TrailingDotKey(path: string)
    requires |path| >= 1 && path[|path| - 1] == '.'
    ensures LastDot(path) == Some(|path| - 1) && ExtensionKey(path, |path| - 1) == ";;"
  {
    assert path[|path|..] == [];
  }

  /** `format_size`: below 1000 the size in decimal with " B"; otherwise
      whatever `g_format_size` gives. */
  function FormatSize(size: int, gFormatSize: int -> string): (r: string)
    ensures size < 1000 ==> |r| >= 3 && r[|r| - 2..] == " B"
    ensures size < 0 ==> r[0] == '-'
  {
    if size < 1000 then (if size < 0 then "-" + Decimal(-size) else Decimal(size)) + " B"
    else gFormatSize(size)
  }

  /** Below the threshold the text is the digits of the size and " B", at
      most three digits, and the digits read back as the size. */
  lemma SmallSize(n: nat, gFormatSize: int -> string)
    requires n < 1000
    ensures var r := FormatSize(n, gFormatSize);
      2 < |r| <= 5 && r[|r| - 2..] == " B"
      && (forall i :: 0 <= i < |r| - 2 ==> IsDigit(r[i])) && DecimalValue(r[..|r| - 2]) == n
  {
    var r := FormatSize(n, gFormatSize);
    assert r[..|r| - 2] == Decimal(n);
    DecimalRoundTrip(n);
    DecimalLength(n);
  }

  lemma {:induction false} DecimalLength(n: nat)
    ensures n < 10 ==> |Decimal(n)| == 1
    ensures n < 100 ==> |Decimal(n)| <= 2
    ensures n < 1000 ==> |Decimal(n)| <= 3
  {
    if n >= 10 {
      DecimalLength(n / 10);
    }
  }

  /** `g_ascii_isspace`. */
  predicate AsciiSpace(c: char)
  {
    c == ' ' || c == '\t' || c == '\n' || c == '\r' || c == '\U{000B}' || c == '\U{000C}'
  }

  const TWO64: nat := 0x1_0000_0000_0000_0000

  /** The result of `g_ascii_strtoull(s, &end, 10)`: the value, the index of
      `end` and whether `errno` was set to `ERANGE`. */
  datatype Parsed = Parsed(value: nat, end: nat, overflow: bool)

  function Blanks(s: string): (n: nat)
    ensures n <= |s| && (forall i :: 0 <= i < n ==> AsciiSpace(s[i])) && (n < |s| ==> !AsciiSpace(s[n]))
  {
    if s != [] && AsciiSpace(s[0]) then 1 + Blanks(s[1..]) else 0
  }

  /** Leading blanks are skipped and one sign is allowed; without a digit
      nothing is converted and `end` is the start of the string; a value past
      the 64-bit range is an overflow; a minus sign negates modulo 2^64. */
  function StrToULL(s: string): (r: Parsed)
    ensures r.end <= |s| && (r.value < TWO64)
  {
    var ws := Blanks(s);
    var sign := if ws < |s| && (s[ws] == '+' || s[ws] == '-') then 1 else 0;
    var digits := LeadingDigits(s[ws + sign..]);
    if digits == [] then Parsed(0, 0, false)
    else
      var v := DecimalValue(digits);
      var end := ws + sign + |digits|;
      if v >= TWO64 then Parsed(TWO64 - 1, end, true)
      else if sign == 1 && s[ws] == '-' then Parsed((TWO64 - v) % TWO64, end, false)
      else Parsed(v, end, false)
  }

  /** `get_thread_pool_size_from_env`: the default when the variable is
      unset, overflows or has trailing characters; otherwise the value,
      truncated to `unsigned int`, clamped to 1..128. */
  function ThreadPoolSize(env: Option<string>, default: u32): (r: u32)
    ensures env.None? ==> r == default
    ensures env.Some? && (StrToULL(env.value).overflow || StrToULL(env.value).end != |env.value|) ==> r == default
    ensures env.Some? && !StrToULL(env.value).overflow && StrToULL(env.value).end == |env.value| ==> 1 <= r <= 128
  {
    match env
    case None => default
    case Some(s) =>
      var p := StrToULL(s);
      if p.overflow || p.end != |s| then default
      else
        Clamp(Wrap32(p.value))
  }

  /** The size kept within 1..128. */
  function Clamp(size: u32): (r: u32)
    ensures 1 <= r <= 128
    ensures 1 <= size <= 128 ==> r == size
  {
    if size < 1 then 1 else if size > 128 then 128 else size
  }

  /** A number written in decimal is read back and clamped. */
  lemma ThreadPoolDecimal(n: nat, default: u32)
    requires n < TWO32
    ensures ThreadPoolSize(Some(Decimal(n)), default) == Clamp(n)
  {
    DecimalParses(n);
    Converted(Decimal(n), n, default);
    WrapSmall(n);
  }

  lemma WrapSmall(n: nat)
    requires n < TWO32
    ensures Wrap32(n) == n
  {
  }

  lemma Converted(s: string, v: nat, default: u32)
    requires StrToULL(s) == Parsed(v, |s|, false)
    ensures ThreadPoolSize(Some(s), default) == Clamp(Wrap32(v))
  {
  }

  /** A decimal numeral below 2^64 converts to its value with nothing left over. */
  lemma DecimalParses(n: nat)
    requires n < TWO64
    ensures StrToULL(Decimal(n)) == Parsed(n, |Decimal(n)|, false)
  {
    var s := Decimal(n);
    assert !AsciiSpace(s[0]) && s[0] != '+' && s[0] != '-';
    assert Blanks(s) == 0;
    assert s[0..] == s;
    AllDigits(s);
    DecimalRoundTrip(n);
  }

  /** Trailing text after the number falls back to the default. */
  lemma TrailingText(n: nat, tail: string, default: u32)
    requires tail != [] && !IsDigit(tail[0])
    ensures ThreadPoolSize(Some(Decimal(n) + tail), default) == default
  {
    TrailingEnd(n, tail);
  }

  lemma TrailingEnd(n: nat, tail: string)
    requires tail != [] && !IsDigit(tail[0])
    ensures StrToULL(Decimal(n) + tail).end == |Decimal(n)|
  {
    var s := Decimal(n) + tail;
    assert !AsciiSpace(s[0]) && s[0] != '+' && s[0] != '-';
    assert Blanks(s) == 0;
    assert s[0..] == s;
    DigitsThen(Decimal(n), tail);
  }

  lemma {:induction false} DigitsThen(d: string, tail: string)
    requires forall i :: 0 <= i < |d| ==> IsDigit(d[i])
    requires tail != [] && !IsDigit(tail[0])
    ensures LeadingDigits(d + tail) == d
  {
    if d != [] {
      assert (d + tail)[1..] == d[1..] + tail;
      DigitsThen(d[1..], tail);
    }
  }

  /** An empty value converts nothing but leaves `end` at the terminator, so
      it is taken as 0 and clamped to 1 rather than falling back. */
  lemma EmptyIsOne(default: u32)
    ensures ThreadPoolSize(Some(""), default) == 1
  {
  }

  /** The conversion is truncated to 32 bits before clamping:
      4294967297 (2^32 + 1) gives 1, not 128. */
  lemma WrapsBeforeClamp(default: u32)
    ensures ThreadPoolSize(Some(Decimal(TWO32 + 1)), default) == 1
  {
    DecimalParses(TWO32 + 1);
    assert (TWO32 + 1) % TWO32 == 1;
  }
}

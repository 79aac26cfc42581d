/** Keeping the kernel's set of monitored unnamed devices in step with the
    dlnfs minors found in the mount table: the three copies of
    `update_vfs_unnamed_device` and their `read_vfs_unnamed_device` helpers
    (src/server/backend/eventsource_genl.cpp, src/server/backend/partition.cpp,
    src/server/src/core/mount_manager.cpp). The sysfs attribute is the kernel
    object `VfsSysfs.UnnamedDevices`; whether opening it succeeds is given as
    parameters: `readable` for the read, and `failed`, the positions in write
    order of the writes whose open fails. */
module UnnamedSync {
  import opened Common
  import StringHelper
  import VfsSysfs

  /** The elements of a sequence. */
  function Tokens(xs: seq<string>): set<string>
  {
    set x | x in xs
  }

  /** `xs` holds every element of `s` exactly once: one way of iterating the
      set (`QSet` and `std::unordered_set` give no order). */
  predicate Lists(xs: seq<string>, s: set<string>)
  {
    Tokens(xs) == s && |xs| == |s|
  }

  /** The minors the kernel currently monitors, in decimal. */
  function Held(flags: seq<bool>): set<string>
  {
    set m | 0 <= m < |flags| && flags[m] :: Decimal(m)
  }

  /** The minors `N` in decimal, as `setNum` and the mount table write them. */
  function DecimalSet(N: set<nat>): set<string>
  {
    set n | n in N :: Decimal(n)
  }

  /** A token the kernel can list: a minor in decimal, or the empty token
      that splitting an empty listing leaves. */
  predicate Canonical(x: string)
  {
    x == "" || exists m :: 0 <= m < VfsSysfs.MINORS && x == Decimal(m)
  }

  // Reading the attribute.

  /** `QFile::readLine`: the text up to and including the first newline. */
  function ReadLine(text: string): (r: string)
    ensures IsPrefix(r, text)
    ensures r == text || (r != [] && r[|r| - 1] == '\n')
  {
    match StringHelper.Find(text, "\n")
    case None => text
    case Some(p) => text[..p + 1]
  }

  /** The Qt `read_vfs_unnamed_device`: the first line with its last
      character chopped, split at commas. */
  function ReadChopped(text: string): (r: set<string>)
    ensures r != {}
  {
    var line := ReadLine(text);
    var chopped := if line == [] then [] else line[..|line| - 1];
    var ts := StringHelper.SplitSpec(chopped, ",");
    assert ts[0] in Tokens(ts);
    Tokens(ts)
  }

  /** `std::getline`: the text before the first newline, or nothing when the
      stream is empty. */
  function GetLine(text: string): (r: Option<string>)
    ensures r.None? <==> text == []
    ensures r.Some? ==> IsPrefix(r.value, text)
  {
    if text == [] then None
    else
      match StringHelper.Find(text, "\n")
      case None => Some(text)
      case Some(p) => Some(text[..p])
  }

  /** A line holding nothing but spaces (`find_first_not_of(' ') == npos`). */
  predicate Blank(line: string)
  {
    forall i :: 0 <= i < |line| ==> line[i] == ' '
  }

  /** mount_manager's `read_vfs_unnamed_device` as written, once the file is
      open: a blank first line fails (`None`), no line at all is the empty
      set, and otherwise the line split at commas. */
  function ReadBlankFails(text: string): (r: Option<set<string>>)
    ensures r.None? <==> GetLine(text).Some? && Blank(GetLine(text).value)
    ensures GetLine(text).None? ==> r == Some({})
  {
    match GetLine(text)
    case None => Some({})
    case Some(line) => if Blank(line) then None else Some(Tokens(StringHelper.SplitSpec(line, ",")))
  }

  /** The same read with a blank line taken as the empty set it stands for. */
  function ReadBlankEmpty(text: string): (r: set<string>)
    ensures ReadBlankFails(text).Some? ==> r == ReadBlankFails(text).value
    ensures ReadBlankFails(text).None? ==> r == {}
  {
    match GetLine(text)
    case None => {}
    case Some(line) => if Blank(line) then {} else Tokens(StringHelper.SplitSpec(line, ","))
  }

  // The writes.

  /** One write: the action letter then the minor; with `clip`, cut to the
      31 characters `snprintf` leaves room for in a 32-byte buffer. */
  function Command(act: char, minor: string, clip: bool): (r: string)
    ensures |minor| <= 30 || !clip ==> r == [act] + minor
    ensures |r| >= 1 && r[0] == act
  {
    var full := [act] + minor;
    if clip && |full| > 31 then full[..31] else full
  }

  /** One write per minor, in order. */
  function Commands(act: char, ms: seq<string>, clip: bool): (r: seq<string>)
    ensures |r| == |ms| && forall k :: 0 <= k < |r| ==> |r[k]| >= 1 && r[k][0] == act
  {
    if ms == [] then [] else Commands(act, ms[..|ms| - 1], clip) + [Command(act, ms[|ms| - 1], clip)]
  }

  /** What `update_vfs_unnamed_device` writes: "r" for each removed minor,
      then "a" for each added one. */
  function Plan(removed: seq<string>, added: seq<string>, clip: bool): (r: seq<string>)
    ensures |r| == |removed| + |added|
    ensures forall k :: 0 <= k < |removed| ==> |r[k]| >= 1 && r[k][0] == 'r'
    ensures forall k :: |removed| <= k < |r| ==> |r[k]| >= 1 && r[k][0] == 'a'
  {
    var rs, ads := Commands('r', removed, clip), Commands('a', added, clip);
    assert forall k :: |removed| <= k < |removed| + |added| ==> (rs + ads)[k] == ads[k - |removed|];
    rs + ads
  }

  /** The flags after each write of `ws` in turn; a write whose position is
      in `failed` could not open the file and changes nothing. */
  function ApplyWrites(flags: seq<bool>, ws: seq<string>, failed: set<nat>): (r: seq<bool>)
    requires |flags| == VfsSysfs.MINORS
    ensures |r| == VfsSysfs.MINORS
  {
    if ws == [] then flags
    else
      var f := ApplyWrites(flags, ws[..|ws| - 1], failed);
      if |ws| - 1 in failed then f else VfsSysfs.Apply(f, ws[|ws| - 1]).0
  }

  /** How many writes are made before the first failed open, out of `n`. */
  function Attempted(n: nat, failed: set<nat>): (k: nat)
    ensures k <= n && forall i :: 0 <= i < k ==> i !in failed
    ensures k < n ==> k in failed
  {
    if n == 0 then 0
    else
      var k := Attempted(n - 1, failed);
      if k < n - 1 || n - 1 in failed then k else n
  }

  /** Iterating a set: each element once, in an order the model leaves open. */
  method Enumerate(s: set<string>) returns (xs: seq<string>)
    ensures Lists(xs, s)
  {
    xs := [];
    var rest := s;
    while rest != {}
      invariant Tokens(xs) + rest == s && Tokens(xs) !! rest
      invariant |xs| == |Tokens(xs)|
      decreases |rest|
    {
      var x :| x in rest;
      TokensSnoc(xs, x);
      xs := xs + [x];
      rest := rest - {x};
    }
  }

  lemma TokensSnoc(xs: seq<string>, x: string)
    ensures Tokens(xs + [x]) == Tokens(xs) + {x}
  {
    assert forall y :: y in xs + [x] <==> y in xs || y == x;
  }

  /** Writing each command to the attribute. Without `stop` a failed open is
      only logged (the netlink backend); with `stop` the first failure ends
      the writes and the result is false. */
  method WriteAll(dev: VfsSysfs.UnnamedDevices, ws: seq<string>, failed: set<nat>, stop: bool) returns (ok: bool)
    requires dev.Valid()
    modifies dev.flags
    ensures dev.Valid()
    ensures !stop ==> ok && dev.flags[..] == ApplyWrites(old(dev.flags[..]), ws, failed)
    ensures stop ==> ok == (Attempted(|ws|, failed) == |ws|)
    ensures stop ==> dev.flags[..] == ApplyWrites(old(dev.flags[..]), ws[..Attempted(|ws|, failed)], {})
  {
    ghost var start := dev.flags[..];
    var i := 0;
    while i < |ws|
      invariant i <= |ws| && dev.Valid()
      invariant !stop ==> dev.flags[..] == ApplyWrites(start, ws[..i], failed)
      invariant stop ==> Attempted(i, failed) == i && dev.flags[..] == ApplyWrites(start, ws[..i], {})
    {
      assert ws[..i + 1][..i] == ws[..i];
      if i in failed {
        if stop {
          assert Attempted(|ws|, failed) == i by { AttemptedStays(i, |ws|, failed); }
          return false;
        }
      } else {
        var _ := dev.Store(ws[i]);
      }
      i := i + 1;
    }
    assert ws[..i] == ws;
    return true;
  }

  /** Once a write has failed, the count of attempted writes stays put. */
  lemma {:induction false} AttemptedStays(k: nat, n: nat, failed: set<nat>)
    requires k < n && Attempted(k, failed) == k && k in failed
    ensures Attempted(n, failed) == k
    decreases n
  {
    if n > k + 1 {
      AttemptedStays(k, n - 1, failed);
    }
  }

  // The three copies of update_vfs_unnamed_device.

  /** The outcome of a copy that stops at the first failed write: the
      minors of `olds` not in `news` are removed, then those of `news` not
      in `olds` are added, `ok` tells whether every write was made, and the
      flags show the writes made before the first failure. */
  ghost predicate Stopped(before: seq<bool>, after: seq<bool>, olds: set<string>, news: set<string>, failed: set<nat>,
                          ok: bool, removed: seq<string>, added: seq<string>, clip: bool)
  {
    |before| == VfsSysfs.MINORS &&
    Lists(removed, olds - news) && Lists(added, news - olds) &&
    var ws := Plan(removed, added, clip);
    ok == (Attempted(|ws|, failed) == |ws|) &&
    after == ApplyWrites(before, ws[..Attempted(|ws|, failed)], {})
  }


  /** eventsource_genl.cpp: a failed read leaves the old set empty, and
      failed writes are skipped. Returns the removed and added minors in the
      order they were written. */
  method GenlUpdate(dev: VfsSysfs.UnnamedDevices, news: set<string>, readable: bool, failed: set<nat>)
    returns (removed: seq<string>, added: seq<string>)
    requires dev.Valid()
    modifies dev.flags
    ensures dev.Valid()
    ensures var olds := if readable then ReadChopped(VfsSysfs.ShowSpec(old(dev.flags[..]))) else {};
      Lists(removed, olds - news) && Lists(added, news - olds)
    ensures dev.flags[..] == ApplyWrites(old(dev.flags[..]), Plan(removed, added, true), failed)
  {
    var olds: set<string> := {};
    if readable {
      var text, _ := dev.Show();
      olds := ReadChopped(text);
    }
    removed := Enumerate(olds - news);
    added := Enumerate(news - olds);
    var _ := WriteAll(dev, Plan(removed, added, true), failed, false);
  }

  /** partition.cpp: false when the read fails, and false at the first
      write that fails. */
  method PartitionUpdate(dev: VfsSysfs.UnnamedDevices, news: set<string>, readable: bool, failed: set<nat>)
    returns (ok: bool, removed: seq<string>, added: seq<string>)
    requires dev.Valid()
    modifies dev.flags
    ensures dev.Valid()
    ensures !readable ==> !ok && dev.flags[..] == old(dev.flags[..])
    ensures readable ==> Stopped(old(dev.flags[..]), dev.flags[..], ReadChopped(VfsSysfs.ShowSpec(old(dev.flags[..]))),
                                 news, failed, ok, removed, added, true)
  {
    removed, added := [], [];
    if !readable {
      return false, removed, added;
    }
    var text, _ := dev.Show();
    var olds := ReadChopped(text);
    removed := Enumerate(olds - news);
    added := Enumerate(news - olds);
    ok := WriteAll(dev, Plan(removed, added, true), failed, true);
  }

  /** mount_manager.cpp, with the blank line that an empty kernel set
      prints read as the empty set (see `ReadBlankFails` for the code as
      written); the minors are not clipped, since the strings are built
      with `+`. */
  method MountManagerUpdate(dev: VfsSysfs.UnnamedDevices, news: set<string>, readable: bool, failed: set<nat>)
    returns (ok: bool, removed: seq<string>, added: seq<string>)
    requires dev.Valid()
    modifies dev.flags
    ensures dev.Valid()
    ensures !readable ==> !ok && dev.flags[..] == old(dev.flags[..])
    ensures readable ==> Stopped(old(dev.flags[..]), dev.flags[..], ReadBlankEmpty(VfsSysfs.ShowSpec(old(dev.flags[..]))),
                                 news, failed, ok, removed, added, false)
  {
    removed, added := [], [];
    if !readable {
      return false, removed, added;
    }
    var text, _ := dev.Show();
    var olds := ReadBlankEmpty(text);
    removed := Enumerate(olds - news);
    added := Enumerate(news - olds);
    ok := WriteAll(dev, Plan(removed, added, false), failed, true);
  }

  // What the reads give back for the kernel's listing.

  lemma TokensOfDecimals(flags: seq<bool>)
    ensures Tokens(VfsSysfs.Decimals(VfsSysfs.Members(flags))) == Held(flags)
  {
    var ms := VfsSysfs.Members(flags);
    var ds := VfsSysfs.Decimals(ms);
    forall x | x in Tokens(ds) ensures x in Held(flags) {
      var k :| 0 <= k < |ds| && ds[k] == x;
      assert flags[ms[k]];
    }
    forall x | x in Held(flags) ensures x in Tokens(ds) {
      var m :| 0 <= m < |flags| && flags[m] && x == Decimal(m);
      var k :| 0 <= k < |ms| && ms[k] == m;
      assert ds[k] == x;
    }
  }

  /** The listing has one newline, at its end. */
  lemma ShowLine(flags: seq<bool>)
    ensures var text := VfsSysfs.ShowSpec(flags);
      ReadLine(text) == text && GetLine(text) == Some(text[..|text| - 1])
  {
    var body := StringHelper.Join(VfsSysfs.Decimals(VfsSysfs.Members(flags)), ",");
    JoinHasNoNewline(VfsSysfs.Decimals(VfsSysfs.Members(flags)));
    StringHelper.FindChar(body, '\n', []);
    assert body + ['\n'] + [] == VfsSysfs.ShowSpec(flags);
  }

  lemma {:induction false} JoinHasNoNewline(ts: seq<string>)
    requires forall k :: 0 <= k < |ts| ==> forall i :: 0 <= i < |ts[k]| ==> IsDigit(ts[k][i])
    ensures '\n' !in StringHelper.Join(ts, ",")
  {
    if |ts| > 1 {
      JoinHasNoNewline(ts[1..]);
      assert forall i :: 0 <= i < |ts[0]| ==> IsDigit(ts[0][i]);
    } else if |ts| == 1 {
      assert forall i :: 0 <= i < |ts[0]| ==> IsDigit(ts[0][i]);
    }
  }

  /** Round trip: what each read makes of the kernel's listing. The Qt read
      gives exactly the monitored minors, plus the empty token when there
      are none; the corrected mount_manager read gives exactly the
      monitored minors. */
  lemma ReadShown(flags: seq<bool>)
    requires |flags| == VfsSysfs.MINORS
    ensures ReadChopped(VfsSysfs.ShowSpec(flags)) == if VfsSysfs.Members(flags) == [] then {""} else Held(flags)
    ensures ReadBlankEmpty(VfsSysfs.ShowSpec(flags)) == Held(flags)
  {
    var text := VfsSysfs.ShowSpec(flags);
    ShowLine(flags);
    TokensOfDecimals(flags);
    if VfsSysfs.Members(flags) == [] {
      assert text == "\n";
      assert StringHelper.SplitSpec("", ",") == [""];
      assert Tokens([""]) == {""};
      assert Held(flags) == {};
    } else {
      VfsSysfs.ShowRoundTrip(flags);
      var ds := VfsSysfs.Decimals(VfsSysfs.Members(flags));
      assert ds[0] == Decimal(VfsSysfs.Members(flags)[0]);
      assert text[..|text| - 1] == StringHelper.Join(ds, ",");
      JoinNotBlank(ds);
    }
  }

  lemma JoinNotBlank(ds: seq<string>)
    requires |ds| >= 1 && |ds[0]| >= 1 && IsDigit(ds[0][0])
    ensures !Blank(StringHelper.Join(ds, ","))
  {
    var j := StringHelper.Join(ds, ",");
    if |ds| > 1 {
      assert j == ds[0] + "," + StringHelper.Join(ds[1..], ",");
    }
    assert j[0] == ds[0][0];
  }

  /** The code as written: with no minor monitored the kernel lists a bare
      newline, which mount_manager's read rejects as blank, so its
      `update_vfs_unnamed_device` returns false before writing anything and
      the first dlnfs device is never added. */
  lemma EmptySetUnreadable(flags: seq<bool>)
    requires |flags| == VfsSysfs.MINORS && forall i :: 0 <= i < |flags| ==> !flags[i]
    ensures ReadBlankFails(VfsSysfs.ShowSpec(flags)) == None
    ensures ReadBlankEmpty(VfsSysfs.ShowSpec(flags)) == {}
  {
    VfsSysfs.ShowEmpty(flags);
    assert VfsSysfs.ShowSpec(flags) == "\n";
    assert StringHelper.Find("\n", "\n") == Some(0);
  }

  // Applying the writes.

  lemma {:induction false} DecimalInjective(a: nat, b: nat)
    requires Decimal(a) == Decimal(b)
    ensures a == b
  {
    DecimalRoundTrip(a);
    DecimalRoundTrip(b);
  }

  lemma DecimalShort(m: nat)
    requires m < 1000
    ensures |Decimal(m)| <= 3
  {
    if m >= 10 {
      assert |Decimal(m)| == |Decimal(m / 10)| + 1;
      if m / 10 >= 10 {
        assert |Decimal(m / 10)| == |Decimal(m / 10 / 10)| + 1;
      }
    }
  }

  lemma {:induction false} ApplyAppend(flags: seq<bool>, a: seq<string>, b: seq<string>)
    requires |flags| == VfsSysfs.MINORS
    ensures ApplyWrites(flags, a + b, {}) == ApplyWrites(ApplyWrites(flags, a, {}), b, {})
    decreases |b|
  {
    if b == [] {
      assert a + b == a;
    } else {
      assert (a + b)[..|a + b| - 1] == a + b[..|b| - 1];
      ApplyAppend(flags, a, b[..|b| - 1]);
    }
  }

  /** One write of a listed token: the named minor is set ('a') or cleared
      ('r'); the empty token names none and is refused. */
  lemma ApplyOne(f: seq<bool>, act: char, x: string, clip: bool, i: nat)
    requires |f| == VfsSysfs.MINORS && (act == 'a' || act == 'r') && Canonical(x) && i < VfsSysfs.MINORS
    ensures VfsSysfs.Apply(f, Command(act, x, clip)).0[i] == if Decimal(i) == x then act == 'a' else f[i]
  {
    if x == "" {
      assert Command(act, x, clip) == [act];
      VfsSysfs.Invalid(f, [act]);
    } else {
      var m :| 0 <= m < VfsSysfs.MINORS && x == Decimal(m);
      DecimalShort(m);
      var cmd := Command(act, x, clip);
      assert cmd == [act] + Decimal(m);
      VfsSysfs.AddRemove(f, m);
      var g := f[m := act == 'a'];
      if act == 'a' {
        assert cmd == "a" + Decimal(m);
      } else {
        assert cmd == "r" + Decimal(m);
      }
      assert VfsSysfs.Apply(f, cmd).0 == g;
      if Decimal(i) == x {
        DecimalInjective(i, m);
      }
    }
  }

  /** One phase of writes with the same letter: a minor that appears is set
      ('a') or cleared ('r'), every other flag is kept. */
  lemma {:induction false} ApplyPhase(flags: seq<bool>, act: char, xs: seq<string>, clip: bool, i: nat)
    requires |flags| == VfsSysfs.MINORS && (act == 'a' || act == 'r') && i < VfsSysfs.MINORS
    requires forall k :: 0 <= k < |xs| ==> Canonical(xs[k])
    ensures ApplyWrites(flags, Commands(act, xs, clip), {})[i] == if Decimal(i) in xs then act == 'a' else flags[i]
  {
    if xs != [] {
      var front := xs[..|xs| - 1];
      var x := xs[|xs| - 1];
      ApplyPhase(flags, act, front, clip, i);
      var before := ApplyWrites(flags, Commands(act, front, clip), {});
      CommandsSnoc(flags, act, xs, clip);
      ApplyOne(before, act, x, clip, i);
      InSnoc(xs, Decimal(i));
    }
  }

  /** The phase's last write applies after the ones before it. */
  lemma CommandsSnoc(flags: seq<bool>, act: char, xs: seq<string>, clip: bool)
    requires |flags| == VfsSysfs.MINORS && xs != []
    ensures ApplyWrites(flags, Commands(act, xs, clip), {})
         == VfsSysfs.Apply(ApplyWrites(flags, Commands(act, xs[..|xs| - 1], clip), {}), Command(act, xs[|xs| - 1], clip)).0
  {
    var ws := Commands(act, xs, clip);
    assert ws[..|ws| - 1] == Commands(act, xs[..|xs| - 1], clip);
    assert ws[|ws| - 1] == Command(act, xs[|xs| - 1], clip);
  }

  lemma InSnoc(xs: seq<string>, t: string)
    requires xs != []
    ensures t in xs <==> t in xs[..|xs| - 1] || t == xs[|xs| - 1]
  {
    assert xs == xs[..|xs| - 1] + [xs[|xs| - 1]];
  }

  /** A token of the old set names a monitored minor, and a token of the new
      set a minor of `N`. */
  lemma TokenMembership(flags: seq<bool>, olds: set<string>, N: set<nat>, i: nat)
    requires |flags| == VfsSysfs.MINORS && olds - {""} == Held(flags) && i < VfsSysfs.MINORS
    ensures Decimal(i) in olds <==> flags[i]
    ensures Decimal(i) in DecimalSet(N) <==> i in N
  {
    if Decimal(i) in olds {
      assert Decimal(i) in Held(flags);
      var m :| 0 <= m < |flags| && flags[m] && Decimal(i) == Decimal(m);
      DecimalInjective(i, m);
    }
    if flags[i] {
      assert Decimal(i) in Held(flags);
    }
    if Decimal(i) in DecimalSet(N) {
      var n :| n in N && Decimal(i) == Decimal(n);
      DecimalInjective(i, n);
    }
  }

  /** Every token the writes name can be listed by the kernel. */
  lemma Listable(flags: seq<bool>, olds: set<string>, N: set<nat>, removed: seq<string>, added: seq<string>)
    requires |flags| == VfsSysfs.MINORS && forall n :: n in N ==> n < VfsSysfs.MINORS
    requires olds - {""} == Held(flags)
    requires Tokens(removed) == olds - DecimalSet(N) && Tokens(added) == DecimalSet(N) - olds
    ensures forall k :: 0 <= k < |removed| ==> Canonical(removed[k])
    ensures forall k :: 0 <= k < |added| ==> Canonical(added[k])
  {
    forall k | 0 <= k < |removed| ensures Canonical(removed[k]) {
      var x := removed[k];
      assert x in Tokens(removed);
      if x != "" {
        assert x in Held(flags);
        var m :| 0 <= m < |flags| && flags[m] && x == Decimal(m);
      }
    }
    forall k | 0 <= k < |added| ensures Canonical(added[k]) {
      assert added[k] in Tokens(added);
      var n :| n in N && added[k] == Decimal(n);
    }
  }

  /** The removes and adds leave the kernel monitoring exactly the minors
      `N`, whenever the old set read is the monitored minors (with or
      without the empty token) and every minor of `N` fits the kernel's
      table. */
  lemma Sync(flags: seq<bool>, olds: set<string>, N: set<nat>, removed: seq<string>, added: seq<string>, clip: bool)
    requires |flags| == VfsSysfs.MINORS && forall n :: n in N ==> n < VfsSysfs.MINORS
    requires olds - {""} == Held(flags)
    requires Lists(removed, olds - DecimalSet(N)) && Lists(added, DecimalSet(N) - olds)
    ensures var f := ApplyWrites(flags, Plan(removed, added, clip), {});
      forall i :: 0 <= i < VfsSysfs.MINORS ==> (f[i] <==> i in N)
  {
    Listable(flags, olds, N, removed, added);
    var rs := Commands('r', removed, clip);
    var f1 := ApplyWrites(flags, rs, {});
    ApplyAppend(flags, rs, Commands('a', added, clip));
    forall i | 0 <= i < VfsSysfs.MINORS
      ensures ApplyWrites(flags, Plan(removed, added, clip), {})[i] <==> i in N
    {
      ApplyPhase(flags, 'r', removed, clip, i);
      ApplyPhase(f1, 'a', added, clip, i);
      TokenMembership(flags, olds, N, i);
      assert Decimal(i) in removed <==> Decimal(i) in Tokens(removed);
      assert Decimal(i) in added <==> Decimal(i) in Tokens(added);
    }
  }

  /** The netlink backend's update, when every open succeeds, brings the
      kernel's set to the dlnfs minors `N`. */
  lemma GenlSync(flags: seq<bool>, N: set<nat>, removed: seq<string>, added: seq<string>)
    requires |flags| == VfsSysfs.MINORS && forall n :: n in N ==> n < VfsSysfs.MINORS
    requires var olds := ReadChopped(VfsSysfs.ShowSpec(flags));
      Lists(removed, olds - DecimalSet(N)) && Lists(added, DecimalSet(N) - olds)
    ensures var f := ApplyWrites(flags, Plan(removed, added, true), {});
      forall i :: 0 <= i < VfsSysfs.MINORS ==> (f[i] <==> i in N)
  {
    ReadShown(flags);
    Sync(flags, ReadChopped(VfsSysfs.ShowSpec(flags)), N, removed, added, true);
  }

  /** The same for mount_manager with the corrected read: when `ok` comes
      back every write was made and the kernel's set is `N`. */
  lemma MountManagerSync(flags: seq<bool>, N: set<nat>, removed: seq<string>, added: seq<string>)
    requires |flags| == VfsSysfs.MINORS && forall n :: n in N ==> n < VfsSysfs.MINORS
    requires var olds := ReadBlankEmpty(VfsSysfs.ShowSpec(flags));
      Lists(removed, olds - DecimalSet(N)) && Lists(added, DecimalSet(N) - olds)
    ensures var f := ApplyWrites(flags, Plan(removed, added, false), {});
      forall i :: 0 <= i < VfsSysfs.MINORS ==> (f[i] <==> i in N)
  {
    ReadShown(flags);
    Sync(flags, ReadBlankEmpty(VfsSysfs.ShowSpec(flags)), N, removed, added, false);
  }
}

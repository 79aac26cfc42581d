/** The kernel module's mount-point predicates and the parsing of the
    mount table it reads at load time. */
module KernelPaths {
  import opened Common

  /** `mounted_at(mp, root)`: `mp` is `root`, or it starts with `root` and
      the next character is '/'. */
  predicate MountedAt(mp: string, root: string)
  {
    mp == root || (|mp| > |root| && IsPrefix(root, mp) && mp[|root|] == '/')
  }

  /** `mp` is `root` itself or a path strictly below it. */
  lemma MountedAtMeaning(mp: string, root: string)
    ensures MountedAt(mp, root) <==> mp == root || exists rest :: mp == root + "/" + rest
  {
    if |mp| > |root| && IsPrefix(root, mp) && mp[|root|] == '/' {
      assert mp == root + "/" + mp[|root| + 1..];
    }
    if exists rest :: mp == root + "/" + rest {
      var rest :| mp == root + "/" + rest;
      assert mp[..|root|] == root && mp[|root|] == '/';
    }
  }

  /** A longer name that merely shares the prefix is not below it. */
  lemma SystemIsNotSys()
    ensures !MountedAt("/system", "/sys")
  {
    assert "/system"[4] == 't';
  }

  /** `vfs_pass_partition`: a mount point outside the pseudo file systems
      that starts with '/'. */
  predicate PassPartition(mp: string)
  {
    !(MountedAt(mp, "/sys") || MountedAt(mp, "/run") || MountedAt(mp, "/dev") || MountedAt(mp, "/proc")
      || !IsPrefix("/", mp))
  }

  /** The root passes; nothing under the four pseudo file systems does, and
      no relative path does. */
  lemma PassPartitionCases(rest: string, mp: string)
    ensures PassPartition("/")
    ensures !PassPartition("/sys/" + rest) && !PassPartition("/run/" + rest)
    ensures !PassPartition("/dev/" + rest) && !PassPartition("/proc/" + rest)
    ensures mp == [] || mp[0] != '/' ==> !PassPartition(mp)
  {
    assert "/"[..1] == "/";
    SubPath("/sys", rest);
    SubPath("/run", rest);
    SubPath("/dev", rest);
    SubPath("/proc", rest);
    if mp != [] && IsPrefix("/", mp) {
      assert mp[0] == "/"[0];
    }
  }

  lemma SubPath(root: string, rest: string)
    ensures MountedAt(root + "/" + rest, root) && root + "/" + rest == root + ("/" + rest)
  {
    MountedAtMeaning(root + "/" + rest, root);
  }

  /** `is_special_mp`: a missing or relative mount point, or one under a
      pseudo file system or the Android container's data. */
  predicate IsSpecialMp(mp: Option<string>)
  {
    mp.None? || mp.value == [] || mp.value[0] != '/'
    || MountedAt(mp.value, "/sys") || MountedAt(mp.value, "/proc") || MountedAt(mp.value, "/run")
    || MountedAt(mp.value, "/dev") || MountedAt(mp.value, "/data/uengine")
  }

  /** The two filters agree except on "/data/uengine", which only the
      second rejects. */
  lemma SpecialIsNotPassed(mp: string)
    ensures IsSpecialMp(Some(mp)) <==> !PassPartition(mp) || MountedAt(mp, "/data/uengine")
  {
    if mp != [] && mp[0] == '/' {
      assert mp[..1] == "/";
    }
  }

  /** What `sscanf` takes from one line of the mount table: the major and
      minor numbers of the device and the mount point. */
  datatype MountLine = MountLine(major: int, minor: int, mp: string)

  /** A `krp_partition`. */
  datatype Partition = Partition(major: int, minor: int, root: string)

  /** The partition one well-formed line yields, if any. */
  function Yield(l: MountLine): seq<Partition>
  {
    if IsSpecialMp(Some(l.mp)) then [] else [Partition(l.major, l.minor, l.mp)]
  }

  /** The partitions the lines yield: every line up to the first that does
      not give three fields, minus the special mount points. */
  function Parsed(lines: seq<Option<MountLine>>): (r: seq<Partition>)
    ensures |r| <= |lines|
    ensures forall k :: 0 <= k < |r| ==> !IsSpecialMp(Some(r[k].root))
    ensures forall k :: 0 <= k < |r| ==> exists j :: 0 <= j < |lines| && lines[j] == Some(MountLine(r[k].major, r[k].minor, r[k].root))
  {
    if lines == [] || lines[0].None? then []
    else
      var l := lines[0].value;
      var rest := Parsed(lines[1..]);
      assert forall k :: 0 <= k < |rest| ==> exists j :: 0 <= j < |lines| && lines[j] == Some(MountLine(rest[k].major, rest[k].minor, rest[k].root)) by {
        forall k | 0 <= k < |rest|
          ensures exists j :: 0 <= j < |lines| && lines[j] == Some(MountLine(rest[k].major, rest[k].minor, rest[k].root))
        {
          var j :| 0 <= j < |lines[1..]| && lines[1..][j] == Some(MountLine(rest[k].major, rest[k].minor, rest[k].root));
          assert lines[j + 1] == lines[1..][j];
        }
      }
      Yield(l) + rest
  }

  /** The partitions `parse_mounts_info` keeps from line `i` on when the
      `kmalloc` of each line in `failAt` fails: such a line's partition is
      lost and the scan goes on. */
  function Kept(lines: seq<Option<MountLine>>, failAt: set<nat>, i: nat): (r: seq<Partition>)
    requires i <= |lines|
    ensures |r| <= |lines| - i
    ensures forall k :: 0 <= k < |r| ==> !IsSpecialMp(Some(r[k].root))
    ensures forall k :: 0 <= k < |r| ==>
      exists j :: i <= j < |lines| && j !in failAt && lines[j] == Some(MountLine(r[k].major, r[k].minor, r[k].root))
    decreases |lines| - i
  {
    if i == |lines| || lines[i].None? then []
    else
      var rest := Kept(lines, failAt, i + 1);
      (if i in failAt then [] else Yield(lines[i].value)) + rest
  }

  /** With every allocation succeeding, the partitions kept are those the
      lines yield. */
  lemma {:induction false} KeptAllAllocated(lines: seq<Option<MountLine>>, i: nat)
    requires i <= |lines|
    ensures Kept(lines, {}, i) == Parsed(lines[i..])
    decreases |lines| - i
  {
    if i < |lines| && lines[i].Some? {
      KeptAllAllocated(lines, i + 1);
      assert lines[i..][1..] == lines[i + 1..];
      ParsedHead(lines[i..]);
    }
  }

  /** A line whose allocation fails adds nothing, and the lines after it
      are still read. */
  lemma FailedLineLost(lines: seq<Option<MountLine>>, failAt: set<nat>, i: nat)
    requires i < |lines| && lines[i].Some? && i in failAt
    ensures Kept(lines, failAt, i) == Kept(lines, failAt, i + 1)
  {
  }

  /** One line of `parse_mounts_info`'s loop. */
  lemma KeptAdvance(whole: seq<Partition>, lines: seq<Option<MountLine>>, failAt: set<nat>, i: nat, acc: seq<Partition>, out: seq<Partition>)
    requires i < |lines| && lines[i].Some? && whole == acc + Kept(lines, failAt, i)
    requires out == acc + (if i in failAt then [] else Yield(lines[i].value))
    ensures whole == out + Kept(lines, failAt, i + 1)
  {
    AppendAssoc(acc, if i in failAt then [] else Yield(lines[i].value), Kept(lines, failAt, i + 1));
  }

  /** `parse_mounts_info`: the partitions of the table are appended to
      `parts`; a missing table appends nothing. Each line is given as the
      fields `sscanf` reads from it, or `None` when it reads fewer than
      three; `failAt` holds the lines whose `kmalloc` fails. */
  method ParseMountsInfo(buf: Option<seq<Option<MountLine>>>, parts: seq<Partition>, failAt: set<nat>) returns (parts': seq<Partition>)
    ensures buf.None? ==> parts' == parts
    ensures buf.Some? ==> parts' == parts + Kept(buf.value, failAt, 0)
    ensures buf.Some? && failAt == {} ==> parts' == parts + Parsed(buf.value)
  {
    parts' := parts;
    if buf.None? {
      return;
    }
    var lines := buf.value;
    var i := 0;
    while i < |lines| && lines[i].Some?
      invariant 0 <= i <= |lines|
      invariant parts + Kept(lines, failAt, 0) == parts' + Kept(lines, failAt, i)
      decreases |lines| - i
    {
      var l := lines[i].value;
      ghost var acc := parts';
      if !IsSpecialMp(Some(l.mp)) && i !in failAt {
        parts' := parts' + [Partition(l.major, l.minor, l.mp)];
      }
      KeptAdvance(parts + Kept(lines, failAt, 0), lines, failAt, i, acc, parts');
      i := i + 1;
    }
    KeptAllAllocated(lines, 0);
    assert lines[0..] == lines;
  }

  /** A well-formed first line yields its partition, unless its mount point
      is special, and parsing goes on with the next line. */
  lemma ParsedHead(lines: seq<Option<MountLine>>)
    requires lines != [] && lines[0].Some?
    ensures Parsed(lines) == Yield(lines[0].value) + Parsed(lines[1..])
  {
  }

  /** Parsing stops at the first line without three fields: nothing after
      it is read. */
  lemma {:induction false} StopsAtBadLine(a: seq<Option<MountLine>>, b: seq<Option<MountLine>>)
    ensures Parsed(a + [None] + b) == Parsed(a)
    decreases |a|
  {
    if a == [] {
      assert (a + [None] + b)[0] == None;
    } else {
      assert (a + [None] + b)[0] == a[0];
      if a[0].Some? {
        assert (a + [None] + b)[1..] == a[1..] + [None] + b;
        StopsAtBadLine(a[1..], b);
      }
    }
  }

  /** Well-formed lines are parsed one after the other, in input order. */
  lemma {:induction false} ParsedAppend(a: seq<Option<MountLine>>, b: seq<Option<MountLine>>)
    requires forall j :: 0 <= j < |a| ==> a[j].Some?
    ensures Parsed(a + b) == Parsed(a) + Parsed(b)
    decreases |a|
  {
    if a == [] {
      assert a + b == b;
    } else {
      assert (a + b)[0] == a[0];
      assert (a + b)[1..] == a[1..] + b;
      ParsedHead(a + b);
      ParsedHead(a);
      ParsedAppend(a[1..], b);
      AppendAssoc(Yield(a[0].value), Parsed(a[1..]), Parsed(b));
    }
  }

  /** One well-formed line yields its partition exactly when its mount
      point is not special. */
  lemma ParsedOne(l: MountLine)
    ensures Parsed([Some(l)]) == if IsSpecialMp(Some(l.mp)) then [] else [Partition(l.major, l.minor, l.mp)]
  {
    assert [Some(l)][1..] == [];
  }
}

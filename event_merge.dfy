// The event buffer of the newer kernel module: rename-to events are paired
// with their rename-from by cookie, a new event may cancel or rewrite a
// buffered one, and buffered events are picked in batches for delivery.
module EventMerge {
  import opened Common

  type Bytes = seq<byte>

  const ACT_NEW_FILE: byte := 0
  const ACT_NEW_LINK: byte := 1
  const ACT_NEW_SYMLINK: byte := 2
  const ACT_NEW_FOLDER: byte := 3
  const ACT_DEL_FILE: byte := 4
  const ACT_DEL_FOLDER: byte := 5
  const ACT_RENAME_FILE: byte := 6
  const ACT_RENAME_FOLDER: byte := 7
  const ACT_RENAME_FROM_FILE: byte := 8
  const ACT_RENAME_TO_FILE: byte := 9
  const ACT_RENAME_FROM_FOLDER: byte := 10
  const ACT_RENAME_TO_FOLDER: byte := 11
  const ACT_MOUNT: byte := 12
  const ACT_UNMOUNT: byte := 13

  const MERGE_BUFFER_SIZE: nat := 100
  const DUMP_SIZE: nat := 10

  /** A buffered event. `id` stands for the event's address, which is what
      `pair` points at; `None` is the null pointer. */
  datatype Event = Event(id: nat, action: byte, dev: u32, path: Bytes, cookie: u32, pair: Option<nat>)

  /** `cmp_event_path`: true when the two events are on different devices
      or name different paths. */
  predicate Differ(e1: Event, e2: Event)
  {
    e1.dev != e2.dev || e1.path != e2.path
  }

  /** The list without its entry at `j` (`list_del`). */
  function Remove(es: seq<Event>, j: nat): (r: seq<Event>)
    requires j < |es|
    ensures |r| == |es| - 1
    ensures forall k :: 0 <= k < j ==> r[k] == es[k]
    ensures forall k :: j <= k < |r| ==> r[k] == es[k + 1]
  {
    es[..j] + es[j + 1..]
  }

  /** The event a `pair` pointer names gets a new action and cookie 0. */
  function Retag(es: seq<Event>, q: nat, act: byte): (r: seq<Event>)
    ensures |r| == |es|
    ensures forall k :: 0 <= k < |es| && es[k].id == q ==> r[k] == es[k].(action := act, cookie := 0)
    ensures forall k :: 0 <= k < |es| && es[k].id != q ==> r[k] == es[k]
  {
    seq(|es|, k requires 0 <= k < |es| => if es[k].id == q then es[k].(action := act, cookie := 0) else es[k])
  }

  /** The event a `pair` pointer names loses its partner. */
  function Unpair(es: seq<Event>, q: nat): (r: seq<Event>)
    ensures |r| == |es|
  {
    if es == [] then []
    else [if es[0].id == q then es[0].(pair := None) else es[0]] + Unpair(es[1..], q)
  }

  /** Entry by entry, only the events named `q` change, and only their
      `pair`. */
  lemma {:induction false} UnpairAt(es: seq<Event>, q: nat, k: nat)
    requires k < |es|
    ensures Unpair(es, q)[k] == if es[k].id == q then es[k].(pair := None) else es[k]
  {
    if k > 0 {
      UnpairAt(es[1..], q, k - 1);
    }
  }

  // ---------------------------------------------------------------
  // The four merge rules; `None` is MERGE_FAIL, `Some(l)` is MERGE_OK
  // with the list then being `l`
  // ---------------------------------------------------------------

  /** `merge_new_file`: a new file cancels a buffered delete of the same
      path; it also cancels a buffered rename-from of that path, and the
      rename-to paired with it becomes a new file. */
  function MergeNewFile(es: seq<Event>, j: nat, cur: Event): (r: Option<seq<Event>>)
    requires j < |es|
    ensures r.Some? ==> |r.value| == |es| - 1
    ensures r.Some? <==> (es[j].action == ACT_DEL_FILE || es[j].action == ACT_RENAME_FROM_FILE) && !Differ(es[j], cur)
  {
    var e := es[j];
    if e.action == ACT_DEL_FILE then
      if Differ(e, cur) then None else Some(Remove(es, j))
    else if e.action == ACT_RENAME_FROM_FILE then
      if Differ(e, cur) then None
      else if e.pair.Some? then Some(Remove(Retag(es, e.pair.value, ACT_NEW_FILE), j))
      else Some(Remove(es, j))
    else None
  }

  /** `merge_del_file`, and `merge_rename_from_file`, whose body is the
      same: the event cancels a buffered creation of the same path, and a
      paired rename-to of that path is removed while its rename-from is
      turned into a delete. */
  function MergeDelFile(es: seq<Event>, j: nat, cur: Event): (r: Option<seq<Event>>)
    requires j < |es|
    ensures r.Some? ==> |r.value| == |es| - 1
    ensures r.Some? <==> (es[j].action < ACT_NEW_FOLDER || (es[j].action == ACT_RENAME_TO_FILE && es[j].pair.Some?)) && !Differ(es[j], cur)
  {
    var e := es[j];
    if e.action < ACT_NEW_FOLDER then
      if Differ(e, cur) then None else Some(Remove(es, j))
    else if e.action == ACT_RENAME_TO_FILE then
      if e.pair.None? then None
      else if Differ(e, cur) then None
      else Some(Remove(Retag(es, e.pair.value, ACT_DEL_FILE), j))
    else None
  }

  /** `merge_rename_to_file`: a paired rename-to onto a path deleted
      earlier removes that delete and turns its own rename-from into a
      delete. */
  function MergeRenameToFile(es: seq<Event>, j: nat, cur: Event): (r: Option<seq<Event>>)
    requires j < |es|
    ensures r.Some? ==> |r.value| == |es| - 1
    ensures r.Some? <==> es[j].action == ACT_DEL_FILE && cur.pair.Some? && !Differ(es[j], cur)
  {
    var e := es[j];
    if e.action == ACT_DEL_FILE then
      if cur.pair.None? then None
      else if Differ(e, cur) then None
      else Some(Remove(Retag(es, cur.pair.value, ACT_DEL_FILE), j))
    else None
  }

  /** `action_merge_fns[a]` is set. */
  predicate HasMergeFn(a: byte)
  {
    a <= ACT_NEW_SYMLINK || a == ACT_DEL_FILE || a == ACT_RENAME_FROM_FILE || a == ACT_RENAME_TO_FILE
  }

  /** The rule of the incoming event's action tried against entry `j`. */
  function MergeFn(es: seq<Event>, j: nat, cur: Event): (r: Option<seq<Event>>)
    requires j < |es|
    ensures r.Some? ==> HasMergeFn(cur.action) && |r.value| == |es| - 1
  {
    if cur.action <= ACT_NEW_SYMLINK then MergeNewFile(es, j, cur)
    else if cur.action == ACT_DEL_FILE || cur.action == ACT_RENAME_FROM_FILE then MergeDelFile(es, j, cur)
    else if cur.action == ACT_RENAME_TO_FILE then MergeRenameToFile(es, j, cur)
    else None
  }

  /** The backward walk over the first `n` entries: the rule is tried from
      the newest entry down and the first success ends the walk. */
  function MergeBack(es: seq<Event>, n: nat, cur: Event): (r: Option<seq<Event>>)
    requires n <= |es|
    ensures r.Some? ==> |r.value| == |es| - 1
  {
    if n == 0 then None
    else if MergeFn(es, n - 1, cur).Some? then MergeFn(es, n - 1, cur)
    else MergeBack(es, n - 1, cur)
  }

  /** No entry in `[j, n)` merges with `cur`. */
  predicate NoneMerge(es: seq<Event>, j: nat, n: nat, cur: Event)
    requires j <= n <= |es|
    decreases n - j
  {
    j == n || (MergeFn(es, n - 1, cur).None? && NoneMerge(es, j, n - 1, cur))
  }

  /** The walk stops at the newest entry that merges. */
  lemma {:induction false} MergeBackAt(es: seq<Event>, n: nat, j: nat, cur: Event)
    requires j < n <= |es| && MergeFn(es, j, cur).Some? && NoneMerge(es, j + 1, n, cur)
    ensures MergeBack(es, n, cur) == MergeFn(es, j, cur)
    decreases n - j
  {
    if n - 1 != j {
      MergeBackAt(es, n - 1, j, cur);
    }
  }

  /** The walk fails exactly when no entry merges. */
  lemma {:induction false} MergeBackNone(es: seq<Event>, n: nat, cur: Event)
    requires n <= |es|
    ensures MergeBack(es, n, cur).None? <==> NoneMerge(es, 0, n, cur)
  {
    if n > 0 {
      MergeBackNone(es, n - 1, cur);
    }
  }

  // ---------------------------------------------------------------
  // Pairing and one call of `do_event_merge`
  // ---------------------------------------------------------------

  /** The index of the first buffered event with cookie `c`. */
  function FirstCookie(es: seq<Event>, c: u32): (r: Option<nat>)
    ensures r.Some? ==> r.value < |es| && es[r.value].cookie == c
    ensures r.Some? ==> forall k :: 0 <= k < r.value ==> es[k].cookie != c
    ensures r.None? ==> forall k :: 0 <= k < |es| ==> es[k].cookie != c
  {
    if es == [] then None
    else if es[0].cookie == c then Some(0)
    else
      var t := FirstCookie(es[1..], c);
      if t.Some? then Some(t.value + 1) else None
  }

  /** The pairing step: the incoming event's `pair` is cleared, and a
      rename-to either points at the first buffered event with its cookie
      (which points back) or, with none, becomes a new file with cookie 0. */
  function Paired(es: seq<Event>, ev: Event): (r: (seq<Event>, Event))
    ensures |r.0| == |es| && r.1.id == ev.id && r.1.dev == ev.dev && r.1.path == ev.path
    ensures ev.action != ACT_RENAME_TO_FILE ==> r == (es, ev.(pair := None))
    ensures ev.action == ACT_RENAME_TO_FILE && FirstCookie(es, ev.cookie).None? ==>
      r == (es, ev.(action := ACT_NEW_FILE, cookie := 0, pair := None))
    ensures ev.action == ACT_RENAME_TO_FILE && FirstCookie(es, ev.cookie).Some? ==>
      var j := FirstCookie(es, ev.cookie).value;
      r.1 == ev.(pair := Some(es[j].id)) && r.0 == es[j := es[j].(pair := Some(ev.id))]
  {
    var ev0 := ev.(pair := None);
    if ev.action != ACT_RENAME_TO_FILE then (es, ev0)
    else
      var j := FirstCookie(es, ev.cookie);
      if j.None? then (es, ev0.(action := ACT_NEW_FILE, cookie := 0))
      else (es[j.value := es[j.value].(pair := Some(ev.id))], ev0.(pair := Some(es[j.value].id)))
  }

  /** Pairing and merging: the new list, and whether the event was added. */
  function Merged(es: seq<Event>, ev: Event): (r: (seq<Event>, bool))
    ensures r.1 ==> |r.0| == |es| + 1
    ensures !r.1 ==> |r.0| == |es| - 1
  {
    var p := Paired(es, ev);
    var m := if HasMergeFn(p.1.action) then MergeBack(p.0, |p.0|, p.1) else None;
    if m.Some? then (m.value, false) else (p.0 + [p.1], true)
  }

  // ---------------------------------------------------------------
  // The merge rules as properties of `Merged`
  // ---------------------------------------------------------------

  /** del(X) then new(X): the delete is removed and the new event is not
      buffered. */
  lemma DeleteThenNew(es: seq<Event>, j: nat, ev: Event)
    requires ev.action <= ACT_NEW_SYMLINK && j < |es| && es[j].action == ACT_DEL_FILE && !Differ(es[j], ev)
    requires NoneMerge(es, j + 1, |es|, ev.(pair := None))
    ensures Merged(es, ev) == (Remove(es, j), false)
  {
    MergeBackAt(es, |es|, j, ev.(pair := None));
  }

  /** ren_fr(X) + ren_to(Y) then new(X): the rename-from is removed, and
      the rename-to it points at becomes a new file with cookie 0. */
  lemma RenameThenNew(es: seq<Event>, j: nat, ev: Event)
    requires ev.action <= ACT_NEW_SYMLINK && j < |es| && es[j].action == ACT_RENAME_FROM_FILE && !Differ(es[j], ev)
    requires es[j].pair.Some?
    requires NoneMerge(es, j + 1, |es|, ev.(pair := None))
    ensures Merged(es, ev) == (Remove(Retag(es, es[j].pair.value, ACT_NEW_FILE), j), false)
  {
    MergeBackAt(es, |es|, j, ev.(pair := None));
  }

  /** new(X) then del(X), and new(X) then ren_fr(X): both disappear. */
  lemma NewThenGone(es: seq<Event>, j: nat, ev: Event)
    requires ev.action == ACT_DEL_FILE || ev.action == ACT_RENAME_FROM_FILE
    requires j < |es| && es[j].action <= ACT_NEW_SYMLINK && !Differ(es[j], ev)
    requires NoneMerge(es, j + 1, |es|, ev.(pair := None))
    ensures Merged(es, ev) == (Remove(es, j), false)
  {
    MergeBackAt(es, |es|, j, ev.(pair := None));
  }

  /** ren_fr(X) + ren_to(Y) then del(Y), and then ren_fr(Y): the rename-to
      is removed and its rename-from becomes del(X). */
  lemma RenamedThenGone(es: seq<Event>, j: nat, ev: Event)
    requires ev.action == ACT_DEL_FILE || ev.action == ACT_RENAME_FROM_FILE
    requires j < |es| && es[j].action == ACT_RENAME_TO_FILE && es[j].pair.Some? && !Differ(es[j], ev)
    requires NoneMerge(es, j + 1, |es|, ev.(pair := None))
    ensures Merged(es, ev) == (Remove(Retag(es, es[j].pair.value, ACT_DEL_FILE), j), false)
  {
    MergeBackAt(es, |es|, j, ev.(pair := None));
  }

  /** An unpaired rename-to never takes part in a merge. */
  lemma UnpairedRenameToStays(es: seq<Event>, j: nat, cur: Event)
    requires j < |es| && es[j].action == ACT_RENAME_TO_FILE && es[j].pair.None?
    ensures MergeFn(es, j, cur).None?
  {
  }

  /** del(X) + ren_fr(Y) then ren_to(X) paired with that rename-from: the
      delete is removed, the rename-from becomes del(Y) and the rename-to
      is not buffered. */
  lemma DeleteThenRenameTo(es: seq<Event>, j: nat, ev: Event)
    requires ev.action == ACT_RENAME_TO_FILE && FirstCookie(es, ev.cookie).Some?
    requires j < |es| && es[j].action == ACT_DEL_FILE && !Differ(es[j], ev)
    requires NoneMerge(Paired(es, ev).0, j + 1, |es|, Paired(es, ev).1)
    ensures var p := FirstCookie(es, ev.cookie).value;
      Merged(es, ev) == (Remove(Retag(Paired(es, ev).0, es[p].id, ACT_DEL_FILE), j), false)
  {
    var pr := Paired(es, ev);
    assert pr.0[j].action == ACT_DEL_FILE && !Differ(pr.0[j], pr.1);
    MergeBackAt(pr.0, |pr.0|, j, pr.1);
  }

  /** A rename-to with no buffered event of its cookie is handled exactly
      as a new file with cookie 0. */
  lemma UnmatchedRenameToIsNew(es: seq<Event>, ev: Event)
    requires ev.action == ACT_RENAME_TO_FILE && FirstCookie(es, ev.cookie).None?
    ensures Merged(es, ev) == Merged(es, ev.(action := ACT_NEW_FILE, cookie := 0))
  {
    assert Paired(es, ev) == Paired(es, ev.(action := ACT_NEW_FILE, cookie := 0));
  }

  /** Folder, mount and unmount events are never merged: they are
      appended with their `pair` cleared. */
  lemma NotMerged(es: seq<Event>, ev: Event)
    requires !HasMergeFn(ev.action) && ev.action != ACT_RENAME_TO_FILE
    ensures Merged(es, ev) == (es + [ev.(pair := None)], true)
  {
  }

  /** A matched rename-to and the first buffered event with its cookie
      point at each other. */
  lemma RenameToPairs(es: seq<Event>, ev: Event)
    requires ev.action == ACT_RENAME_TO_FILE && FirstCookie(es, ev.cookie).Some?
    ensures var j := FirstCookie(es, ev.cookie).value; var p := Paired(es, ev);
      p.1.pair == Some(p.0[j].id) && p.0[j].pair == Some(ev.id) && p.1.action == ACT_RENAME_TO_FILE &&
      forall k :: 0 <= k < |es| && k != j ==> p.0[k] == es[k]
  {
  }

  // ---------------------------------------------------------------
  // Picking events for delivery
  // ---------------------------------------------------------------

  /** An unpaired rename-from waits for its rename-to. */
  predicate Waiting(e: Event)
  {
    e.action == ACT_RENAME_FROM_FILE && e.pair.None?
  }

  /** `pick_events` when not quitting, from the state `(moved, kept,
      rest, i)`: in list order, every event but a waiting rename-from is
      moved, a moved rename-from unpairs its partner, and the walk stops
      once `DUMP_SIZE` events were moved. The result is the moved events
      and the list left behind. */
  function PickFrom(moved: seq<Event>, kept: seq<Event>, rest: seq<Event>, i: nat): (r: (seq<Event>, seq<Event>))
    ensures |r.0| + |r.1| == |moved| + |kept| + |rest|
    decreases |rest|
  {
    if rest == [] || i >= DUMP_SIZE then (moved, kept + rest)
    else
      var e := rest[0];
      if Waiting(e) then PickFrom(moved, kept + [e], rest[1..], i)
      else if e.action == ACT_RENAME_FROM_FILE then
        var q := e.pair.value;
        PickFrom(Unpair(moved + [e], q), Unpair(kept, q), Unpair(rest[1..], q), i + 1)
      else PickFrom(moved + [e], kept, rest[1..], i + 1)
  }

  /** `pick_events`: everything is moved while quitting. */
  function Pick(es: seq<Event>, quit: bool): (seq<Event>, seq<Event>)
  {
    if quit then (es, []) else PickFrom([], [], es, 0)
  }

  /** The events' identities, with multiplicity. */
  function Ids(es: seq<Event>): multiset<nat>
  {
    if es == [] then multiset{} else multiset{es[0].id} + Ids(es[1..])
  }

  lemma {:induction false} IdsAppend(a: seq<Event>, b: seq<Event>)
    ensures Ids(a + b) == Ids(a) + Ids(b)
  {
    if a == [] {
      assert a + b == b;
    } else {
      assert (a + b)[1..] == a[1..] + b;
      IdsAppend(a[1..], b);
    }
  }

  lemma {:induction false} IdsUnpair(es: seq<Event>, q: nat)
    ensures Ids(Unpair(es, q)) == Ids(es)
  {
    if es != [] {
      assert Unpair(es, q)[1..] == Unpair(es[1..], q);
      IdsUnpair(es[1..], q);
    }
  }

  lemma IdsSplit(es: seq<Event>)
    requires es != []
    ensures Ids(es) == Ids([es[0]]) + Ids(es[1..])
  {
    IdsAppend([es[0]], es[1..]);
    assert [es[0]] + es[1..] == es;
  }

  /** At most `DUMP_SIZE` events are moved. */
  lemma {:induction false} PickFromBound(moved: seq<Event>, kept: seq<Event>, rest: seq<Event>, i: nat)
    requires i <= DUMP_SIZE && |moved| <= i
    ensures |PickFrom(moved, kept, rest, i).0| <= DUMP_SIZE
    decreases |rest|
  {
    if rest != [] && i < DUMP_SIZE {
      var e := rest[0];
      if Waiting(e) {
        PickFromBound(moved, kept + [e], rest[1..], i);
      } else if e.action == ACT_RENAME_FROM_FILE {
        var q := e.pair.value;
        PickFromBound(Unpair(moved + [e], q), Unpair(kept, q), Unpair(rest[1..], q), i + 1);
      } else {
        PickFromBound(moved + [e], kept, rest[1..], i + 1);
      }
    }
  }

  /** One step of the pick, with the identities it keeps. */
  lemma PickNext(moved: seq<Event>, kept: seq<Event>, rest: seq<Event>, i: nat)
      returns (m': seq<Event>, k': seq<Event>, r': seq<Event>, j: nat)
    requires rest != [] && i < DUMP_SIZE
    ensures PickFrom(moved, kept, rest, i) == PickFrom(m', k', r', j) && |r'| < |rest|
    ensures Ids(m') + Ids(k') + Ids(r') == Ids(moved) + Ids(kept) + Ids(rest)
  {
    var e := rest[0];
    IdsSplit(rest);
    if Waiting(e) {
      m', k', r', j := moved, kept + [e], rest[1..], i;
      IdsAppend(kept, [e]);
      MsetKept(Ids(moved), Ids(kept), Ids([e]), Ids(rest[1..]));
    } else {
      var q := if e.action == ACT_RENAME_FROM_FILE then e.pair.value else 0;
      m' := if e.action == ACT_RENAME_FROM_FILE then Unpair(moved + [e], q) else moved + [e];
      k' := if e.action == ACT_RENAME_FROM_FILE then Unpair(kept, q) else kept;
      r' := if e.action == ACT_RENAME_FROM_FILE then Unpair(rest[1..], q) else rest[1..];
      j := i + 1;
      IdsAppend(moved, [e]);
      if e.action == ACT_RENAME_FROM_FILE {
        IdsUnpair(moved + [e], q);
        IdsUnpair(kept, q);
        IdsUnpair(rest[1..], q);
      }
      MsetMoved(Ids(moved), Ids(kept), Ids([e]), Ids(rest[1..]));
    }
  }

  /** No event is lost or duplicated by a pick. */
  lemma {:induction false} PickFromIds(moved: seq<Event>, kept: seq<Event>, rest: seq<Event>, i: nat)
    ensures var r := PickFrom(moved, kept, rest, i);
      Ids(r.0) + Ids(r.1) == Ids(moved) + Ids(kept) + Ids(rest)
    decreases |rest|
  {
    if rest == [] || i >= DUMP_SIZE {
      IdsAppend(kept, rest);
      MsetAssoc(Ids(moved), Ids(kept), Ids(rest));
    } else {
      var m', k', r', j := PickNext(moved, kept, rest, i);
      PickFromIds(m', k', r', j);
    }
  }

  lemma MsetAssoc(a: multiset<nat>, b: multiset<nat>, c: multiset<nat>)
    ensures a + (b + c) == a + b + c
  {
  }

  lemma MsetKept(m: multiset<nat>, k: multiset<nat>, e: multiset<nat>, r: multiset<nat>)
    ensures m + (k + e) + r == m + k + (e + r)
  {
  }

  lemma MsetMoved(m: multiset<nat>, k: multiset<nat>, e: multiset<nat>, r: multiset<nat>)
    ensures (m + e) + k + r == m + k + (e + r)
  {
  }

  /** The ids of the waiting rename-from events. */
  function WaitingIds(es: seq<Event>): set<nat>
  {
    set k | 0 <= k < |es| && Waiting(es[k]) :: es[k].id
  }

  function IdSet(es: seq<Event>): set<nat>
  {
    set k | 0 <= k < |es| :: es[k].id
  }

  lemma WaitingUnpair(es: seq<Event>, q: nat)
    ensures WaitingIds(es) <= WaitingIds(Unpair(es, q))
  {
    var u := Unpair(es, q);
    forall x | x in WaitingIds(es) ensures x in WaitingIds(u) {
      var k :| 0 <= k < |es| && Waiting(es[k]) && es[k].id == x;
      UnpairAt(es, q, k);
      assert Waiting(u[k]) && u[k].id == x;
    }
  }

  lemma IdSetUnpair(es: seq<Event>, q: nat)
    ensures IdSet(Unpair(es, q)) == IdSet(es)
  {
    var u := Unpair(es, q);
    forall x | x in IdSet(es) ensures x in IdSet(u) {
      var k :| 0 <= k < |es| && es[k].id == x;
      UnpairAt(es, q, k);
      assert u[k].id == x;
    }
    forall x | x in IdSet(u) ensures x in IdSet(es) {
      var k :| 0 <= k < |u| && u[k].id == x;
      UnpairAt(es, q, k);
      assert es[k].id == x;
    }
  }

  lemma IdSetAppend(a: seq<Event>, b: seq<Event>)
    ensures IdSet(a + b) == IdSet(a) + IdSet(b)
  {
    var c := a + b;
    forall x | x in IdSet(c) ensures x in IdSet(a) + IdSet(b) {
      var k :| 0 <= k < |c| && c[k].id == x;
      if k < |a| {
        assert a[k] == c[k];
      } else {
        assert b[k - |a|] == c[k];
      }
    }
    forall x | x in IdSet(a) + IdSet(b) ensures x in IdSet(c) {
      if x in IdSet(a) {
        var k :| 0 <= k < |a| && a[k].id == x;
        assert c[k] == a[k];
      } else {
        var k :| 0 <= k < |b| && b[k].id == x;
        assert c[|a| + k] == b[k];
      }
    }
  }

  lemma WaitingSplit(es: seq<Event>)
    requires es != []
    ensures WaitingIds(es) <= WaitingIds([es[0]]) + WaitingIds(es[1..])
  {
    forall x | x in WaitingIds(es) ensures x in WaitingIds([es[0]]) + WaitingIds(es[1..]) {
      var k :| 0 <= k < |es| && Waiting(es[k]) && es[k].id == x;
      if k == 0 {
        assert [es[0]][0] == es[0];
      } else {
        assert es[1..][k - 1] == es[k];
      }
    }
  }

  lemma WaitingOne(e: Event)
    ensures WaitingIds([e]) == if Waiting(e) then {e.id} else {}
  {
    forall x | x in WaitingIds([e]) ensures Waiting(e) && x == e.id {
      var k :| 0 <= k < 1 && Waiting([e][k]) && [e][k].id == x;
      assert k == 0;
    }
    if Waiting(e) {
      assert Waiting([e][0]);
    }
  }

  /** A waiting rename-from is never moved: its id stays in the list. */
  lemma {:induction false} PickFromKeepsWaiting(moved: seq<Event>, kept: seq<Event>, rest: seq<Event>, i: nat)
    requires WaitingIds(kept) <= IdSet(kept)
    ensures WaitingIds(rest) <= IdSet(PickFrom(moved, kept, rest, i).1)
    ensures IdSet(kept) <= IdSet(PickFrom(moved, kept, rest, i).1)
    decreases |rest|
  {
    if rest == [] || i >= DUMP_SIZE {
      IdSetAppend(kept, rest);
      forall x | x in WaitingIds(rest) ensures x in IdSet(rest) {
        var k :| 0 <= k < |rest| && Waiting(rest[k]) && rest[k].id == x;
      }
    } else {
      var e := rest[0];
      WaitingSplit(rest);
      if Waiting(e) {
        IdSetAppend(kept, [e]);
        assert e.id in IdSet([e]) by { assert [e][0] == e; }
        forall x | x in WaitingIds(kept + [e]) ensures x in IdSet(kept + [e]) {
          var k :| 0 <= k < |kept + [e]| && Waiting((kept + [e])[k]) && (kept + [e])[k].id == x;
        }
        PickFromKeepsWaiting(moved, kept + [e], rest[1..], i);
        WaitingOne(e);
      } else {
        var q := if e.action == ACT_RENAME_FROM_FILE then e.pair.value else 0;
        var m' := if e.action == ACT_RENAME_FROM_FILE then Unpair(moved + [e], q) else moved + [e];
        var k' := if e.action == ACT_RENAME_FROM_FILE then Unpair(kept, q) else kept;
        var r' := if e.action == ACT_RENAME_FROM_FILE then Unpair(rest[1..], q) else rest[1..];
        assert PickFrom(moved, kept, rest, i) == PickFrom(m', k', r', i + 1);
        if e.action == ACT_RENAME_FROM_FILE {
          WaitingUnpair(kept, q);
          WaitingUnpair(rest[1..], q);
          IdSetUnpair(kept, q);
          forall x | x in WaitingIds(k') ensures x in IdSet(k') {
            var k :| 0 <= k < |k'| && Waiting(k'[k]) && k'[k].id == x;
          }
        }
        PickFromKeepsWaiting(m', k', r', i + 1);
        WaitingOne(e);
      }
    }
  }

  /** No moved rename-from still points at `x` while `x` keeps a partner. */
  predicate PartnerCleared(moved: seq<Event>, x: Event)
  {
    forall a :: 0 <= a < |moved| && moved[a].action == ACT_RENAME_FROM_FILE && moved[a].pair == Some(x.id) ==> x.pair.None?
  }

  predicate AllCleared(moved: seq<Event>, pool: seq<Event>)
  {
    forall b :: 0 <= b < |pool| ==> PartnerCleared(moved, pool[b])
  }

  lemma AllClearedAppend(moved: seq<Event>, a: seq<Event>, b: seq<Event>)
    requires AllCleared(moved, a) && AllCleared(moved, b)
    ensures AllCleared(moved, a + b)
  {
    forall k | 0 <= k < |a + b| ensures PartnerCleared(moved, (a + b)[k]) {
      if k < |a| {
        assert (a + b)[k] == a[k];
      } else {
        assert (a + b)[k] == b[k - |a|];
      }
    }
  }

  /** Moving an event that is not a rename-from adds no obligation. */
  lemma ClearedMoveOther(moved: seq<Event>, e: Event, pool: seq<Event>)
    requires e.action != ACT_RENAME_FROM_FILE && AllCleared(moved, pool)
    ensures AllCleared(moved + [e], pool)
  {
    forall b | 0 <= b < |pool| ensures PartnerCleared(moved + [e], pool[b]) {
      var x := pool[b];
      forall a | 0 <= a < |moved + [e]| && (moved + [e])[a].action == ACT_RENAME_FROM_FILE && (moved + [e])[a].pair == Some(x.id)
        ensures x.pair.None?
      {
        assert a < |moved| && (moved + [e])[a] == moved[a];
      }
    }
  }

  /** Moving a rename-from clears its partner, wherever it is. */
  lemma ClearedMoveRenameFrom(moved: seq<Event>, e: Event, q: nat, pool: seq<Event>)
    requires e.pair == Some(q) && AllCleared(moved, pool)
    ensures AllCleared(Unpair(moved + [e], q), Unpair(pool, q))
  {
    var m := moved + [e];
    var m' := Unpair(m, q);
    var p' := Unpair(pool, q);
    forall b | 0 <= b < |p'| ensures PartnerCleared(m', p'[b]) {
      UnpairAt(pool, q, b);
      var x := pool[b];
      if x.id != q {
        forall a | 0 <= a < |m'| && m'[a].action == ACT_RENAME_FROM_FILE && m'[a].pair == Some(x.id)
          ensures p'[b].pair.None?
        {
          UnpairAt(m, q, a);
          assert m'[a] == m[a];
          if a < |moved| {
            assert m[a] == moved[a];
            assert PartnerCleared(moved, x);
          }
        }
      }
    }
  }

  /** When a rename-from is moved, its partner is unpaired: no event left
      in the list is still the partner of a moved rename-from. */
  lemma {:induction false} PickFromClears(moved: seq<Event>, kept: seq<Event>, rest: seq<Event>, i: nat)
    requires AllCleared(moved, kept) && AllCleared(moved, rest)
    ensures var r := PickFrom(moved, kept, rest, i); AllCleared(r.0, r.1)
    decreases |rest|
  {
    if rest == [] || i >= DUMP_SIZE {
      AllClearedAppend(moved, kept, rest);
    } else {
      var e := rest[0];
      assert AllCleared(moved, rest[1..]) by {
        forall b | 0 <= b < |rest[1..]| ensures PartnerCleared(moved, rest[1..][b]) {
          assert rest[1..][b] == rest[b + 1];
        }
      }
      if Waiting(e) {
        assert AllCleared(moved, [e]) by {
          assert PartnerCleared(moved, rest[0]);
        }
        AllClearedAppend(moved, kept, [e]);
        PickFromClears(moved, kept + [e], rest[1..], i);
      } else if e.action == ACT_RENAME_FROM_FILE {
        var q := e.pair.value;
        ClearedMoveRenameFrom(moved, e, q, kept);
        ClearedMoveRenameFrom(moved, e, q, rest[1..]);
        PickFromClears(Unpair(moved + [e], q), Unpair(kept, q), Unpair(rest[1..], q), i + 1);
      } else {
        ClearedMoveOther(moved, e, kept);
        ClearedMoveOther(moved, e, rest[1..]);
        PickFromClears(moved + [e], kept, rest[1..], i + 1);
      }
    }
  }

  // ---------------------------------------------------------------
  // The buffer
  // ---------------------------------------------------------------

  /** The timer request `check_events` or `notify_events` makes. */
  datatype TimerOp = Disarm | Arm | Leave

  /** `check_events` on a list of `n` events. */
  function CheckOp(n: nat): (r: (TimerOp, bool))
    ensures r.1 <==> n >= MERGE_BUFFER_SIZE
    ensures r.0 == Disarm <==> n == 0
    ensures r.0 == Arm <==> n == 1
  {
    if n == 0 then (Disarm, false)
    else if n == 1 then (Arm, false)
    else if n >= MERGE_BUFFER_SIZE then (Leave, true)
    else (Leave, false)
  }

  /** The global list, its counter, the quit flag and whether the timer
      is pending. */
  class EventBuffer {
    var events: seq<Event>
    var eventsNumber: int
    var quit: bool
    var armed: bool

    ghost predicate Valid()
      reads this
    {
      eventsNumber == |events|
    }

    constructor()
      ensures Valid() && events == [] && !quit && !armed
    {
      events, eventsNumber, quit, armed := [], 0, false, false;
    }

    /** `pick_events` on the list; the moved events are delivered. */
    method PickEvents() returns (sent: seq<Event>)
      requires Valid()
      modifies this
      ensures Valid()
      ensures (sent, events) == Pick(old(events), quit)
      ensures Ids(sent) + Ids(events) == Ids(old(events))
      ensures quit ==> sent == old(events) && events == []
      ensures !quit ==> |sent| <= DUMP_SIZE && WaitingIds(old(events)) <= IdSet(events) && AllCleared(sent, events)
      ensures quit == old(quit) && armed == old(armed)
    {
      if quit {
        sent := events;
        events := [];
        eventsNumber := 0;
      } else {
        ghost var es := events;
        var kept;
        sent, kept := PickScan(events);
        PickFromBound([], [], es, 0);
        PickFromIds([], [], es, 0);
        PickFromKeepsWaiting([], [], es, 0);
        PickFromClears([], [], es, 0);
        events := kept;
        eventsNumber := eventsNumber - |sent|;
      }
    }

    /** `do_event_merge`: pairing, merging, `check_events` and the events
        it hands on for delivery. */
    method DoEventMerge(ev: Event) returns (sent: seq<Event>)
      requires Valid()
      modifies this
      ensures Valid()
      ensures var m := Merged(old(events), ev);
        var c := CheckOp(|m.0|);
        (c.1 ==> (sent, events) == Pick(m.0, quit)) && (!c.1 ==> sent == [] && events == m.0)
      ensures var m := Merged(old(events), ev);
        var c := CheckOp(|m.0|);
        armed == (if sent != [] && events != [] then true
                  else if c.0 == Disarm then false else if c.0 == Arm then true else old(armed))
      ensures quit == old(quit)
    {
      var es, added := MergeEvent(events, ev);
      events := es;
      eventsNumber := |es|;
      sent := [];
      var op := CheckOp(eventsNumber);
      if op.0 == Disarm {
        armed := false;
      } else if op.0 == Arm {
        armed := true;
      }
      if op.1 {
        sent := PickEvents();
      }
      if sent != [] && eventsNumber >= 1 {
        armed := true;
      }
    }

    /** `event_timeout_notify_callback`: the timer fires, a pick is made
        and the timer is re-armed when events were sent and some remain. */
    method TimerFire() returns (sent: seq<Event>)
      requires Valid()
      modifies this
      ensures Valid()
      ensures (sent, events) == Pick(old(events), quit)
      ensures armed == (sent != [] && events != [])
      ensures quit == old(quit)
    {
      armed := false;
      sent := PickEvents();
      if sent != [] && eventsNumber >= 1 {
        armed := true;
      }
    }

    /** `clearup_event_merge` sets the quit flag; its wait for the list
        to drain is not part of this model. */
    method Clearup()
      requires Valid()
      modifies this
      ensures Valid() && quit && events == old(events) && armed == old(armed)
    {
      quit := true;
    }
  }

  // ---------------------------------------------------------------
  // The loops
  // ---------------------------------------------------------------

  /** The forward walk of the pairing loop. */
  method FindCookie(es: seq<Event>, c: u32) returns (r: Option<nat>)
    ensures r == FirstCookie(es, c)
  {
    var k := 0;
    while k < |es| && es[k].cookie != c
      invariant 0 <= k <= |es|
      invariant forall m :: 0 <= m < k ==> es[m].cookie != c
    {
      k := k + 1;
    }
    r := if k < |es| then Some(k) else None;
    FirstCookieUnique(es, c, r);
  }

  /** `FirstCookie` is the only answer with its properties. */
  lemma {:induction false} FirstCookieUnique(es: seq<Event>, c: u32, r: Option<nat>)
    requires r.Some? ==> r.value < |es| && es[r.value].cookie == c && forall k :: 0 <= k < r.value ==> es[k].cookie != c
    requires r.None? ==> forall k :: 0 <= k < |es| ==> es[k].cookie != c
    ensures r == FirstCookie(es, c)
  {
  }

  /** The pairing step of `do_event_merge`. */
  method Pair(es: seq<Event>, ev: Event) returns (es': seq<Event>, cur: Event)
    ensures (es', cur) == Paired(es, ev)
  {
    es' := es;
    cur := ev.(pair := None);
    if ev.action == ACT_RENAME_TO_FILE {
      var j := FindCookie(es, ev.cookie);
      if j.Some? {
        es' := es[j.value := es[j.value].(pair := Some(ev.id))];
        cur := cur.(pair := Some(es[j.value].id));
      } else {
        cur := cur.(action := ACT_NEW_FILE, cookie := 0);
      }
    }
  }

  /** The list part of `do_event_merge`: pairing, then the backward walk,
      then the append when no rule fired. */
  method MergeEvent(es: seq<Event>, ev: Event) returns (es': seq<Event>, added: bool)
    ensures (es', added) == Merged(es, ev)
  {
    var cur;
    es', cur := Pair(es, ev);
    added := true;
    if HasMergeFn(cur.action) {
      var r := ScanBack(es', cur);
      if r.Some? {
        es' := r.value;
        added := false;
      }
    }
    if added {
      es' := es' + [cur];
    }
  }

  /** `list_for_each_prev_safe` with the merge rule. */
  method ScanBack(es: seq<Event>, cur: Event) returns (r: Option<seq<Event>>)
    ensures r == MergeBack(es, |es|, cur)
  {
    var n := |es|;
    r := None;
    while n > 0 && r.None?
      invariant 0 <= n <= |es|
      invariant r.None? ==> MergeBack(es, |es|, cur) == MergeBack(es, n, cur)
      invariant r.Some? ==> r == MergeBack(es, |es|, cur)
    {
      r := MergeFn(es, n - 1, cur);
      n := n - 1;
    }
  }

  /** The loop of `pick_events` when not quitting. */
  method PickScan(es: seq<Event>) returns (moved: seq<Event>, kept: seq<Event>)
    ensures (moved, kept) == PickFrom([], [], es, 0)
  {
    moved, kept := [], [];
    var rest := es;
    var i := 0;
    while rest != [] && i < DUMP_SIZE
      invariant PickFrom(moved, kept, rest, i) == PickFrom([], [], es, 0)
      decreases |rest|
    {
      var e := rest[0];
      if Waiting(e) {
        kept := kept + [e];
        rest := rest[1..];
      } else if e.action == ACT_RENAME_FROM_FILE {
        var q := e.pair.value;
        moved, kept, rest := Unpair(moved + [e], q), Unpair(kept, q), Unpair(rest[1..], q);
        i := i + 1;
      } else {
        moved := moved + [e];
        rest := rest[1..];
        i := i + 1;
      }
    }
    kept := kept + rest;
  }
}

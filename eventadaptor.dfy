/** The backend's event adaptor (src/server/backend/lib/eventadaptor.cpp):
    a FIFO of (action, path) pairs drained on a timer. On a dlnfs directory
    the kernel reports each change twice, once for the underlying file
    system and once for dlnfs, so the drain drops the first of the two and
    carries an "ignored" flag from one pair to the next. The directory walk
    and file-system query of `ignoreAction` are given as a predicate, the
    timer and the lock are not modelled. */
module EventAdaptor {
  import StringHelper

  /** `QPair<QByteArray, QByteArray>`: the action (or a rename's source) and
      the path. */
  datatype Pending = Pending(first: string, second: string)

  const LONGNAME: string := ".longname"

  /** `ignoreAction`: ".longname" files always; otherwise, when the previous
      pair was not ignored, any path whose nearest existing directory is on
      dlnfs (`onDlnfs`). */
  function IgnoreAction(path: string, ignored: bool, onDlnfs: string -> bool): (b: bool)
    ensures StringHelper.EndsWith(path, LONGNAME) ==> b
    ensures ignored && !StringHelper.EndsWith(path, LONGNAME) ==> !b
  {
    if StringHelper.EndsWith(path, LONGNAME) then true
    else if !ignored then onDlnfs(path)
    else false
  }

  /** The "ignored" flag after each pair of a drain, in order. */
  function Flags(ps: seq<Pending>, onDlnfs: string -> bool): (r: seq<bool>)
    ensures |r| == |ps|
  {
    if ps == [] then []
    else
      var front := Flags(ps[..|ps| - 1], onDlnfs);
      var prev := if front == [] then false else front[|front| - 1];
      front + [IgnoreAction(ps[|ps| - 1].second, prev, onDlnfs)]
  }

  /** The pairs a drain keeps: those whose flag is off, in order. */
  function Kept(ps: seq<Pending>, onDlnfs: string -> bool): (r: seq<Pending>)
    ensures |r| <= |ps|
  {
    if ps == [] then []
    else
      var front := Kept(ps[..|ps| - 1], onDlnfs);
      if Flags(ps, onDlnfs)[|ps| - 1] then front else front + [ps[|ps| - 1]]
  }

  /** The pairs of `ps` whose flag in `fs` is off, front to back: the
      plain in-order filter. */
  function Select(ps: seq<Pending>, fs: seq<bool>): (r: seq<Pending>)
    requires |fs| == |ps|
    ensures |r| <= |ps|
    ensures forall k :: 0 <= k < |r| ==> r[k] in ps
  {
    if ps == [] then []
    else (if fs[0] then [] else [ps[0]]) + Select(ps[1..], fs[1..])
  }

  /** Filtering a queue with one more pair adds that pair at the end when
      its flag is off. */
  lemma {:induction false} SelectSnoc(ps: seq<Pending>, fs: seq<bool>, p: Pending, f: bool)
    requires |fs| == |ps|
    ensures Select(ps + [p], fs + [f]) == Select(ps, fs) + (if f then [] else [p])
  {
    if ps != [] {
      assert (ps + [p])[1..] == ps[1..] + [p] && (fs + [f])[1..] == fs[1..] + [f];
      SelectSnoc(ps[1..], fs[1..], p, f);
    } else {
      assert (ps + [p])[1..] == [] && (fs + [f])[1..] == [];
    }
  }

  /** A drain keeps exactly the pairs whose "ignored" flag is off, in queue
      order. */
  lemma {:induction false} KeptIsSelect(ps: seq<Pending>, onDlnfs: string -> bool)
    ensures Kept(ps, onDlnfs) == Select(ps, Flags(ps, onDlnfs))
  {
    if ps != [] {
      var n := |ps| - 1;
      var front := ps[..n];
      KeptIsSelect(front, onDlnfs);
      FlagsExtend(ps, onDlnfs, n);
      var fs := Flags(ps, onDlnfs);
      assert ps == front + [ps[n]] && fs == fs[..n] + [fs[n]];
      SelectSnoc(front, fs[..n], ps[n], fs[n]);
    }
  }

  lemma FlagsPrefix(ps: seq<Pending>, onDlnfs: string -> bool, i: nat)
    requires i < |ps|
    ensures Flags(ps[..i + 1], onDlnfs) == Flags(ps[..i], onDlnfs) + [Flags(ps[..i + 1], onDlnfs)[i]]
  {
    assert ps[..i + 1][..i] == ps[..i];
  }

  /** The flags of a longer queue extend those of its prefix. */
  lemma {:induction false} FlagsExtend(ps: seq<Pending>, onDlnfs: string -> bool, i: nat)
    requires i <= |ps|
    ensures Flags(ps[..i], onDlnfs) == Flags(ps, onDlnfs)[..i]
    decreases |ps| - i
  {
    if i < |ps| {
      FlagsExtend(ps, onDlnfs, i + 1);
      FlagsPrefix(ps, onDlnfs, i);
      assert Flags(ps[..i + 1], onDlnfs)[..i] == Flags(ps[..i], onDlnfs);
    } else {
      assert ps[..i] == ps;
    }
  }

  /** A ".longname" path is never handed on. */
  lemma {:induction false} LongnameDropped(ps: seq<Pending>, onDlnfs: string -> bool, k: nat)
    requires k < |Kept(ps, onDlnfs)|
    ensures !StringHelper.EndsWith(Kept(ps, onDlnfs)[k].second, LONGNAME)
  {
    var front := ps[..|ps| - 1];
    assert ps == front + [ps[|ps| - 1]];
    if k < |Kept(front, onDlnfs)| {
      LongnameDropped(front, onDlnfs, k);
    }
  }

  /** The pair right after an ignored one is kept unless it is a
      ".longname" path: it is not checked for dlnfs. */
  lemma {:induction false} AfterIgnoredKept(ps: seq<Pending>, onDlnfs: string -> bool, i: nat)
    requires i + 1 < |ps| && Flags(ps, onDlnfs)[i]
    requires !StringHelper.EndsWith(ps[i + 1].second, LONGNAME)
    ensures !Flags(ps, onDlnfs)[i + 1]
  {
    var q := ps[..i + 2];
    FlagsExtend(ps, onDlnfs, i + 2);
    FlagsExtend(ps, onDlnfs, i + 1);
    assert q[..i + 1] == ps[..i + 1] && q[i + 1] == ps[i + 1];
    var prev := Flags(ps[..i + 1], onDlnfs)[i];
    assert prev;
    assert Flags(q, onDlnfs) == Flags(ps[..i + 1], onDlnfs) + [IgnoreAction(ps[i + 1].second, prev, onDlnfs)];
  }

  /** A pair whose flag is off is kept: every pair is either dropped for a
      reason or handed on. */
  lemma {:induction false} KeptHolds(ps: seq<Pending>, onDlnfs: string -> bool, i: nat)
    requires i < |ps| && !Flags(ps, onDlnfs)[i]
    ensures ps[i] in Kept(ps, onDlnfs)
  {
    var front := ps[..|ps| - 1];
    if i < |ps| - 1 {
      FlagsExtend(ps, onDlnfs, |ps| - 1);
      assert front[i] == ps[i];
      KeptHolds(front, onDlnfs, i);
    }
  }

  class Adaptor {
    var actionBuffers: seq<Pending>

    constructor ()
      ensures actionBuffers == []
    {
      actionBuffers := [];
    }

    /** `pushEvent`: enqueue. */
    method PushEvent(p: Pending)
      modifies this
      ensures actionBuffers == old(actionBuffers) + [p]
    {
      actionBuffers := actionBuffers + [p];
    }

    /** `popEvent`: false on an empty queue, otherwise the oldest pair. */
    method PopEvent() returns (ok: bool, p: Pending)
      modifies this
      ensures ok <==> old(actionBuffers) != []
      ensures ok ==> p == old(actionBuffers)[0] && actionBuffers == old(actionBuffers)[1..]
      ensures !ok ==> actionBuffers == old(actionBuffers)
    {
      if actionBuffers == [] {
        return false, Pending("", "");
      }
      p := actionBuffers[0];
      actionBuffers := actionBuffers[1..];
      return true, p;
    }

    /** `onHandleEvent`: the queue is drained completely; the handler is
        called once, with the kept pairs in order, when there are any. */
    method OnHandleEvent(onDlnfs: string -> bool) returns (handed: seq<Pending>, called: bool)
      modifies this
      ensures actionBuffers == []
      ensures handed == Kept(old(actionBuffers), onDlnfs)
      ensures called <==> handed != []
    {
      ghost var all := actionBuffers;
      var tmp: seq<Pending> := [];
      var ignored := false;
      ghost var n: nat := 0;
      var pop := true;
      while pop
        invariant n <= |all| && actionBuffers == all[n..]
        invariant tmp == Kept(all[..n], onDlnfs)
        invariant ignored == (n > 0 && Flags(all[..n], onDlnfs)[n - 1])
        invariant !pop ==> n == |all|
        decreases |all| - n, pop
      {
        var top;
        pop, top := PopEvent();
        if pop {
          FlagsPrefix(all, onDlnfs, n);
          assert all[..n + 1][..n] == all[..n];
          assert all[n] == top;
          ignored := IgnoreAction(top.second, ignored, onDlnfs);
          if !ignored {
            tmp := tmp + [top];
          }
          n := n + 1;
        }
      }
      assert all[..n] == all;
      called := tmp != [];
      return tmp, called;
    }
  }
}

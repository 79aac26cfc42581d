/** The user-space readers of the kernel's change stream: the monitor
    decodes each item of the buffer `move_vfs_changes` filled and groups
    consecutive changes of the same kind into one created, deleted or
    renamed batch before signalling it. The same grouping serves the
    generic-netlink event source, which flushes whenever an event says it
    ends a burst. */
module ServerStream {
  import opened Common
  import opened VfsChange

  /** A decoded change: its action byte, source and (for renames)
      destination; `dst` is empty for the other actions. */
  datatype Event = Event(action: byte, src: Bytes, dst: Bytes)

  datatype Kind = Create | Delete | Rename | Unknown

  /** The `switch` of `Server::run`. */
  function KindOf(action: byte): Kind
  {
    if action <= ACT_NEW_FOLDER then Create
    else if action <= ACT_DEL_FOLDER then Delete
    else if action <= ACT_RENAME_FOLDER then Rename
    else Unknown
  }

  // ---------------------------------------------------------------
  // Decoding
  // ---------------------------------------------------------------

  /** A byte of the read buffer; bytes past the data read as NUL. */
  function At(data: Bytes, i: nat): byte
  {
    if i < |data| then data[i] else NUL
  }

  /** The C string at `off`: the bytes up to the next NUL. */
  function ReadStr(data: Bytes, off: nat): (r: Bytes)
    ensures Free(r, NUL)
    ensures r != [] ==> off + |r| <= |data|
    decreases |data| - off
  {
    if off >= |data| || data[off] == NUL then [] else [data[off]] + ReadStr(data, off + 1)
  }

  /** One item at `off` and the offset just past it. */
  function DecodeItem(data: Bytes, off: nat): (Event, nat)
  {
    var action := At(data, off);
    var src := ReadStr(data, off + 1);
    var o := off + 1 + |src| + 1;
    if KindOf(action) == Rename then
      var dst := ReadStr(data, o);
      (Event(action, src, dst), o + |dst| + 1)
    else (Event(action, src, []), o)
  }

  /** The `n` items from `off` on. */
  function DecodeItems(data: Bytes, off: nat, n: nat): seq<Event>
    decreases n
  {
    if n == 0 then []
    else
      var d := DecodeItem(data, off);
      [d.0] + DecodeItems(data, d.1, n - 1)
  }

  /** What the reader should see of a queued entry. */
  function EventOf(e: Entry): Event
  {
    Event(e.action, e.src, DstOrEmpty(e))
  }

  function EventsOf(es: seq<Entry>): (r: seq<Event>)
    ensures |r| == |es|
  {
    if es == [] then [] else [EventOf(es[0])] + EventsOf(es[1..])
  }

  lemma {:induction false} ReadStrEncoded(pre: Bytes, s: Bytes, post: Bytes)
    requires Free(s, NUL)
    ensures ReadStr(pre + s + [NUL] + post, |pre|) == s
    decreases |s|
  {
    var data := pre + s + [NUL] + post;
    if s == [] {
      assert data[|pre|] == NUL;
    } else {
      assert data == (pre + [s[0]]) + s[1..] + [NUL] + post;
      assert data[|pre|] == s[0];
      ReadStrEncoded(pre + [s[0]], s[1..], post);
    }
  }

  /** The reader decodes one encoded entry back. */
  lemma DecodeEncoded(pre: Bytes, e: Entry, post: Bytes)
    requires WellFormed(e)
    ensures DecodeItem(pre + Encode(e) + post, |pre|) == (EventOf(e), |pre| + |Encode(e)|)
  {
    var data := pre + Encode(e) + post;
    assert data[|pre|] == e.action;
    if e.dst.Some? {
      assert data == pre + [e.action] + e.src + [NUL] + (e.dst.value + [NUL] + post);
      ReadStrEncoded(pre + [e.action], e.src, e.dst.value + [NUL] + post);
      assert data == (pre + [e.action] + e.src + [NUL]) + e.dst.value + [NUL] + post;
      ReadStrEncoded(pre + [e.action] + e.src + [NUL], e.dst.value, post);
    } else {
      assert data == pre + [e.action] + e.src + [NUL] + post;
      ReadStrEncoded(pre + [e.action], e.src, post);
    }
  }

  /** Round trip: decoding as many items as the kernel reported gives back
      exactly the entries it encoded, in order. */
  lemma {:induction false} DecodeAllEncoded(pre: Bytes, es: seq<Entry>)
    requires AllWellFormed(es)
    ensures DecodeItems(pre + EncodeAll(es), |pre|, |es|) == EventsOf(es)
    decreases |es|
  {
    if es != [] {
      AllWellFormedTail(es);
      var pre2 := pre + Encode(es[0]);
      DecodeFirst(pre, es);
      DecodeAllEncoded(pre2, es[1..]);
      EventsOfCons(es);
    }
  }

  lemma EventsOfCons(es: seq<Entry>)
    requires es != []
    ensures EventsOf(es) == [EventOf(es[0])] + EventsOf(es[1..])
  {
  }

  /** The first entry of an encoded run decodes back, and the cursor lands
      on the encoding of the rest. */
  lemma DecodeFirst(pre: Bytes, es: seq<Entry>)
    requires es != [] && WellFormed(es[0])
    ensures DecodeItems(pre + EncodeAll(es), |pre|, |es|)
         == [EventOf(es[0])] + DecodeItems((pre + Encode(es[0])) + EncodeAll(es[1..]), |pre + Encode(es[0])|, |es| - 1)
  {
    var e, rest := es[0], EncodeAll(es[1..]);
    var pre2 := pre + Encode(e);
    var data := pre + EncodeAll(es);
    assert EncodeAll(es) == Encode(e) + rest;
    AppendAssoc(pre, Encode(e), rest);
    DecodeEncoded(pre, e, rest);
    assert DecodeItem(data, |pre|) == (EventOf(e), |pre2|);
    DecodeItemsCons(data, |pre|, |es|);
  }

  lemma DecodeItemsCons(data: Bytes, off: nat, n: nat)
    requires n > 0
    ensures DecodeItems(data, off, n) == [DecodeItem(data, off).0] + DecodeItems(data, DecodeItem(data, off).1, n - 1)
  {
  }

  lemma AllWellFormedTail(es: seq<Entry>)
    requires es != [] && AllWellFormed(es)
    ensures WellFormed(es[0]) && AllWellFormed(es[1..])
  {
    forall i | 0 <= i < |es| - 1 ensures WellFormed(es[1..][i]) {
      assert es[1..][i] == es[i + 1];
    }
  }

  /** What `move_vfs_changes` hands over reads back as the entries it
      took from the queue. */
  lemma StreamRoundTrip(es: seq<Entry>, size: nat)
    requires AllWellFormed(es)
    ensures DecodeItems(EncodeAll(es[..Taken(es, size)]), 0, Taken(es, size)) == EventsOf(es[..Taken(es, size)])
  {
    var n := Taken(es, size);
    assert AllWellFormed(es[..n]) by {
      forall i | 0 <= i < n ensures WellFormed(es[..n][i]) {
        assert es[..n][i] == es[i];
      }
    }
    DecodeAllEncoded([], es[..n]);
    assert [] + EncodeAll(es[..n]) == EncodeAll(es[..n]);
  }

  // ---------------------------------------------------------------
  // Batching
  // ---------------------------------------------------------------

  /** A signalled batch: `fileCreated`, `fileDeleted` or `fileRenamed`. */
  datatype Batch = Created(paths: seq<Bytes>) | Deleted(paths: seq<Bytes>) | Renamed(pairs: seq<(Bytes, Bytes)>)

  /** A change as a batch carries it. */
  datatype Item = Item(kind: Kind, src: Bytes, dst: Bytes)

  function KindOfBatch(b: Batch): Kind
  {
    match b
    case Created(_) => Create
    case Deleted(_) => Delete
    case Renamed(_) => Rename
  }

  function PathItems(k: Kind, ps: seq<Bytes>): (r: seq<Item>)
    ensures |r| == |ps|
  {
    if ps == [] then [] else PathItems(k, ps[..|ps| - 1]) + [Item(k, ps[|ps| - 1], [])]
  }

  function PairItems(ps: seq<(Bytes, Bytes)>): (r: seq<Item>)
    ensures |r| == |ps|
  {
    if ps == [] then [] else PairItems(ps[..|ps| - 1]) + [Item(Rename, ps[|ps| - 1].0, ps[|ps| - 1].1)]
  }

  lemma PathItemsSnoc(k: Kind, ps: seq<Bytes>, p: Bytes)
    ensures PathItems(k, ps + [p]) == PathItems(k, ps) + [Item(k, p, [])]
  {
    assert (ps + [p])[..|ps|] == ps;
  }

  lemma PairItemsSnoc(ps: seq<(Bytes, Bytes)>, p: (Bytes, Bytes))
    ensures PairItems(ps + [p]) == PairItems(ps) + [Item(Rename, p.0, p.1)]
  {
    assert (ps + [p])[..|ps|] == ps;
  }

  function BatchItems(b: Batch): seq<Item>
  {
    match b
    case Created(ps) => PathItems(Create, ps)
    case Deleted(ps) => PathItems(Delete, ps)
    case Renamed(ps) => PairItems(ps)
  }

  /** Every change the batches carry, in signal order. */
  function AllItems(bs: seq<Batch>): seq<Item>
  {
    if bs == [] then [] else AllItems(bs[..|bs| - 1]) + BatchItems(bs[|bs| - 1])
  }

  lemma AllItemsSnoc(bs: seq<Batch>, b: Batch)
    ensures AllItems(bs + [b]) == AllItems(bs) + BatchItems(b)
  {
    assert (bs + [b])[..|bs|] == bs;
  }

  /** The item an event adds to the batches; events of unknown action add
      none, and only renames carry a destination. */
  function ItemOf(ev: Event): seq<Item>
  {
    var k := KindOf(ev.action);
    if k == Unknown then [] else [Item(k, ev.src, if k == Rename then ev.dst else [])]
  }

  function ItemsOf(evs: seq<Event>): seq<Item>
  {
    if evs == [] then [] else ItemsOf(evs[..|evs| - 1]) + ItemOf(evs[|evs| - 1])
  }

  lemma ItemsOfSnoc(evs: seq<Event>, ev: Event)
    ensures ItemsOf(evs + [ev]) == ItemsOf(evs) + ItemOf(ev)
  {
    assert (evs + [ev])[..|evs|] == evs;
  }

  /** No batch is empty. */
  predicate NonEmptyBatches(bs: seq<Batch>)
  {
    forall i :: 0 <= i < |bs| ==> BatchItems(bs[i]) != []
  }

  /** Neighbouring batches are of different kinds: each batch is a whole
      run of same-kind changes. */
  predicate Alternating(bs: seq<Batch>)
  {
    forall i :: 0 < i < |bs| ==> KindOfBatch(bs[i - 1]) != KindOfBatch(bs[i])
  }

  /** At most one of the three lists is non-empty. */
  predicate AtMostOne(c: seq<Bytes>, d: seq<Bytes>, r: seq<(Bytes, Bytes)>)
  {
    (c == [] || d == []) && (c == [] || r == []) && (d == [] || r == [])
  }

  /** The changes pending in the three lists. */
  function PendingOf(c: seq<Bytes>, d: seq<Bytes>, r: seq<(Bytes, Bytes)>): seq<Item>
  {
    PathItems(Create, c) + PathItems(Delete, d) + PairItems(r)
  }

  lemma AllItemsOne(b: Batch)
    ensures AllItems([b]) == BatchItems(b)
  {
    AllItemsSnoc([], b);
    assert [] + [b] == [b];
  }

  /** A creation joins the create list, and a pending delete or rename
      list is signalled first. */
  lemma CreateArrives(c: seq<Bytes>, d: seq<Bytes>, r: seq<(Bytes, Bytes)>, src: Bytes, out: seq<Batch>)
    requires AtMostOne(c, d, r)
    requires out == (if d != [] then [Deleted(d)] else if r != [] then [Renamed(r)] else [])
    ensures AllItems(out) + PendingOf(c + [src], [], []) == PendingOf(c, d, r) + [Item(Create, src, [])]
  {
    PathItemsSnoc(Create, c, src);
    if out != [] {
      AllItemsOne(out[0]);
    }
  }

  /** A delete joins the delete list, and a pending create or rename list
      is signalled first. */
  lemma DeleteArrives(c: seq<Bytes>, d: seq<Bytes>, r: seq<(Bytes, Bytes)>, src: Bytes, out: seq<Batch>)
    requires AtMostOne(c, d, r)
    requires out == (if c != [] then [Created(c)] else if r != [] then [Renamed(r)] else [])
    ensures AllItems(out) + PendingOf([], d + [src], []) == PendingOf(c, d, r) + [Item(Delete, src, [])]
  {
    PathItemsSnoc(Delete, d, src);
    if out != [] {
      AllItemsOne(out[0]);
    }
  }

  /** A rename joins the rename list, and a pending delete or create list
      is signalled first. */
  lemma RenameArrives(c: seq<Bytes>, d: seq<Bytes>, r: seq<(Bytes, Bytes)>, src: Bytes, dst: Bytes, out: seq<Batch>)
    requires AtMostOne(c, d, r)
    requires out == (if d != [] then [Deleted(d)] else if c != [] then [Created(c)] else [])
    ensures AllItems(out) + PendingOf([], [], r + [(src, dst)]) == PendingOf(c, d, r) + [Item(Rename, src, dst)]
  {
    PairItemsSnoc(r, (src, dst));
    if out != [] {
      AllItemsOne(out[0]);
    }
  }

  /** The three pending lists of `Server::run`. */
  class Batcher {
    var creates: seq<Bytes>
    var deletes: seq<Bytes>
    var renames: seq<(Bytes, Bytes)>

    ghost predicate Valid()
      reads this
    {
      AtMostOne(creates, deletes, renames)
    }

    /** The pending changes. */
    function Pending(): seq<Item>
      reads this
    {
      PendingOf(creates, deletes, renames)
    }

    /** The kind of the pending list, `Unknown` when none is pending. */
    function PendingKind(): Kind
      reads this
    {
      if creates != [] then Create else if deletes != [] then Delete else if renames != [] then Rename else Unknown
    }

    constructor()
      ensures Valid() && Pending() == [] && PendingKind() == Unknown
    {
      creates, deletes, renames := [], [], [];
    }

    /** One pass of the `switch`: the event joins its list, and the list
        pending before it is signalled if it is of another kind. */
    method Push(ev: Event) returns (out: seq<Batch>)
      requires Valid()
      modifies this
      ensures Valid()
      ensures AllItems(out) + Pending() == old(Pending()) + ItemOf(ev)
      ensures ItemOf(ev) == [] ==> out == [] && creates == old(creates) && deletes == old(deletes) && renames == old(renames)
      ensures ItemOf(ev) == [] ==> PendingKind() == old(PendingKind())
      ensures ItemOf(ev) != [] ==> PendingKind() == KindOf(ev.action)
      ensures |out| <= 1 && NonEmptyBatches(out)
      ensures out != [] ==> KindOfBatch(out[0]) == old(PendingKind()) && KindOfBatch(out[0]) != KindOf(ev.action)
      ensures out == [] && ItemOf(ev) != [] ==> old(PendingKind()) == Unknown || old(PendingKind()) == KindOf(ev.action)
    {
      out := [];
      var k := KindOf(ev.action);
      if k == Create {
        out := if deletes != [] then [Deleted(deletes)] else if renames != [] then [Renamed(renames)] else [];
        CreateArrives(creates, deletes, renames, ev.src, out);
        creates, deletes, renames := creates + [ev.src], [], [];
      } else if k == Delete {
        out := if creates != [] then [Created(creates)] else if renames != [] then [Renamed(renames)] else [];
        DeleteArrives(creates, deletes, renames, ev.src, out);
        creates, deletes, renames := [], deletes + [ev.src], [];
      } else if k == Rename {
        out := if deletes != [] then [Deleted(deletes)] else if creates != [] then [Created(creates)] else [];
        RenameArrives(creates, deletes, renames, ev.src, ev.dst, out);
        creates, deletes, renames := [], [], renames + [(ev.src, ev.dst)];
      }
    }

    /** The flush: the one pending list is signalled and cleared. */
    method Flush() returns (out: seq<Batch>)
      requires Valid()
      modifies this
      ensures Valid() && Pending() == [] && PendingKind() == Unknown
      ensures AllItems(out) == old(Pending())
      ensures |out| <= 1 && NonEmptyBatches(out)
      ensures out != [] ==> KindOfBatch(out[0]) == old(PendingKind())
    {
      out := [];
      if deletes != [] {
        out := [Deleted(deletes)];
      } else if creates != [] {
        out := [Created(creates)];
      } else if renames != [] {
        out := [Renamed(renames)];
      }
      if out != [] {
        AllItemsOne(out[0]);
      }
      creates, deletes, renames := [], [], [];
    }
  }

  /** Appending what one push or flush signalled keeps the batches
      non-empty and, when its kind differs from the last one, alternating. */
  lemma Emit(bs: seq<Batch>, out: seq<Batch>)
    requires |out| <= 1 && NonEmptyBatches(bs) && NonEmptyBatches(out) && Alternating(bs)
    requires out != [] && bs != [] ==> KindOfBatch(bs[|bs| - 1]) != KindOfBatch(out[0])
    ensures AllItems(bs + out) == AllItems(bs) + AllItems(out)
    ensures NonEmptyBatches(bs + out) && Alternating(bs + out)
  {
    if out == [] {
      assert bs + out == bs;
    } else {
      assert out == [out[0]];
      AllItemsSnoc(bs, out[0]);
      AllItemsOne(out[0]);
      var r := bs + out;
      forall i | 0 < i < |r| ensures KindOfBatch(r[i - 1]) != KindOfBatch(r[i]) {
        if i < |bs| {
          assert r[i - 1] == bs[i - 1] && r[i] == bs[i];
        }
      }
      forall i | 0 <= i < |r| ensures BatchItems(r[i]) != [] {
        if i < |bs| {
          assert r[i] == bs[i];
        }
      }
    }
  }

  /** One more item decoded from the buffer. */
  lemma DecodeNext(data: Bytes, off: nat, n: nat, evs: seq<Event>, whole: seq<Event>)
    requires n > 0 && whole == evs + DecodeItems(data, off, n)
    ensures whole == (evs + [DecodeItem(data, off).0]) + DecodeItems(data, DecodeItem(data, off).1, n - 1)
  {
    var d := DecodeItem(data, off);
    assert DecodeItems(data, off, n) == [d.0] + DecodeItems(data, d.1, n - 1);
    AppendAssoc(evs, [d.0], DecodeItems(data, d.1, n - 1));
  }

  /** One more push: the signalled batches and the pending lists still
      carry, together, the items of every event decoded so far. */
  lemma Advance(bs: seq<Batch>, out: seq<Batch>, before: seq<Item>, after: seq<Item>, evs: seq<Event>, ev: Event)
    requires AllItems(bs) + before == ItemsOf(evs)
    requires AllItems(out) + after == before + ItemOf(ev)
    requires |out| <= 1 && NonEmptyBatches(bs) && NonEmptyBatches(out) && Alternating(bs)
    requires out != [] && bs != [] ==> KindOfBatch(bs[|bs| - 1]) != KindOfBatch(out[0])
    ensures AllItems(bs + out) + after == ItemsOf(evs + [ev])
    ensures NonEmptyBatches(bs + out) && Alternating(bs + out)
  {
    Emit(bs, out);
    ItemsOfSnoc(evs, ev);
    AppendAssoc(AllItems(bs), AllItems(out), after);
    AppendAssoc(AllItems(bs), before, ItemOf(ev));
  }

  /** The body of the decoding loop: the action byte, the source and, for
      a rename, the destination, with the cursor moved past each. */
  method ReadItem(data: Bytes, off: nat) returns (ev: Event, next: nat)
    ensures (ev, next) == DecodeItem(data, off)
  {
    var action := At(data, off);
    next := off + 1;
    var src := ReadStr(data, next);
    next := next + |src| + 1;
    var dst: Bytes := [];
    if KindOf(action) == Rename {
      dst := ReadStr(data, next);
      next := next + |dst| + 1;
    }
    ev := Event(action, src, dst);
  }

  /** One round of `Server::run` in the monitor (both copies): nothing
      happens when the statistics show no change (`cur_changes == 0`) or
      the kernel reports no item; otherwise `count` items are decoded from
      the buffer and signalled as alternating batches carrying every
      change of known kind, in order. */
  method ReadRound(curChanges: int, data: Bytes, count: int) returns (batches: seq<Batch>)
    ensures curChanges == 0 || count <= 0 ==> batches == []
    ensures curChanges != 0 && count > 0 ==> AllItems(batches) == ItemsOf(DecodeItems(data, 0, count))
    ensures NonEmptyBatches(batches) && Alternating(batches)
  {
    batches := [];
    if curChanges == 0 || count <= 0 {
      return;
    }
    var b := new Batcher();
    var off: nat := 0;
    var i := 0;
    ghost var evs: seq<Event> := [];
    ghost var whole := DecodeItems(data, 0, count);
    while i < count
      invariant 0 <= i <= count && b.Valid()
      invariant whole == evs + DecodeItems(data, off, count - i)
      invariant RoundSoFar(batches, b.Pending(), b.PendingKind(), evs)
      decreases count - i
    {
      DecodeNext(data, off, count - i, evs, whole);
      var ev;
      ev, off := ReadItem(data, off);
      ghost var before, kind := b.Pending(), b.PendingKind();
      var out := b.Push(ev);
      ghost var bs, seen := batches, evs;
      batches := batches + out;
      evs := evs + [ev];
      i := i + 1;
      RoundStep(bs, out, before, b.Pending(), kind, b.PendingKind(), seen, ev);
    }
    ghost var before, kind := b.Pending(), b.PendingKind();
    var out := b.Flush();
    RoundEnd(batches, out, before, kind, evs);
    batches := batches + out;
    assert DecodeItems(data, off, 0) == [];
    AppendNil(evs);
  }

  /** The state of the round after the events `evs`: the batches signalled
      and the pending list hold their items in order, no batch is empty,
      neighbours differ in kind, and the last batch differs from the
      pending kind. */
  ghost predicate RoundSoFar(bs: seq<Batch>, pending: seq<Item>, kind: Kind, evs: seq<Event>)
  {
    && AllItems(bs) + pending == ItemsOf(evs)
    && NonEmptyBatches(bs) && Alternating(bs)
    && (bs != [] ==> kind != Unknown && KindOfBatch(bs[|bs| - 1]) != kind)
  }

  /** One push keeps the state of the round. */
  lemma RoundStep(bs: seq<Batch>, out: seq<Batch>, before: seq<Item>, after: seq<Item>,
                  kind: Kind, kind': Kind, evs: seq<Event>, ev: Event)
    requires RoundSoFar(bs, before, kind, evs)
    requires AllItems(out) + after == before + ItemOf(ev)
    requires ItemOf(ev) == [] ==> out == [] && kind' == kind
    requires ItemOf(ev) != [] ==> kind' == KindOf(ev.action)
    requires |out| <= 1 && NonEmptyBatches(out)
    requires out != [] ==> KindOfBatch(out[0]) == kind && KindOfBatch(out[0]) != KindOf(ev.action)
    requires out == [] && ItemOf(ev) != [] ==> kind == Unknown || kind == KindOf(ev.action)
    ensures RoundSoFar(bs + out, after, kind', evs + [ev])
  {
    Advance(bs, out, before, after, evs, ev);
    if out != [] {
      assert (bs + out)[|bs + out| - 1] == out[0];
    } else {
      assert bs + out == bs;
    }
  }

  /** The flush at the end of the round. */
  lemma RoundEnd(bs: seq<Batch>, out: seq<Batch>, pending: seq<Item>, kind: Kind, evs: seq<Event>)
    requires RoundSoFar(bs, pending, kind, evs)
    requires AllItems(out) == pending && |out| <= 1 && NonEmptyBatches(out)
    requires out != [] ==> KindOfBatch(out[0]) == kind
    ensures AllItems(bs + out) == ItemsOf(evs)
    ensures NonEmptyBatches(bs + out) && Alternating(bs + out)
  {
    Emit(bs, out);
  }

  // ---------------------------------------------------------------
  // The service's loop: one event at a time, flushed on `end`
  // ---------------------------------------------------------------

  /** Every batch carries exactly one change. */
  predicate Singletons(bs: seq<Batch>)
  {
    forall i :: 0 <= i < |bs| ==> |BatchItems(bs[i])| == 1
  }

  /** One pass of `Server::run` in the service: the switch, then the
      flush when the event source marks the event as the end of a group. */
  method OnEvent(b: Batcher, ev: Event, end: bool) returns (out: seq<Batch>)
    requires b.Valid()
    modifies b
    ensures b.Valid()
    ensures AllItems(out) + b.Pending() == old(b.Pending()) + ItemOf(ev)
    ensures end ==> b.Pending() == []
    ensures !end ==> |out| <= 1
    ensures |out| <= 2 && NonEmptyBatches(out) && Alternating(out)
    ensures old(b.Pending()) == [] && end ==> AllItems(out) == ItemOf(ev) && |out| == |ItemOf(ev)|
  {
    ghost var before := b.Pending();
    out := b.Push(ev);
    if end {
      ghost var mid := b.Pending();
      var rest := b.Flush();
      Emit(out, rest);
      AppendAssoc(AllItems(out), AllItems(rest), b.Pending());
      AppendNil(AllItems(out) + AllItems(rest));
      if before == [] && ItemOf(ev) != [] {
        assert out == [];
        assert [] + mid == mid;
      }
      out := out + rest;
    }
  }

  /** The service fed by the generic-netlink event source, which marks
      every event as the end of its group: each change is signalled on
      its own, in order, and nothing is left pending. */
  method ServeAll(evs: seq<Event>) returns (batches: seq<Batch>)
    ensures AllItems(batches) == ItemsOf(evs)
    ensures Singletons(batches)
  {
    var b := new Batcher();
    batches := [];
    var i := 0;
    ghost var seen: seq<Event> := [];
    while i < |evs|
      invariant 0 <= i <= |evs| && b.Valid() && b.Pending() == []
      invariant seen == evs[..i]
      invariant Served(batches, seen)
    {
      var ev := evs[i];
      var out := OnEvent(b, ev, true);
      ghost var bs, sn := batches, seen;
      batches := batches + out;
      seen := seen + [ev];
      assert evs[..i + 1] == evs[..i] + [ev];
      i := i + 1;
      ServeStep(bs, out, sn, ev, batches, seen);
    }
    assert seen == evs;
  }

  /** What the service has signalled for the events `evs`: each change on
      its own, in order. */
  predicate Served(bs: seq<Batch>, evs: seq<Event>)
  {
    AllItems(bs) == ItemsOf(evs) && Singletons(bs)
  }

  /** One more event of `ServeAll`. */
  lemma ServeStep(bs: seq<Batch>, out: seq<Batch>, evs: seq<Event>, ev: Event, bs': seq<Batch>, evs': seq<Event>)
    requires Served(bs, evs)
    requires AllItems(out) == ItemOf(ev) && |out| == |ItemOf(ev)| && NonEmptyBatches(out)
    requires bs' == bs + out && evs' == evs + [ev]
    ensures Served(bs', evs')
  {
    ItemsOfSnoc(evs, ev);
    SingletonSnoc(bs, out);
  }

  /** Appending at most one single-change batch keeps every batch single. */
  lemma SingletonSnoc(bs: seq<Batch>, out: seq<Batch>)
    requires Singletons(bs) && NonEmptyBatches(out) && |out| == |AllItems(out)| && |out| <= 1
    ensures Singletons(bs + out)
    ensures AllItems(bs + out) == AllItems(bs) + AllItems(out)
  {
    if out == [] {
      assert bs + out == bs;
    } else {
      assert out == [out[0]];
      AllItemsSnoc(bs, out[0]);
      AllItemsOne(out[0]);
      var r := bs + out;
      forall i | 0 <= i < |r| ensures |BatchItems(r[i])| == 1 {
        if i < |bs| {
          assert r[i] == bs[i];
        }
      }
    }
  }
}

/** The kernel module's table from device numbers to mount paths, a binary
    search tree keyed by `dev_t`. */
module VfsPartition {
  import opened Common
  import DevNumbers
  import KernelPaths

  /** A `dev_t` as the unsigned number the tree compares. */
  type Dev = u32

  /** The tree of `krp_partition` nodes. */
  datatype Tree = Leaf | Node(left: Tree, dev: Dev, path: string, right: Tree)

  ghost function Keys(t: Tree): set<Dev>
  {
    match t
    case Leaf => {}
    case Node(l, d, _, r) => Keys(l) + {d} + Keys(r)
  }

  /** Binary-search order by `dev`: smaller devices to the left, larger to
      the right. */
  ghost predicate Bst(t: Tree)
  {
    match t
    case Leaf => true
    case Node(l, d, _, r) =>
      Bst(l) && Bst(r) && (forall x :: x in Keys(l) ==> x < d) && (forall x :: x in Keys(r) ==> d < x)
  }

  /** The map the tree represents. */
  ghost function Contents(t: Tree): (m: map<Dev, string>)
    ensures m.Keys == Keys(t)
  {
    match t
    case Leaf => map[]
    case Node(l, d, p, r) => Contents(l) + Contents(r) + map[d := p]
  }

  /** Below a node, a smaller device can only be on the left, a larger
      only on the right. */
  lemma Descend(t: Tree, dev: Dev)
    requires t.Node? && Bst(t)
    ensures dev == t.dev ==> dev in Contents(t) && Contents(t)[dev] == t.path
    ensures dev < t.dev ==> (dev in Contents(t) <==> dev in Contents(t.left))
    ensures dev < t.dev && dev in Contents(t) ==> Contents(t)[dev] == Contents(t.left)[dev]
    ensures t.dev < dev ==> (dev in Contents(t) <==> dev in Contents(t.right))
    ensures t.dev < dev && dev in Contents(t) ==> Contents(t)[dev] == Contents(t.right)[dev]
  {
  }

  /** The insertion `vfs_add_partition` makes below a leaf. */
  function Insert(t: Tree, dev: Dev, path: string): (t': Tree)
  {
    match t
    case Leaf => Node(Leaf, dev, path, Leaf)
    case Node(l, d, p, r) =>
      if dev > d then Node(l, d, p, Insert(r, dev, path))
      else if dev < d then Node(Insert(l, dev, path), d, p, r)
      else t
  }

  lemma {:induction false} InsertKeys(t: Tree, dev: Dev, path: string)
    ensures Keys(Insert(t, dev, path)) == Keys(t) + {dev}
  {
    match t
    case Leaf =>
    case Node(l, d, p, r) =>
      if dev > d { InsertKeys(r, dev, path); }
      else if dev < d { InsertKeys(l, dev, path); }
  }

  /** What a node maps each of its devices to: its own path, else the
      right subtree's entry, else the left's. */
  lemma NodeAt(t: Tree, x: Dev)
    requires t.Node? && x in Keys(t)
    ensures Contents(t)[x] == if x == t.dev then t.path else if x in Keys(t.right) then Contents(t.right)[x] else Contents(t.left)[x]
  {
  }

  lemma MapsEqual(a: map<Dev, string>, b: map<Dev, string>)
    requires a.Keys == b.Keys && forall x :: x in a ==> a[x] == b[x]
    ensures a == b
  {
  }

  lemma {:induction false} InsertBst(t: Tree, dev: Dev, path: string)
    requires Bst(t)
    ensures Bst(Insert(t, dev, path))
  {
    match t
    case Leaf =>
    case Node(l, d, p, r) =>
      if dev > d {
        InsertBst(r, dev, path);
        InsertKeys(r, dev, path);
      } else if dev < d {
        InsertBst(l, dev, path);
        InsertKeys(l, dev, path);
      }
  }

  lemma {:induction false} InsertAt(t: Tree, dev: Dev, path: string, x: Dev)
    requires Bst(t) && dev !in Keys(t) && x in Keys(t) + {dev}
    ensures x in Keys(Insert(t, dev, path))
    ensures Contents(Insert(t, dev, path))[x] == if x == dev then path else Contents(t)[x]
  {
    InsertKeys(t, dev, path);
    match t
    case Leaf =>
    case Node(l, d, p, r) =>
      var t' := Insert(t, dev, path);
      NodeAt(t', x);
      if x != dev {
        NodeAt(t, x);
      }
      if dev > d {
        InsertKeys(r, dev, path);
        if x in Keys(r) + {dev} {
          InsertAt(r, dev, path, x);
        }
      } else {
        InsertKeys(l, dev, path);
        if x in Keys(l) + {dev} {
          InsertAt(l, dev, path, x);
        }
      }
  }

  /** Inserting an absent device keeps the order and adds exactly that
      entry. */
  lemma InsertContents(t: Tree, dev: Dev, path: string)
    requires Bst(t) && dev !in Keys(t)
    ensures Bst(Insert(t, dev, path))
    ensures Contents(Insert(t, dev, path)) == Contents(t)[dev := path]
  {
    InsertBst(t, dev, path);
    InsertKeys(t, dev, path);
    forall x | x in Contents(Insert(t, dev, path))
      ensures Contents(Insert(t, dev, path))[x] == Contents(t)[dev := path][x]
    {
      InsertAt(t, dev, path, x);
    }
    MapsEqual(Contents(Insert(t, dev, path)), Contents(t)[dev := path]);
  }

  /** The node with the smallest device, which `rb_erase` moves up when it
      removes a node with two children. */
  function Min(t: Tree): (m: (Dev, string))
    requires t.Node?
    ensures m.0 in Keys(t)
  {
    if t.left.Leaf? then (t.dev, t.path) else Min(t.left)
  }

  lemma {:induction false} MinIsLeast(t: Tree)
    requires t.Node? && Bst(t)
    ensures forall x :: x in Keys(t) ==> Min(t).0 <= x
    ensures Contents(t)[Min(t).0] == Min(t).1
  {
    if t.left.Node? {
      MinIsLeast(t.left);
    }
  }

  function RemoveMin(t: Tree): (t': Tree)
    requires t.Node?
  {
    if t.left.Leaf? then t.right else Node(RemoveMin(t.left), t.dev, t.path, t.right)
  }

  lemma {:induction false} RemoveMinKeys(t: Tree)
    requires t.Node? && Bst(t)
    ensures Keys(RemoveMin(t)) == Keys(t) - {Min(t).0}
  {
    MinIsLeast(t);
    if t.left.Node? {
      RemoveMinKeys(t.left);
    }
  }

  lemma {:induction false} RemoveMinBst(t: Tree)
    requires t.Node? && Bst(t)
    ensures Bst(RemoveMin(t))
  {
    if t.left.Node? {
      RemoveMinBst(t.left);
      RemoveMinKeys(t.left);
    }
  }

  lemma {:induction false} RemoveMinAt(t: Tree, x: Dev)
    requires t.Node? && Bst(t) && x in Keys(t) && x != Min(t).0
    ensures x in Keys(RemoveMin(t)) && Contents(RemoveMin(t))[x] == Contents(t)[x]
  {
    RemoveMinKeys(t);
    NodeAt(t, x);
    if t.left.Node? {
      NodeAt(RemoveMin(t), x);
      RemoveMinKeys(t.left);
      if x in Keys(t.left) {
        RemoveMinAt(t.left, x);
      }
    }
  }

  lemma RemoveMinContents(t: Tree)
    requires t.Node? && Bst(t)
    ensures Bst(RemoveMin(t)) && Keys(RemoveMin(t)) == Keys(t) - {Min(t).0}
    ensures Contents(RemoveMin(t)) == Contents(t) - {Min(t).0}
  {
    RemoveMinBst(t);
    RemoveMinKeys(t);
    forall x | x in Contents(RemoveMin(t))
      ensures Contents(RemoveMin(t))[x] == (Contents(t) - {Min(t).0})[x]
    {
      RemoveMinAt(t, x);
    }
    MapsEqual(Contents(RemoveMin(t)), Contents(t) - {Min(t).0});
  }

  /** The removal `vfs_del_partition` makes with `rb_erase`. */
  function Delete(t: Tree, dev: Dev): (t': Tree)
  {
    match t
    case Leaf => Leaf
    case Node(l, d, p, r) =>
      if dev < d then Node(Delete(l, dev), d, p, r)
      else if dev > d then Node(l, d, p, Delete(r, dev))
      else if l.Leaf? then r
      else if r.Leaf? then l
      else Node(l, Min(r).0, Min(r).1, RemoveMin(r))
  }

  lemma {:induction false} DeleteKeys(t: Tree, dev: Dev)
    requires Bst(t)
    ensures Keys(Delete(t, dev)) == Keys(t) - {dev}
  {
    match t
    case Leaf =>
    case Node(l, d, p, r) =>
      if dev < d {
        DeleteKeys(l, dev);
      } else if dev > d {
        DeleteKeys(r, dev);
      } else if l.Node? && r.Node? {
        MinIsLeast(r);
        RemoveMinKeys(r);
      }
  }

  lemma {:induction false} DeleteBst(t: Tree, dev: Dev)
    requires Bst(t)
    ensures Bst(Delete(t, dev))
  {
    match t
    case Leaf =>
    case Node(l, d, p, r) =>
      if dev < d {
        DeleteBst(l, dev);
        DeleteKeys(l, dev);
      } else if dev > d {
        DeleteBst(r, dev);
        DeleteKeys(r, dev);
      } else if l.Node? && r.Node? {
        MinIsLeast(r);
        RemoveMinKeys(r);
        RemoveMinBst(r);
        var m := Min(r).0;
        assert forall x :: x in Keys(l) ==> x < m;
      }
  }

  lemma {:induction false} DeleteAt(t: Tree, dev: Dev, x: Dev)
    requires Bst(t) && x in Keys(t) && x != dev
    ensures x in Keys(Delete(t, dev)) && Contents(Delete(t, dev))[x] == Contents(t)[x]
  {
    DeleteKeys(t, dev);
    match t
    case Leaf =>
    case Node(l, d, p, r) =>
      NodeAt(t, x);
      if dev < d {
        DeleteKeys(l, dev);
        NodeAt(Delete(t, dev), x);
        if x in Keys(l) {
          DeleteAt(l, dev, x);
        }
      } else if dev > d {
        DeleteKeys(r, dev);
        NodeAt(Delete(t, dev), x);
        if x in Keys(r) {
          DeleteAt(r, dev, x);
        }
      } else if l.Node? && r.Node? {
        MinIsLeast(r);
        RemoveMinKeys(r);
        NodeAt(Delete(t, dev), x);
        if x in Keys(r) && x != Min(r).0 {
          RemoveMinAt(r, x);
        }
      }
  }

  /** Deleting keeps the order and removes exactly that device. */
  lemma DeleteContents(t: Tree, dev: Dev)
    requires Bst(t)
    ensures Bst(Delete(t, dev)) && Keys(Delete(t, dev)) == Keys(t) - {dev}
    ensures Contents(Delete(t, dev)) == Contents(t) - {dev}
  {
    DeleteBst(t, dev);
    DeleteKeys(t, dev);
    forall x | x in Contents(Delete(t, dev))
      ensures Contents(Delete(t, dev))[x] == (Contents(t) - {dev})[x]
    {
      DeleteAt(t, dev, x);
    }
    MapsEqual(Contents(Delete(t, dev)), Contents(t) - {dev});
  }

  /** The device of a mount-table line, as `vfs_init_partition` packs it. */
  function LineDev(l: KernelPaths.MountLine): Dev
  {
    DevNumbers.Mkdev(Wrap32(l.major) as bv32, Wrap32(l.minor) as bv32) as int
  }

  /** The table after `vfs_init_partition`: each well-formed line whose
      mount point passes is added, the first line of a device winning. */
  ghost function Initialised(m: map<Dev, string>, lines: seq<Option<KernelPaths.MountLine>>, allocOk: seq<bool>): (m': map<Dev, string>)
    requires |allocOk| == |lines|
    ensures m.Keys <= m'.Keys
    ensures forall d :: d in m ==> m'[d] == m[d]
    decreases |lines|
  {
    if lines == [] then m
    else
      var m1 := if lines[0].Some? && KernelPaths.PassPartition(lines[0].value.mp) && allocOk[0] && LineDev(lines[0].value) !in m
                then m[LineDev(lines[0].value) := lines[0].value.mp] else m;
      Initialised(m1, lines[1..], allocOk[1..])
  }

  /** The global `partitions_root`. */
  class PartitionTable {
    var root: Tree

    ghost predicate Valid()
      reads this
    {
      Bst(root)
    }

    ghost function Map(): map<Dev, string>
      reads this
    {
      Contents(root)
    }

    /** `RB_ROOT`: the empty table. */
    constructor ()
      ensures Valid() && Map() == map[]
    {
      root := Leaf;
    }

    /** `_vfs_search`: descend from the root to the node of `dev`. */
    method Search(dev: Dev) returns (found: Option<string>)
      requires Valid()
      ensures found.Some? <==> dev in Map()
      ensures found.Some? ==> found.value == Map()[dev]
    {
      var node := root;
      while node.Node?
        invariant Bst(node)
        invariant dev in Map() <==> dev in Contents(node)
        invariant dev in Contents(node) ==> Contents(node)[dev] == Map()[dev]
        decreases node
      {
        Descend(node, dev);
        if dev < node.dev {
          node := node.left;
        } else if dev > node.dev {
          node := node.right;
        } else {
          return Some(node.path);
        }
      }
      return None;
    }

    /** `vfs_add_partition`: a new device is added; a device already in
        the table keeps its path. An over-long path is only logged, and
        when the `kmalloc` of the node fails (`!allocOk`) nothing changes. */
    method Add(pathname: string, dev: Dev, allocOk: bool)
      requires Valid()
      modifies this
      ensures Valid()
      ensures Map() == if !allocOk || dev in old(Map()) then old(Map()) else old(Map())[dev := pathname]
    {
      if !allocOk {
        return;
      }
      var existing := Search(dev);
      if existing.Some? {
        return;
      }
      InsertContents(root, dev, pathname);
      root := Insert(root, dev, pathname);
    }

    /** `vfs_lookup_partition`: 1 and the path of `dev`, or 0 and the
        output buffer as it was. */
    method Lookup(dev: Dev, path: string) returns (ret: int, path': string)
      requires Valid()
      ensures ret == 1 || ret == 0
      ensures ret == 1 <==> dev in Map()
      ensures path' == if dev in Map() then Map()[dev] else path
    {
      var partition := Search(dev);
      ret, path' := 0, path;
      if partition.Some? {
        ret, path' := 1, partition.value;
      }
    }

    /** `vfs_del_partition`. */
    method Del(dev: Dev)
      requires Valid()
      modifies this
      ensures Valid()
      ensures Map() == old(Map()) - {dev}
    {
      var partition := Search(dev);
      if partition.Some? {
        DeleteContents(root, dev);
        root := Delete(root, dev);
      }
    }

    /** `vfs_clean_partition`: every node is freed and the root cleared. */
    method Clean()
      modifies this
      ensures Valid() && Map() == map[]
    {
      root := Leaf;
    }

    /** `vfs_init_partition`: a line that `sscanf` cannot read is passed
        over, and the scan goes on to the next line. `allocOk[i]` is whether
        the `kmalloc` of line `i`'s node succeeds. */
    method Init(lines: seq<Option<KernelPaths.MountLine>>, allocOk: seq<bool>)
      requires Valid() && |allocOk| == |lines|
      modifies this
      ensures Valid()
      ensures Map() == Initialised(old(Map()), lines, allocOk)
    {
      for i := 0 to |lines|
        invariant Valid()
        invariant Initialised(old(Map()), lines, allocOk) == Initialised(Map(), lines[i..], allocOk[i..])
      {
        assert lines[i..][1..] == lines[i + 1..] && allocOk[i..][1..] == allocOk[i + 1..];
        match lines[i]
        case None =>
        case Some(l) =>
          if KernelPaths.PassPartition(l.mp) {
            Add(l.mp, LineDev(l), allocOk[i]);
          }
      }
    }
  }

  /** Deleting a device just added restores the table. */
  lemma InsertThenDelete(t: Tree, dev: Dev, path: string)
    requires Bst(t) && dev !in Keys(t)
    ensures Contents(Delete(Insert(t, dev, path), dev)) == Contents(t)
  {
    InsertContents(t, dev, path);
    DeleteContents(Insert(t, dev, path), dev);
    assert Contents(t)[dev := path] - {dev} == Contents(t);
  }

  /** After initialisation the device of every passing line whose node
      was allocated is in the table. */
  lemma {:induction false} InitialisedMeaning(m: map<Dev, string>, lines: seq<Option<KernelPaths.MountLine>>, allocOk: seq<bool>, j: nat)
    requires |allocOk| == |lines|
    requires j < |lines| && lines[j].Some? && KernelPaths.PassPartition(lines[j].value.mp) && allocOk[j]
    ensures LineDev(lines[j].value) in Initialised(m, lines, allocOk)
    decreases j
  {
    var m1 := if lines[0].Some? && KernelPaths.PassPartition(lines[0].value.mp) && allocOk[0] && LineDev(lines[0].value) !in m
              then m[LineDev(lines[0].value) := lines[0].value.mp] else m;
    if j > 0 {
      assert lines[1..][j - 1] == lines[j] && allocOk[1..][j - 1] == allocOk[j];
      InitialisedMeaning(m1, lines[1..], allocOk[1..], j - 1);
    }
  }

  /** Initialisation adds no device that is not on a passing line whose
      node was allocated. */
  lemma {:induction false} InitialisedOnlyLines(m: map<Dev, string>, lines: seq<Option<KernelPaths.MountLine>>, allocOk: seq<bool>, d: Dev)
    requires |allocOk| == |lines|
    requires d in Initialised(m, lines, allocOk) && d !in m
    ensures exists j :: (0 <= j < |lines| && lines[j].Some? && KernelPaths.PassPartition(lines[j].value.mp) && allocOk[j]
                         && LineDev(lines[j].value) == d && Initialised(m, lines, allocOk)[d] == lines[j].value.mp)
    decreases |lines|
  {
    var m1 := if lines[0].Some? && KernelPaths.PassPartition(lines[0].value.mp) && allocOk[0] && LineDev(lines[0].value) !in m
              then m[LineDev(lines[0].value) := lines[0].value.mp] else m;
    if d in m1 {
      assert d == LineDev(lines[0].value);
    } else {
      InitialisedOnlyLines(m1, lines[1..], allocOk[1..], d);
      var j :| 0 <= j < |lines[1..]| && lines[1..][j].Some? && KernelPaths.PassPartition(lines[1..][j].value.mp) && allocOk[1..][j]
        && LineDev(lines[1..][j].value) == d && Initialised(m1, lines[1..], allocOk[1..])[d] == lines[1..][j].value.mp;
      assert lines[j + 1] == lines[1..][j] && allocOk[j + 1] == allocOk[1..][j];
    }
  }
}

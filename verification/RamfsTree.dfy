/** The directory tree of the RAM file system as linked lists, and what linking and unlinking a child keep (src/kernel/fs/ramfs.c:40-61). */
module RamfsTree {
  import opened Options
  import opened Links
  import opened FlatBytes
  import opened RamfsNames

  /** The nodes' fields by number, and each directory's children in order. */
  datatype Tree = Tree(
    root: nat, limit: nat, isDir: map<nat, bool>, name: map<nat, Bytes>, child: map<nat, Link>, sibling: map<nat, Link>,
    parent: map<nat, nat>, list: map<nat, seq<nat>>)

  /** d's list is in memory and in name order, of nodes whose parent is d. */
  ghost predicate DirOk(t: Tree, d: nat) {
    && d in t.list && d in t.child && IsList(t.sibling, t.child[d], t.list[d])
    && (forall i :: 0 <= i < |t.list[d]| ==> ChildOk(t, d, t.list[d][i]))
    && (forall i, j :: 0 <= i < j < |t.list[d]| ==> Before(t.name, t.list[d], i, j))
  }

  ghost predicate ChildOk(t: Tree, d: nat, c: nat) {
    c in t.isDir && c in t.name && c != t.root && c in t.parent && t.parent[c] == d
  }

  ghost predicate Before(name: map<nat, Bytes>, q: seq<nat>, i: nat, j: nat)
    requires i < |q| && j < |q|
  {
    q[i] in name && q[j] in name && Less(name[q[i]], name[q[j]])
  }

  /** Every node but the root is on its parent's list. */
  ghost predicate Placed(t: Tree, n: nat) {
    && n < t.limit && n in t.name && n in t.child
    && (n != t.root ==> n in t.parent && t.parent[n] < n && t.parent[n] in t.list && n in t.list[t.parent[n]])
  }

  ghost predicate TreeOk(t: Tree) {
    && t.root in t.isDir && t.isDir[t.root]
    && (forall d :: d in t.list <==> d in t.isDir && t.isDir[d])
    && (forall d :: d in t.list ==> DirOk(t, d))
    && (forall n :: n in t.isDir ==> Placed(t, n))
  }

  /** A directory's children are distinct and on no other list. */
  lemma Children(t: Tree, d: nat)
    requires TreeOk(t) && d in t.list
    ensures Distinct(t.list[d])
    ensures forall e, i :: e in t.list && e != d && 0 <= i < |t.list[d]| ==> t.list[d][i] !in t.list[e]
  {
    assert DirOk(t, d);
    forall i, j | 0 <= i < j < |t.list[d]|
      ensures t.list[d][i] != t.list[d][j]
    {
      assert Before(t.name, t.list[d], i, j);
      LessIrreflexive(t.name[t.list[d][i]]);
    }
    forall e, i | e in t.list && e != d && 0 <= i < |t.list[d]|
      ensures t.list[d][i] !in t.list[e]
    {
      assert DirOk(t, e) && ChildOk(t, d, t.list[d][i]);
    }
  }

  /** The tree with a new node x at place k among the children of d. */
  ghost function Linked(t: Tree, d: nat, k: nat, x: nat, nm: Bytes, dir: bool): Tree
    requires d in t.list && k <= |t.list[d]|
  {
    var q := t.list[d];
    var sib := t.sibling[x := if k < |q| then Some(q[k]) else None];
    Tree(t.root, x + 1, t.isDir[x := dir], t.name[x := nm],
         (if k == 0 then t.child[d := Some(x)] else t.child)[x := None],
         if k == 0 then sib else sib[q[k - 1] := Some(x)],
         t.parent[x := d], (if dir then t.list[x := []] else t.list)[d := q[..k] + [x] + q[k..]])
  }

  /** k is where a name goes among the children of d. */
  ghost predicate Place(t: Tree, d: nat, nm: Bytes, k: nat)
    requires d in t.list
  {
    && k <= |t.list[d]|
    && (forall i :: 0 <= i < k ==> t.list[d][i] in t.name && Less(t.name[t.list[d][i]], nm))
    && (forall i :: k <= i < |t.list[d]| ==> t.list[d][i] in t.name && Less(nm, t.name[t.list[d][i]]))
  }

  /** A fresh number is on no list. */
  lemma NewNumber(t: Tree, d: nat, x: nat)
    requires TreeOk(t) && d in t.list && t.limit <= x
    ensures x !in t.list[d] && d < x && x !in t.isDir
  {
    assert DirOk(t, d) && Placed(t, d);
    assert forall i :: 0 <= i < |t.list[d]| ==> ChildOk(t, d, t.list[d][i]) && Placed(t, t.list[d][i]);
    assert x in t.isDir ==> Placed(t, x);
  }

  lemma DirList(t: Tree, d: nat)
    requires TreeOk(t) && d in t.list
    ensures DirOk(t, d) && d in t.child && IsList(t.sibling, t.child[d], t.list[d])
  {
  }

  lemma LinkedList(t: Tree, d: nat, k: nat, x: nat, nm: Bytes, dir: bool)
    requires TreeOk(t) && d in t.list && t.limit <= x && k <= |t.list[d]|
    ensures var t' := Linked(t, d, k, x, nm, dir);
            d in t'.list && d in t'.child && IsList(t'.sibling, t'.child[d], t'.list[d])
  {
    hide TreeOk, DirOk, IsList;
    NewNumber(t, d, x);
    Children(t, d);
    DirList(t, d);
    var q := t.list[d];
    InsertedAt(t.sibling, t.child[d], q, k, x);
  }

  lemma LinkedChildren(t: Tree, d: nat, k: nat, x: nat, nm: Bytes, dir: bool)
    requires TreeOk(t) && d in t.list && t.limit <= x && k <= |t.list[d]|
    ensures var t', r := Linked(t, d, k, x, nm, dir), t.list[d][..k] + [x] + t.list[d][k..];
            forall i :: 0 <= i < |r| ==> ChildOk(t', d, r[i])
  {
    hide IsList, Less, TreeOk, Before, ChildOk, Linked;
    NewNumber(t, d, x);
    DirList(t, d);
    var t', q := Linked(t, d, k, x, nm, dir), t.list[d];
    var r := q[..k] + [x] + q[k..];
    forall i: nat | i < |r|
      ensures ChildOk(t', d, r[i])
    {
      LinkedChild(t, d, k, x, nm, dir, r[i]);
      if i != k {
        assert r[i] == q[if i < k then i else i - 1];
      }
    }
  }

  lemma LinkedChild(t: Tree, d: nat, k: nat, x: nat, nm: Bytes, dir: bool, c: nat)
    requires TreeOk(t) && d in t.list && t.limit <= x && k <= |t.list[d]|
    ensures c == x || ChildOk(t, d, c) ==> ChildOk(Linked(t, d, k, x, nm, dir), d, c)
  {
    hide IsList, Less, DirOk;
    RootOld(t);
    NewNumber(t, d, x);
  }

  lemma LinkedNames(t: Tree, d: nat, k: nat, x: nat, nm: Bytes, dir: bool)
    requires TreeOk(t) && d in t.list && t.limit <= x && Place(t, d, nm, k)
    ensures var t', r := Linked(t, d, k, x, nm, dir), t.list[d][..k] + [x] + t.list[d][k..];
            forall i, j :: 0 <= i < j < |r| ==> Before(t'.name, r, i, j)
  {
    hide IsList, Less, TreeOk, ChildOk;
    NewNumber(t, d, x);
    DirList(t, d);
    var t', q := Linked(t, d, k, x, nm, dir), t.list[d];
    var r := q[..k] + [x] + q[k..];
    forall i: nat, j: nat | i < j < |r|
      ensures Before(t'.name, r, i, j)
    {
      if i != k && j != k {
        assert Before(t.name, q, if i < k then i else i - 1, if j < k then j else j - 1);
      }
    }
  }

  lemma RootOld(t: Tree)
    requires TreeOk(t)
    ensures t.root < t.limit
  {
    assert Placed(t, t.root);
  }

  lemma LinkedDir(t: Tree, d: nat, k: nat, x: nat, nm: Bytes, dir: bool)
    requires TreeOk(t) && d in t.list && t.limit <= x && Place(t, d, nm, k)
    ensures DirOk(Linked(t, d, k, x, nm, dir), d)
  {
    hide TreeOk, IsList, ChildOk, Before;
    LinkedList(t, d, k, x, nm, dir);
    LinkedChildren(t, d, k, x, nm, dir);
    LinkedNames(t, d, k, x, nm, dir);
  }

  /** Changes to other nodes' links leave a list alone. */
  lemma LinkedElsewhere(t: Tree, d: nat, k: nat, x: nat, nm: Bytes, dir: bool, e: nat)
    requires TreeOk(t) && d in t.list && t.limit <= x && k <= |t.list[d]| && e in t.list && e != d
    ensures IsList(Linked(t, d, k, x, nm, dir).sibling, t.child[e], t.list[e]) && e != x
  {
    hide TreeOk, DirOk, IsList;
    NewNumber(t, e, x);
    Children(t, d);
    DirList(t, e);
    var q := t.list[d];
    var l: Link := if k < |q| then Some(q[k]) else None;
    Unlinked(t.sibling, t.child[e], t.list[e], x, l);
    if k > 0 {
      Unlinked(t.sibling[x := l], t.child[e], t.list[e], q[k - 1], Some(x));
    }
  }

  lemma LinkedOther(t: Tree, d: nat, k: nat, x: nat, nm: Bytes, dir: bool, e: nat)
    requires TreeOk(t) && d in t.list && t.limit <= x && k <= |t.list[d]| && e in Linked(t, d, k, x, nm, dir).list && e != d
    ensures DirOk(Linked(t, d, k, x, nm, dir), e)
  {
    NewNumber(t, d, x);
    if e == x {
      assert DirOk(Linked(t, d, k, x, nm, dir), x);
    } else {
      LinkedElsewhere(t, d, k, x, nm, dir, e);
      NewNumber(t, e, x);
      DirList(t, e);
      OtherKept(t, Linked(t, d, k, x, nm, dir), e);
    }
  }

  /** A list none of whose nodes changed name or parent is as good as before. */
  lemma OtherKept(t: Tree, t': Tree, e: nat)
    requires DirOk(t, e) && e in t'.list && t'.list[e] == t.list[e] && e in t'.child && IsList(t'.sibling, t'.child[e], t'.list[e])
    requires t'.root == t.root
    requires forall c :: c in t.list[e] && c in t.isDir && c in t.name && c in t.parent ==>
               c in t'.isDir && c in t'.name && t'.name[c] == t.name[c] && c in t'.parent && t'.parent[c] == t.parent[c]
    ensures DirOk(t', e)
  {
    hide IsList, Less;
    forall i: nat | i < |t.list[e]|
      ensures ChildOk(t', e, t.list[e][i])
    {
      assert ChildOk(t, e, t.list[e][i]) && t.list[e][i] in t.list[e];
    }
    forall i: nat, j: nat | i < j < |t.list[e]|
      ensures Before(t'.name, t.list[e], i, j)
    {
      assert Before(t.name, t.list[e], i, j) && ChildOk(t, e, t.list[e][i]) && ChildOk(t, e, t.list[e][j]);
      assert t.list[e][i] in t.list[e] && t.list[e][j] in t.list[e];
    }
  }

  lemma Unlinked(next: map<nat, Link>, head: Link, q: seq<nat>, x: nat, l: Link)
    requires IsList(next, head, q) && x !in q
    ensures IsList(next[x := l], head, q)
  {
    var n := next[x := l];
    forall i: nat | i < |q|
      ensures LinkOk(n, q, i)
    {
      assert LinkOk(next, q, i);
    }
  }

  /** ramfs_child_link keeps the tree. */
  lemma LinkKeeps(t: Tree, d: nat, k: nat, x: nat, nm: Bytes, dir: bool)
    requires TreeOk(t) && d in t.list && t.limit <= x && Place(t, d, nm, k)
    ensures TreeOk(Linked(t, d, k, x, nm, dir))
  {
    hide DirOk, Placed, Less;
    var t', q := Linked(t, d, k, x, nm, dir), t.list[d];
    NewNumber(t, d, x);
    forall e | e in t'.list
      ensures DirOk(t', e)
    {
      if e == d {
        LinkedDir(t, d, k, x, nm, dir);
      } else {
        LinkedOther(t, d, k, x, nm, dir, e);
      }
    }
    forall n | n in t'.isDir
      ensures Placed(t', n)
    {
      LinkedPlaced(t, d, k, x, nm, dir, n);
    }
  }

  lemma LinkedPlaced(t: Tree, d: nat, k: nat, x: nat, nm: Bytes, dir: bool, n: nat)
    requires TreeOk(t) && d in t.list && t.limit <= x && k <= |t.list[d]| && (n in t.isDir || n == x)
    ensures Placed(Linked(t, d, k, x, nm, dir), n)
  {
    hide DirOk;
    NewNumber(t, d, x);
    InInserted(t.list[d], k, x, n);
    assert n in t.isDir ==> Placed(t, n);
  }

  lemma InInserted(q: seq<nat>, k: nat, x: nat, n: nat)
    requires k <= |q|
    ensures n in q || n == x <==> n in q[..k] + [x] + q[k..]
  {
    assert q == q[..k] + q[k..];
  }

  /** The tree without node x, the k-th child of d, which has no children. */
  ghost function Cut(t: Tree, d: nat, k: nat): Tree
    requires d in t.list && k < |t.list[d]| && t.list[d][k] in t.sibling
  {
    var q := t.list[d];
    var x := q[k];
    var sib := (if k == 0 then t.sibling else t.sibling[q[k - 1] := t.sibling[x]])[x := None];
    Tree(t.root, t.limit, t.isDir - {x}, t.name, if k == 0 then t.child[d := t.sibling[x]] else t.child, sib,
         t.parent, (t.list - {x})[d := q[..k] + q[k + 1..]])
  }

  lemma CutKnown(t: Tree, d: nat, k: nat)
    requires TreeOk(t) && d in t.list && k < |t.list[d]|
    ensures var x := t.list[d][k]; x in t.sibling && x in t.isDir && x != t.root && d < x && x in t.parent && t.parent[x] == d
  {
    assert DirOk(t, d) && ChildOk(t, d, t.list[d][k]) && LinkOk(t.sibling, t.list[d], k) && Placed(t, t.list[d][k]);
  }

  lemma CutList(t: Tree, d: nat, k: nat)
    requires TreeOk(t) && d in t.list && k < |t.list[d]| && t.list[d][k] in t.sibling
    ensures var t' := Cut(t, d, k);
            d in t'.list && d in t'.child && IsList(t'.sibling, t'.child[d], t'.list[d])
  {
    hide TreeOk, DirOk, IsList;
    Children(t, d);
    DirList(t, d);
    LinkPast(t.sibling, t.child[d], t.list[d], k);
  }

  lemma CutDir(t: Tree, d: nat, k: nat)
    requires TreeOk(t) && d in t.list && k < |t.list[d]| && t.list[d][k] in t.sibling
    ensures DirOk(Cut(t, d, k), d)
  {
    hide TreeOk, IsList, ChildOk, Before;
    CutList(t, d, k);
    CutChildren(t, d, k);
    CutNames(t, d, k);
  }

  lemma CutChildren(t: Tree, d: nat, k: nat)
    requires TreeOk(t) && d in t.list && k < |t.list[d]| && t.list[d][k] in t.sibling
    ensures var t', r := Cut(t, d, k), t.list[d][..k] + t.list[d][k + 1..];
            forall i :: 0 <= i < |r| ==> ChildOk(t', d, r[i])
  {
    hide IsList, Less, TreeOk, Before;
    Children(t, d);
    DirList(t, d);
    var t', q := Cut(t, d, k), t.list[d];
    var r := q[..k] + q[k + 1..];
    forall i: nat | i < |r|
      ensures ChildOk(t', d, r[i])
    {
      assert ChildOk(t, d, q[if i < k then i else i + 1]);
    }
  }

  lemma CutNames(t: Tree, d: nat, k: nat)
    requires TreeOk(t) && d in t.list && k < |t.list[d]|
    ensures var r := t.list[d][..k] + t.list[d][k + 1..];
            forall i, j :: 0 <= i < j < |r| ==> Before(t.name, r, i, j)
  {
    hide IsList, Less, TreeOk, ChildOk;
    DirList(t, d);
    var q := t.list[d];
    var r := q[..k] + q[k + 1..];
    forall i: nat, j: nat | i < j < |r|
      ensures Before(t.name, r, i, j)
    {
      assert Before(t.name, q, if i < k then i else i + 1, if j < k then j else j + 1);
    }
  }

  lemma CutOther(t: Tree, d: nat, k: nat, e: nat)
    requires TreeOk(t) && d in t.list && k < |t.list[d]| && t.list[d][k] in t.sibling && e in t.list && e != d && e != t.list[d][k]
    ensures DirOk(Cut(t, d, k), e)
  {
    hide TreeOk, IsList;
    Children(t, d);
    DirList(t, e);
    var q := t.list[d];
    if k > 0 {
      Unlinked(t.sibling, t.child[e], t.list[e], q[k - 1], t.sibling[q[k]]);
      Unlinked(t.sibling[q[k - 1] := t.sibling[q[k]]], t.child[e], t.list[e], q[k], None);
    } else {
      Unlinked(t.sibling, t.child[e], t.list[e], q[k], None);
    }
    OtherKept(t, Cut(t, d, k), e);
  }

  /** ramfs_child_unlink of a node without children keeps the tree. */
  lemma CutKeeps(t: Tree, d: nat, k: nat)
    requires TreeOk(t) && d in t.list && k < |t.list[d]| && t.list[d][k] in t.sibling
    requires t.list[d][k] in t.list ==> t.list[t.list[d][k]] == []
    ensures TreeOk(Cut(t, d, k))
  {
    hide DirOk, Placed;
    var t', q, x := Cut(t, d, k), t.list[d], t.list[d][k];
    CutKnown(t, d, k);
    forall e | e in t'.list
      ensures DirOk(t', e)
    {
      if e == d {
        CutDir(t, d, k);
      } else {
        CutOther(t, d, k, e);
      }
    }
    forall n | n in t'.isDir
      ensures Placed(t', n)
    {
      CutPlaced(t, d, k, n);
    }
  }

  lemma CutPlaced(t: Tree, d: nat, k: nat, n: nat)
    requires TreeOk(t) && d in t.list && k < |t.list[d]| && t.list[d][k] in t.sibling && n in t.isDir && n != t.list[d][k]
    requires t.list[d][k] in t.list ==> t.list[t.list[d][k]] == []
    ensures Placed(Cut(t, d, k), n)
  {
    hide DirOk;
    assert Placed(t, n);
    if n != t.root && t.parent[n] == d {
      InCut(t.list[d], k, n);
    }
  }

  lemma InCut(q: seq<nat>, k: nat, n: nat)
    requires k < |q| && n in q && n != q[k]
    ensures n in q[..k] + q[k + 1..]
  {
    assert q == q[..k] + [q[k]] + q[k + 1..];
  }

  // ----- What a scan of a directory can rely on -----

  /** In a sorted list a later node has the greater name. */
  lemma Later(t: Tree, d: nat, i: nat, j: nat)
    requires TreeOk(t) && d in t.list && i < |t.list[d]| && j < |t.list[d]|
    ensures t.list[d][i] in t.name && t.list[d][j] in t.name
    ensures i < j <==> Less(t.name[t.list[d][i]], t.name[t.list[d][j]])
  {
    hide IsList, Less, TreeOk;
    DirList(t, d);
    var q := t.list[d];
    assert ChildOk(t, d, q[i]) && ChildOk(t, d, q[j]);
    LessIrreflexive(t.name[q[i]]);
    if i < j {
      assert Before(t.name, q, i, j);
    } else if j < i {
      assert Before(t.name, q, j, i);
      if Less(t.name[q[i]], t.name[q[j]]) {
        LessTransitive(t.name[q[i]], t.name[q[j]], t.name[q[i]]);
      }
    }
  }

  // ----- What a directory says -----

  /** Directory d has an entry of that name, and it is node c. */
  ghost predicate Entry(t: Tree, d: nat, nm: Bytes, c: nat) {
    d in t.list && c in t.list[d] && c in t.name && t.name[c] == nm
  }

  /** A name is that of one node at most. */
  lemma OneEntry(t: Tree, d: nat, nm: Bytes, c: nat, e: nat)
    requires TreeOk(t) && Entry(t, d, nm, c) && Entry(t, d, nm, e)
    ensures c == e
  {
    hide IsList, Less;
    var i :| 0 <= i < |t.list[d]| && t.list[d][i] == c;
    var j :| 0 <= j < |t.list[d]| && t.list[d][j] == e;
    Later(t, d, i, j);
    Later(t, d, j, i);
    LessIrreflexive(nm);
  }

  lemma KnownEntry(t: Tree, d: nat, nm: Bytes, c: nat)
    requires TreeOk(t) && Entry(t, d, nm, c)
    ensures c < t.limit && c in t.isDir && c != t.root
  {
    hide IsList, Less;
    var i :| 0 <= i < |t.list[d]| && t.list[d][i] == c;
    assert DirOk(t, d) && ChildOk(t, d, t.list[d][i]);
    assert Placed(t, c);
  }

  /** A create adds one entry, and every other name stands for the node it stood for. */
  lemma LinkedEntry(t: Tree, d: nat, k: nat, nm: Bytes, dir: bool, d': nat, nm': Bytes, c: nat)
    requires TreeOk(t) && d in t.list && k <= |t.list[d]|
    ensures Entry(Linked(t, d, k, t.limit, nm, dir), d', nm', c)
            <==> Entry(t, d', nm', c) || (d' == d && nm' == nm && c == t.limit)
  {
    hide IsList, Less;
    var x, q := t.limit, t.list[d];
    var t' := Linked(t, d, k, x, nm, dir);
    assert Placed(t, d);
    assert t'.list[d] == q[..k] + [x] + q[k..];
    assert c in q <==> c in q[..k] || c in q[k..] by {
      assert q == q[..k] + q[k..];
    }
    if Entry(t, d', nm', c) {
      KnownEntry(t, d', nm', c);
      assert Placed(t, d');
    }
    if d' in t.list && c in t.list[d'] {
      var i :| 0 <= i < |t.list[d']| && t.list[d'][i] == c;
      assert DirOk(t, d') && ChildOk(t, d', t.list[d'][i]);
      assert Placed(t, c);
    }
  }

  lemma LinkedEntries(t: Tree, d: nat, k: nat, nm: Bytes, dir: bool)
    requires TreeOk(t) && d in t.list && k <= |t.list[d]|
    ensures forall d': nat, n, c: nat :: Entry(Linked(t, d, k, t.limit, nm, dir), d', n, c)
                                         <==> Entry(t, d', n, c) || (d' == d && n == nm && c == t.limit)
  {
    forall d': nat, n, c: nat
      ensures Entry(Linked(t, d, k, t.limit, nm, dir), d', n, c) <==> Entry(t, d', n, c) || (d' == d && n == nm && c == t.limit)
    {
      LinkedEntry(t, d, k, nm, dir, d', n, c);
    }
  }

  lemma CutEntries(t: Tree, d: nat, k: nat)
    requires TreeOk(t) && d in t.list && k < |t.list[d]| && t.list[d][k] in t.sibling
    requires t.list[d][k] in t.list ==> t.list[t.list[d][k]] == []
    ensures forall d': nat, n, c: nat :: Entry(Cut(t, d, k), d', n, c) <==> Entry(t, d', n, c) && c != t.list[d][k]
  {
    forall d': nat, n, c: nat
      ensures Entry(Cut(t, d, k), d', n, c) <==> Entry(t, d', n, c) && c != t.list[d][k]
    {
      CutEntry(t, d, k, d', n, c);
    }
  }

  /** A removal takes one entry away, and every other name stands for the node it stood for. */
  lemma CutEntry(t: Tree, d: nat, k: nat, d': nat, nm': Bytes, c: nat)
    requires TreeOk(t) && d in t.list && k < |t.list[d]| && t.list[d][k] in t.sibling
    requires t.list[d][k] in t.list ==> t.list[t.list[d][k]] == []
    ensures Entry(Cut(t, d, k), d', nm', c) <==> Entry(t, d', nm', c) && c != t.list[d][k]
  {
    var x, q := t.list[d][k], t.list[d];
    Children(t, d);
    NotOwnChild(t, d, k);
    hide TreeOk;
    WithoutIt(q, k, c);
  }

  lemma NotOwnChild(t: Tree, d: nat, k: nat)
    requires TreeOk(t) && d in t.list && k < |t.list[d]|
    ensures t.list[d][k] != d
  {
    assert DirOk(t, d) && ChildOk(t, d, t.list[d][k]);
    assert Placed(t, t.list[d][k]);
  }

  lemma WithoutIt(q: seq<nat>, k: nat, c: nat)
    requires Distinct(q) && k < |q|
    ensures c in q[..k] + q[k + 1..] <==> c in q && c != q[k]
  {
    assert q == q[..k] + [q[k]] + q[k + 1..];
  }
}

/**
 Handles, reference counts and directory scans of the RAM file system, and what
 each operation keeps of them (src/kernel/fs/ramfs.c:203-250, 366-470).
 */
module RamfsScan {
  import opened Options
  import opened Links
  import opened FlatBytes
  import opened RamfsNames
  import opened RamfsTree

  /** Open files and directories by handle, and the entry each directory handle returned last. */
  datatype Handles = Handles(fileOf: map<nat, nat>, dirOf: map<nat, nat>, cursor: map<nat, nat>)

  /** How many handles and cursors stand for node n. */
  ghost function Uses(h: Handles, n: nat): nat {
    Users(h.fileOf, n) + Users(h.dirOf, n) + Users(h.cursor, n)
  }

  ghost predicate HandlesOk(t: Tree, h: Handles) {
    && (forall f :: f in h.fileOf ==> h.fileOf[f] in t.isDir)
    && (forall d :: d in h.dirOf ==> h.dirOf[d] in t.isDir && h.dirOf[d] in t.list)
    && (forall d :: d in h.cursor ==> CursorOk(t, h, d))
  }

  ghost predicate CursorOk(t: Tree, h: Handles, d: nat)
    requires d in h.cursor
  {
    d in h.dirOf && h.dirOf[d] in t.list && h.cursor[d] in t.list[h.dirOf[d]] && h.cursor[d] in t.isDir && h.cursor[d] in t.name
  }

  ghost predicate Counted(t: Tree, h: Handles, refs: map<nat, int>) {
    forall n :: n in t.isDir ==> n in refs && refs[n] == Uses(h, n)
  }

  /**
   A scan has returned rising names, the last being the cursor's; of the entries
   that were there all along it has returned each whose name is not above that.
   */
  ghost predicate ScanOk(t: Tree, h: Handles, d: nat, seen: seq<Bytes>, since: set<nat>)
    requires d in h.dirOf
  {
    && h.dirOf[d] in t.list && Rising(seen)
    && (d in h.cursor <==> seen != [])
    && (d in h.cursor ==> h.cursor[d] in t.name && seen[|seen| - 1] == t.name[h.cursor[d]])
    && (forall x :: x in since ==> x in t.list[h.dirOf[d]] && x in t.name)
    && (forall x :: x in since && x in t.name && d in h.cursor && h.cursor[d] in t.name ==>
          Less(t.name[h.cursor[d]], t.name[x]) || t.name[x] in seen)
  }

  // ----- A node added -----

  lemma AddedHandles(t: Tree, d: nat, k: nat, x: nat, nm: Bytes, dir: bool, h: Handles, refs: map<nat, int>)
    requires TreeOk(t) && d in t.list && t.limit <= x && k <= |t.list[d]| && HandlesOk(t, h) && Counted(t, h, refs)
    ensures HandlesOk(Linked(t, d, k, x, nm, dir), h) && Counted(Linked(t, d, k, x, nm, dir), h, refs[x := 0])
  {
    hide DirOk, Users, Placed;
    NewNumber(t, d, x);
    NoUsers(h.fileOf, x);
    NoUsers(h.dirOf, x);
    NoUsers(h.cursor, x);
    var t' := Linked(t, d, k, x, nm, dir);
    forall e | e in h.cursor
      ensures CursorOk(t', h, e)
    {
      assert CursorOk(t, h, e);
      InInserted(t.list[d], k, x, h.cursor[e]);
    }
  }

  lemma AddedScan(t: Tree, d: nat, k: nat, x: nat, nm: Bytes, dir: bool, h: Handles, e: nat, seen: seq<Bytes>, since: set<nat>)
    requires TreeOk(t) && d in t.list && t.limit <= x && k <= |t.list[d]| && HandlesOk(t, h) && e in h.dirOf && ScanOk(t, h, e, seen, since)
    ensures ScanOk(Linked(t, d, k, x, nm, dir), h, e, seen, since)
  {
    hide DirOk, Less, Rising, TreeOk;
    NewNumber(t, d, x);
    NewNumber(t, h.dirOf[e], x);
    var t' := Linked(t, d, k, x, nm, dir);
    assert e in h.cursor ==> CursorOk(t, h, e);
    forall y | y in since
      ensures y in t'.list[h.dirOf[e]]
    {
      InInserted(t.list[d], k, x, y);
    }
    assert x !in since && (e in h.cursor ==> h.cursor[e] != x);
  }

  // ----- A node removed -----

  lemma CutHandles(t: Tree, d: nat, k: nat, h: Handles, refs: map<nat, int>)
    requires TreeOk(t) && d in t.list && k < |t.list[d]| && t.list[d][k] in t.sibling && HandlesOk(t, h) && Counted(t, h, refs)
    requires t.list[d][k] in t.isDir && refs[t.list[d][k]] == 0
    ensures HandlesOk(Cut(t, d, k), h) && Counted(Cut(t, d, k), h, refs)
    ensures forall e :: e in h.cursor ==> h.cursor[e] != t.list[d][k]
    ensures forall e :: e in h.dirOf ==> h.dirOf[e] != t.list[d][k]
  {
    hide DirOk, Users, Placed;
    var x := t.list[d][k];
    NoUsers(h.fileOf, x);
    NoUsers(h.dirOf, x);
    NoUsers(h.cursor, x);
    CutKnown(t, d, k);
    var t' := Cut(t, d, k);
    forall e | e in h.cursor
      ensures CursorOk(t', h, e)
    {
      assert CursorOk(t, h, e);
      if h.dirOf[e] == d {
        InCut(t.list[d], k, h.cursor[e]);
      }
    }
  }

  lemma CutScan(t: Tree, d: nat, k: nat, h: Handles, e: nat, seen: seq<Bytes>, since: set<nat>)
    requires TreeOk(t) && d in t.list && k < |t.list[d]| && t.list[d][k] in t.sibling && e in h.dirOf && ScanOk(t, h, e, seen, since)
    requires h.dirOf[e] != t.list[d][k]
    ensures ScanOk(Cut(t, d, k), h, e, seen, since - {t.list[d][k]})
  {
    hide DirOk, Less, Rising, TreeOk;
    CutKnown(t, d, k);
    var t' := Cut(t, d, k);
    forall y | y in since && y != t.list[d][k]
      ensures y in t'.list[h.dirOf[e]]
    {
      if h.dirOf[e] == d {
        InCut(t.list[d], k, y);
      }
    }
  }

  // ----- Handles opened and closed -----

  lemma FileOpened(t: Tree, h: Handles, refs: map<nat, int>, f: nat, n: nat)
    requires HandlesOk(t, h) && Counted(t, h, refs) && f !in h.fileOf && n in t.isDir
    ensures HandlesOk(t, h.(fileOf := h.fileOf[f := n])) && Counted(t, h.(fileOf := h.fileOf[f := n]), refs[n := refs[n] + 1])
  {
    hide Users, TreeOk;
    var h' := h.(fileOf := h.fileOf[f := n]);
    forall m | m in t.isDir
      ensures Uses(h', m) == Uses(h, m) + if m == n then 1 else 0
    {
      UserAdded(h.fileOf, f, n, m);
    }
    assert forall e :: e in h.cursor ==> CursorOk(t, h, e) && CursorOk(t, h', e);
  }

  lemma FileClosed(t: Tree, h: Handles, refs: map<nat, int>, f: nat)
    requires HandlesOk(t, h) && Counted(t, h, refs) && f in h.fileOf
    ensures var n, h' := h.fileOf[f], h.(fileOf := h.fileOf - {f});
            n in refs && HandlesOk(t, h') && Counted(t, h', refs[n := refs[n] - 1])
  {
    hide Users, TreeOk;
    var h' := h.(fileOf := h.fileOf - {f});
    forall m | m in t.isDir
      ensures Uses(h', m) + (if m == h.fileOf[f] then 1 else 0) == Uses(h, m)
    {
      UserGone(h.fileOf, f, m);
    }
    assert forall e :: e in h.cursor ==> CursorOk(t, h, e) && CursorOk(t, h', e);
  }

  lemma DirOpened(t: Tree, h: Handles, refs: map<nat, int>, d: nat, n: nat)
    requires HandlesOk(t, h) && Counted(t, h, refs) && d !in h.dirOf && n in t.isDir && n in t.list
    ensures var h' := h.(dirOf := h.dirOf[d := n]);
            n in refs && HandlesOk(t, h') && Counted(t, h', refs[n := refs[n] + 1]) && d !in h.cursor
  {
    hide Users, TreeOk;
    var h' := h.(dirOf := h.dirOf[d := n]);
    forall m | m in t.isDir
      ensures Uses(h', m) == Uses(h, m) + if m == n then 1 else 0
    {
      UserAdded(h.dirOf, d, n, m);
    }
    assert forall e :: e in h.cursor ==> CursorOk(t, h, e) && CursorOk(t, h', e);
    assert d in h.cursor ==> CursorOk(t, h, d);
  }

  /** The counts after a directory handle and its cursor are gone. */
  function ClosedRefs(h: Handles, refs: map<nat, int>, d: nat): map<nat, int>
    requires d in h.dirOf && h.dirOf[d] in refs && (d in h.cursor ==> h.cursor[d] in refs)
  {
    var r := if d in h.cursor then refs[h.cursor[d] := refs[h.cursor[d]] - 1] else refs;
    r[h.dirOf[d] := r[h.dirOf[d]] - 1]
  }

  lemma DirClosed(t: Tree, h: Handles, refs: map<nat, int>, d: nat)
    requires HandlesOk(t, h) && Counted(t, h, refs) && d in h.dirOf
    ensures h.dirOf[d] in refs && (d in h.cursor ==> h.cursor[d] in refs)
    ensures var h' := h.(dirOf := h.dirOf - {d}, cursor := h.cursor - {d});
            HandlesOk(t, h') && Counted(t, h', ClosedRefs(h, refs, d))
  {
    hide Uses, TreeOk;
    var h' := h.(dirOf := h.dirOf - {d}, cursor := h.cursor - {d});
    assert d in h.cursor ==> CursorOk(t, h, d);
    forall m | m in t.isDir
      ensures Uses(h', m) + (if m == h.dirOf[d] then 1 else 0) + (if d in h.cursor && m == h.cursor[d] then 1 else 0) == Uses(h, m)
    {
      ClosedUses(h, d, m);
    }
    assert forall e :: e in h'.cursor ==> CursorOk(t, h, e) && CursorOk(t, h', e);
  }

  lemma ClosedUses(h: Handles, d: nat, m: nat)
    requires d in h.dirOf
    ensures var h' := h.(dirOf := h.dirOf - {d}, cursor := h.cursor - {d});
            Uses(h', m) + (if m == h.dirOf[d] then 1 else 0) + (if d in h.cursor && m == h.cursor[d] then 1 else 0) == Uses(h, m)
  {
    hide Users;
    UserGone(h.dirOf, d, m);
    if d in h.cursor {
      UserGone(h.cursor, d, m);
    } else {
      assert h.cursor - {d} == h.cursor;
    }
  }

  /** A scan whose handle is not touched. */
  lemma ScanKept(t: Tree, h: Handles, h': Handles, e: nat, seen: seq<Bytes>, since: set<nat>)
    requires e in h.dirOf && ScanOk(t, h, e, seen, since) && e in h'.dirOf && h'.dirOf[e] == h.dirOf[e]
    requires (e in h'.cursor <==> e in h.cursor) && (e in h.cursor ==> h'.cursor[e] == h.cursor[e])
    ensures ScanOk(t, h', e, seen, since)
  {
    hide Less, Rising;
  }

  lemma ScanStarts(t: Tree, h: Handles, d: nat, n: nat)
    requires TreeOk(t) && HandlesOk(t, h) && d in h.dirOf && h.dirOf[d] == n && d !in h.cursor
    ensures ScanOk(t, h, d, [], set x | x in t.list[n])
  {
    hide Less;
    DirList(t, n);
    assert forall i :: 0 <= i < |t.list[n]| ==> ChildOk(t, n, t.list[n][i]);
  }

  // ----- readdir -----

  /** The index of the cursor in the list, -1 before the first call. */
  ghost predicate CursorAt(t: Tree, h: Handles, d: nat, i: int)
    requires d in h.dirOf && h.dirOf[d] in t.list
  {
    -1 <= i < |t.list[h.dirOf[d]]| && (if i < 0 then d !in h.cursor else d in h.cursor && h.cursor[d] == t.list[h.dirOf[d]][i])
  }

  /** The cursor moves to the next entry: its name is above all returned, and nothing is skipped. */
  lemma ScanMoves(t: Tree, h: Handles, d: nat, i: int, seen: seq<Bytes>, since: set<nat>)
    requires TreeOk(t) && HandlesOk(t, h) && d in h.dirOf && ScanOk(t, h, d, seen, since) && CursorAt(t, h, d, i)
    requires i + 1 < |t.list[h.dirOf[d]]|
    ensures var y := t.list[h.dirOf[d]][i + 1];
            y in t.name && ScanOk(t, h.(cursor := h.cursor[d := y]), d, seen + [t.name[y]], since)
  {
    hide Less, TreeOk;
    var n := h.dirOf[d];
    var q := t.list[n];
    var y := q[i + 1];
    Later(t, n, i + 1, i + 1);
    if i >= 0 {
      Later(t, n, i, i + 1);
      RisingMore(seen, t.name[y]);
    }
    forall x | x in since && !Less(t.name[y], t.name[x])
      ensures t.name[x] in seen + [t.name[y]]
    {
      var j :| 0 <= j < |q| && q[j] == x;
      Later(t, n, i + 1, j);
      if j <= i {
        Later(t, n, i, j);
      }
    }
  }

  lemma RisingMore(seen: seq<Bytes>, nm: Bytes)
    requires Rising(seen) && (seen != [] ==> Less(seen[|seen| - 1], nm))
    ensures Rising(seen + [nm])
  {
    hide Less;
    forall i | 0 <= i < |seen|
      ensures Less(seen[i], nm)
    {
      if i < |seen| - 1 {
        LessTransitive(seen[i], seen[|seen| - 1], nm);
      }
    }
  }

  /** At the end of the list every entry that was there all along has been returned. */
  lemma ScanEnds(t: Tree, h: Handles, d: nat, i: int, seen: seq<Bytes>, since: set<nat>)
    requires TreeOk(t) && HandlesOk(t, h) && d in h.dirOf && ScanOk(t, h, d, seen, since) && CursorAt(t, h, d, i)
    requires i + 1 == |t.list[h.dirOf[d]]|
    ensures forall x :: x in since ==> x in t.name && t.name[x] in seen
  {
    hide Less, TreeOk;
    var n := h.dirOf[d];
    var q := t.list[n];
    forall x | x in since
      ensures t.name[x] in seen
    {
      var j :| 0 <= j < |q| && q[j] == x;
      Later(t, n, i, j);
    }
  }

  lemma CursorMoved(t: Tree, h: Handles, refs: map<nat, int>, d: nat, y: nat)
    requires HandlesOk(t, h) && Counted(t, h, refs) && d in h.dirOf && y in t.isDir && y in t.name && y in t.list[h.dirOf[d]]
    requires d in h.cursor ==> h.cursor[d] in t.isDir
    ensures y in refs && (d in h.cursor ==> h.cursor[d] in refs)
    ensures var h' := h.(cursor := h.cursor[d := y]);
            var up := refs[y := refs[y] + 1];
            HandlesOk(t, h') && Counted(t, h', if d in h.cursor then up[h.cursor[d] := up[h.cursor[d]] - 1] else up)
  {
    hide Users, TreeOk;
    var h' := h.(cursor := h.cursor[d := y]);
    forall m | m in t.isDir
      ensures Uses(h', m) + (if d in h.cursor && m == h.cursor[d] then 1 else 0) == Uses(h, m) + if m == y then 1 else 0
    {
      if d in h.cursor {
        UserMoved(h.cursor, d, y, m);
      } else {
        UserAdded(h.cursor, d, y, m);
      }
    }
    forall e | e in h'.cursor
      ensures CursorOk(t, h', e)
    {
      assert e != d ==> CursorOk(t, h, e);
    }
  }
}

/**
 The RAM file system's operations on their linked nodes: creating and removing,
 open handles, directory scans under concurrent changes, and files as byte
 sequences (src/kernel/fs/ramfs.c:40-61, 102-150, 203-304, 366-470).
 */
module Ramfs {
  import opened Errors
  import opened Options
  import opened Links
  import opened FlatBytes
  import opened RamfsNames
  import opened RamfsTree
  import opened RamfsScan

  const NAME_MAX := 64
  const DEF_CAP := 512

  class Ramfs {
    // Whether kmalloc never fails.
    const plenty: bool
    // The nodes' fields by node number; a number is not used twice.
    var limit: nat
    var isDir: map<nat, bool>
    var name: map<nat, Bytes>
    var child: map<nat, Link>
    var sibling: map<nat, Link>
    var parent: map<nat, nat>
    var refs: map<nat, int>
    var data: map<nat, Bytes>
    var size: map<nat, nat>
    // The open files' nodes and positions; the open directories' nodes and the entries returned last.
    var fileOf: map<nat, nat>
    var filePos: map<nat, nat>
    var dirOf: map<nat, nat>
    var cursor: map<nat, nat>
    /** The tree and the handles these fields hold. */
    ghost var t: Tree
    ghost var h: Handles
    /** What each directory handle has returned, and the entries there ever since it was opened. */
    ghost var seen: map<nat, seq<Bytes>>
    ghost var since: map<nat, set<nat>>

    ghost predicate Nodes()
      reads this`limit, this`isDir, this`name, this`child, this`sibling, this`parent, this`t
    {
      && t.root == 0 && t.limit == limit && t.isDir == isDir && t.name == name
      && t.child == child && t.sibling == sibling && t.parent == parent && TreeOk(t)
    }

    ghost predicate Uses()
      reads this`refs, this`fileOf, this`filePos, this`dirOf, this`cursor, this`t, this`h
    {
      && h.fileOf == fileOf && h.dirOf == dirOf && h.cursor == cursor
      && HandlesOk(t, h) && Counted(t, h, refs) && fileOf.Keys <= filePos.Keys
    }

    ghost predicate Scans()
      reads this`t, this`h, this`seen, this`since
    {
      AllScans(t, h, seen, since)
    }

    ghost predicate Files()
      reads this`t, this`data, this`size
    {
      AllFiles(t, data, size)
    }

    ghost predicate Valid()
      reads this
    {
      Nodes() && Uses() && Scans() && Files()
    }

    /** A file's bytes. */
    ghost function Contents(n: nat): Bytes
      reads this`data, this`size
    {
      if n in data && n in size && size[n] <= |data[n]| then data[n][..size[n]] else []
    }

    /** ramfs_mount. */
    constructor (plenty: bool)
      ensures this.plenty == plenty && Valid() && t == OnlyRoot() && h == Handles(map[], map[], map[])
    {
      hide TreeOk, HandlesOk, Counted;
      this.plenty := plenty;
      limit := 1;
      isDir, name, child, sibling, parent := map[0 := true], map[0 := []], map[0 := None], map[], map[];
      refs, data, size := map[0 := 0], map[], map[0 := 0];
      fileOf, filePos, dirOf, cursor := map[], map[], map[], map[];
      t, h, seen, since := OnlyRoot(), Handles(map[], map[], map[]), map[], map[];
      new;
      RootOk();
    }

    // ----- Child lists -----

    /** ramfs_child_find in a directory whose list is q. */
    method ChildFind(d: nat, leaf: Bytes, ghost q: seq<nat>) returns (c: Link)
      requires d in child && IsList(sibling, child[d], q) && forall i :: 0 <= i < |q| ==> q[i] in name
      ensures c.Some? ==> c.value in q && name[c.value] == leaf
      ensures c == None ==> forall i :: 0 <= i < |q| ==> name[q[i]] != leaf
    {
      hide IsList;
      c := child[d];
      ghost var i := 0;
      Points(sibling, child[d], q, 0);
      while c.Some?
        invariant 0 <= i <= |q| && c == (if i < |q| then Some(q[i]) else None)
        invariant forall j :: 0 <= j < i ==> name[q[j]] != leaf
        decreases |q| - i
      {
        if name[c.value] == leaf {
          return;
        }
        Points(sibling, child[d], q, i + 1);
        c := sibling[c.value];
        i := i + 1;
      }
    }

    /** The search of ramfs_child_link: the name's place in the sorted list q. */
    method FindPlace(d: nat, leaf: Bytes, ghost q: seq<nat>) returns (prev: Link, next: Link, ghost k: nat)
      requires d in child && IsList(sibling, child[d], q) && forall i :: 0 <= i < |q| ==> q[i] in name && name[q[i]] != leaf
      requires forall i, j :: 0 <= i < j < |q| ==> Before(name, q, i, j)
      ensures k <= |q| && (forall i :: 0 <= i < k ==> Less(name[q[i]], leaf)) && (forall i :: k <= i < |q| ==> Less(leaf, name[q[i]]))
      ensures next == (if k < |q| then Some(q[k]) else None) && prev == if k == 0 then None else Some(q[k - 1])
    {
      hide IsList, Less;
      prev, next, k := None, child[d], 0;
      Points(sibling, child[d], q, 0);
      while next.Some? && Less(name[next.value], leaf)
        invariant k <= |q| && next == (if k < |q| then Some(q[k]) else None)
        invariant prev == if k == 0 then None else Some(q[k - 1])
        invariant forall j :: 0 <= j < k ==> Less(name[q[j]], leaf)
        decreases |q| - k
      {
        Points(sibling, child[d], q, k + 1);
        prev := next;
        next := sibling[next.value];
        k := k + 1;
      }
      forall i | k <= i < |q|
        ensures Less(leaf, name[q[i]])
      {
        LessTotal(leaf, name[q[k]]);
        if k < i {
          assert Before(name, q, k, i);
          LessTransitive(leaf, name[q[k]], name[q[i]]);
        }
      }
    }

    /** ramfs_child_link's pointer changes for a new node x between prev and next. */
    method LinkChild(d: nat, x: nat, prev: Link, next: Link, ghost q: seq<nat>, ghost k: nat)
      requires k <= |q| && prev == if k == 0 then None else Some(q[k - 1])
      modifies this`child, this`sibling
      ensures child == (if k == 0 then old(child)[d := Some(x)] else old(child))[x := None]
      ensures sibling == if k == 0 then old(sibling)[x := next] else old(sibling)[x := next][q[k - 1] := Some(x)]
    {
      sibling := sibling[x := next];
      if prev == None {
        child := child[d := Some(x)];
      } else {
        sibling := sibling[prev.value := Some(x)];
      }
      child := child[x := None];
    }

    /** ramfs_child_unlink's pointer changes in a directory whose list is q. */
    method UnlinkChild(d: nat, x: nat, ghost q: seq<nat>, ghost k: nat)
      requires d in child && IsList(sibling, child[d], q) && Distinct(q) && k < |q| && q[k] == x
      modifies this`child, this`sibling
      ensures x in old(sibling) && child == if k == 0 then old(child)[d := old(sibling)[x]] else old(child)
      ensures sibling == (if k == 0 then old(sibling) else old(sibling)[q[k - 1] := old(sibling)[x]])[x := None]
    {
      hide IsList;
      var prev: Link, cur := None, child[d];
      ghost var j: nat := 0;
      Points(sibling, child[d], q, 0);
      Points(sibling, child[d], q, k + 1);
      while cur.Some? && cur.value != x
        invariant child == old(child) && sibling == old(sibling)
        invariant j <= k && cur == Some(q[j]) && prev == if j == 0 then None else Some(q[j - 1])
        decreases k - j
      {
        Points(sibling, child[d], q, j + 1);
        prev := cur;
        cur := sibling[cur.value];
        j := j + 1;
      }
      assert j == k;
      if cur == Some(x) {
        if prev == None {
          child := child[d := sibling[x]];
        } else {
          sibling := sibling[prev.value := sibling[x]];
        }
      }
      sibling := sibling[x := None];
    }

    // ----- Creating and removing -----

    /** ramfs_create_locked for a parent and a leaf name: the node takes its place in name order. */
    method Create(d: nat, leaf: Bytes, dir: bool) returns (rc: int, x: nat, ghost k: nat)
      requires Valid() && d in isDir
      modifies this
      ensures Valid() && h == old(h) && filePos == old(filePos) && seen == old(seen) && since == old(since)
      ensures rc == VFS_OK ==> d in old(t).list && x == old(limit) && leaf != [] && |leaf| < NAME_MAX && Place(old(t), d, leaf, k)
      ensures rc == VFS_OK ==> Gained(old(t), t, d, k, x, leaf, dir)
      ensures rc == VFS_OK ==> data == old(data) - {x} && size == old(size)[x := 0]
      ensures rc != VFS_OK ==> t == old(t) && data == old(data) && size == old(size) && refs == old(refs)
      ensures if leaf == [] || |leaf| >= NAME_MAX then rc == VFS_ERR_INVAL
              else if !old(isDir)[d] then rc == VFS_ERR_NOTDIR
              else if exists c: nat :: Entry(old(t), d, leaf, c) then rc == VFS_ERR_EXIST
              else rc == VFS_OK || (rc == VFS_ERR_NOMEM && !plenty)
      ensures rc == VFS_OK ==> isDir == old(isDir)[x := dir] && name == old(name)[x := leaf] && x in refs && refs[x] == 0
      ensures rc == VFS_OK ==>
                forall d': nat, nm, c: nat :: Entry(t, d', nm, c) <==> Entry(old(t), d', nm, c) || (d' == d && nm == leaf && c == x)
    {
      hide TreeOk, HandlesOk, Counted, AllScans, AllFiles, IsList, Linked, Gained;
      x, k := limit, 0;
      if leaf == [] || |leaf| >= NAME_MAX {
        return VFS_ERR_INVAL, x, k;
      }
      ListFacts(t, d);
      if !isDir[d] {
        return VFS_ERR_NOTDIR, x, k;
      }
      var c := ChildFind(d, leaf, t.list[d]);
      if c.Some? {
        assert Entry(t, d, leaf, c.value);
        return VFS_ERR_EXIST, x, k;
      }
      var short := *;
      if short && !plenty {
        return VFS_ERR_NOMEM, x, k;
      }
      var prev, next;
      prev, next, k := FindPlace(d, leaf, t.list[d]);
      LimitIs();
      LinkedEntries(t, d, k, leaf, dir);
      ghost var t0 := t;
      AddNode(d, leaf, dir, prev, next, k);
      GainedIs(t0, t, d, k, x, leaf, dir);
      rc := VFS_OK;
    }

    /** The new node's fields and its linking. */
    method AddNode(d: nat, leaf: Bytes, dir: bool, prev: Link, next: Link, ghost k: nat)
      requires Valid() && d in t.list && Place(t, d, leaf, k)
      requires Stands(t, d, k, prev, next)
      modifies this`limit, this`isDir, this`name, this`child, this`sibling, this`parent, this`refs, this`data, this`size, this`t
      ensures Valid() && Gained(old(t), t, d, k, old(limit), leaf, dir)
      ensures data == old(data) - {old(limit)} && size == old(size)[old(limit) := 0] && refs == old(refs)[old(limit) := 0]
      ensures isDir == old(isDir)[old(limit) := dir] && name == old(name)[old(limit) := leaf]
    {
      hide Ramfs.Nodes, TreeOk, HandlesOk, Counted, AllScans, AllFiles, Linked, Gained, Place, Stands;
      var x := limit;
      LimitIs();
      PlaceIn(t, d, leaf, k);
      AddFacts(t, d, k, x, leaf, dir, h, refs, seen, since, data, size);
      ghost var t0 := t;
      AddBuffers(x);
      AddFields(d, leaf, dir, prev, next, k);
      GainedIs(t0, t, d, k, x, leaf, dir);
    }

    method AddBuffers(x: nat)
      modifies this`refs, this`data, this`size
      ensures refs == old(refs)[x := 0] && data == old(data) - {x} && size == old(size)[x := 0]
    {
      refs, size, data := refs[x := 0], size[x := 0], data - {x};
    }

    lemma LimitIs()
      requires Nodes()
      ensures t.limit == limit && TreeOk(t)
    {
    }

    /** The new node's tree fields. */
    method AddFields(d: nat, leaf: Bytes, dir: bool, prev: Link, next: Link, ghost k: nat)
      requires Nodes() && d in t.list && k <= |t.list[d]| && TreeOk(Linked(t, d, k, limit, leaf, dir))
      requires Stands(t, d, k, prev, next)
      modifies this`limit, this`isDir, this`name, this`child, this`sibling, this`parent, this`t
      ensures Nodes() && Gained(old(t), t, d, k, old(limit), leaf, dir)
      ensures isDir == old(isDir)[old(limit) := dir] && name == old(name)[old(limit) := leaf]
    {
      hide TreeOk, Linked;
      ghost var t' := Linked(t, d, k, limit, leaf, dir);
      LinkedFields(t, d, k, limit, leaf, dir);
      isDir, name, parent := isDir[limit := dir], name[limit := leaf], parent[limit := d];
      LinkChild(d, limit, prev, next, t.list[d], k);
      limit := limit + 1;
      t := t';
    }

    /** ramfs_rmdir of a node that was looked up. */
    method Rmdir(x: nat) returns (rc: int, ghost k: nat)
      requires Valid() && x in isDir
      modifies this
      ensures Valid() && h == old(h) && filePos == old(filePos) && seen == old(seen) && data == old(data) && size == old(size)
      ensures rc == VFS_OK <==> old(isDir)[x] && x != 0 && x in old(t).list && old(t).list[x] == [] && x in old(refs) && old(refs)[x] == 0
      ensures rc == VFS_OK ==> x in old(parent) && CanCut(old(t), old(parent)[x], k, x) && t == Cut(old(t), old(parent)[x], k)
      ensures rc == VFS_OK ==> since == Lessened(old(since), x)
      ensures rc == VFS_OK ==> forall d': nat, nm, c: nat :: Entry(t, d', nm, c) <==> Entry(old(t), d', nm, c) && c != x
      ensures rc != VFS_OK ==> t == old(t) && since == old(since)
      ensures !old(isDir)[x] ==> rc == VFS_ERR_NOTDIR
      ensures old(isDir)[x] && rc != VFS_OK ==>
                rc == if x != 0 && x in old(t).list && old(t).list[x] != [] then VFS_ERR_NOTEMPTY else VFS_ERR_BUSY
    {
      hide TreeOk, HandlesOk, Counted, AllScans, AllFiles, IsList, Cut, Lessened;
      k := 0;
      ListFacts(t, x);
      if !isDir[x] {
        return VFS_ERR_NOTDIR, k;
      }
      if x == 0 {
        return VFS_ERR_BUSY, k;
      }
      NodeFacts(t, h, refs, x);
      if child[x].Some? {
        return VFS_ERR_NOTEMPTY, k;
      }
      if refs[x] != 0 {
        return VFS_ERR_BUSY, k;
      }
      k := IndexOf(t.list[parent[x]], x);
      CutKnown(t, parent[x], k);
      CutEntries(t, parent[x], k);
      DropNode(parent[x], x, k);
      rc := VFS_OK;
    }

    /** ramfs_child_unlink and the freeing of a directory nothing stands for. */
    method DropNode(d: nat, x: nat, ghost k: nat)
      requires Valid() && CanCut(t, d, k, x) && x in isDir && x in refs && refs[x] == 0 && (x in t.list ==> t.list[x] == [])
      modifies this`child, this`sibling, this`isDir, this`t, this`since
      ensures Valid() && t == Cut(old(t), d, k) && since == Lessened(old(since), x)
    {
      hide TreeOk, HandlesOk, Counted, AllScans, AllFiles, IsList, Cut, Lessened;
      CutKeeps(t, d, k);
      CutHandles(t, d, k, h, refs);
      CutScans(t, d, k, h, seen, since);
      CutFile(t, d, k, data, size);
      since := Lessened(since, x);
      CutNode(d, x, k, Cut(t, d, k));
    }

    /** The removed node's tree fields. */
    method CutNode(d: nat, x: nat, ghost k: nat, ghost t': Tree)
      requires Nodes() && CanCut(t, d, k, x) && t' == Cut(t, d, k) && TreeOk(t')
      modifies this`child, this`sibling, this`isDir, this`t
      ensures Nodes() && t == t'
    {
      hide TreeOk, Cut, IsList;
      ListFacts(t, d);
      CutFields(t, d, k);
      UnlinkChild(d, x, t.list[d], k);
      isDir := isDir - {x};
      t := t';
    }

    // ----- Handles -----

    lemma Known(n: nat)
      requires Uses() && n in t.isDir
      ensures n in refs && refs[n] == RamfsScan.Uses(h, n)
    {
      hide RamfsScan.Uses;
    }

    lemma Opened(f: nat)
      requires Uses() && Nodes() && f in fileOf
      ensures fileOf[f] in isDir && fileOf[f] in t.isDir && f in filePos
    {
      hide TreeOk, Counted;
    }

    lemma Sized(n: nat)
      requires Files() && n in t.isDir
      ensures n in size && (if n in data then size[n] <= |data[n]| && 0 < |data[n]| else size[n] == 0)
    {
    }

    lemma Counts(n: nat)
      requires Files() && n in t.isDir
      ensures n in size && |Contents(n)| == size[n]
    {
    }

    /** ramfs_open's effects on a node that was looked up: truncation, a new reference and a position. */
    method Open(n: nat, f: nat, trunc: bool, append: bool)
      requires Valid() && n in isDir && f !in fileOf
      modifies this`size, this`refs, this`fileOf, this`filePos, this`h
      ensures Valid() && fileOf == old(fileOf)[f := n] && h == old(h).(fileOf := fileOf)
      ensures Contents(n) == if trunc && !isDir[n] then [] else old(Contents(n))
      ensures forall m :: m != n ==> Contents(m) == old(Contents(m))
      ensures n in size && filePos == old(filePos)[f := if append && !isDir[n] then size[n] else 0]
    {
      hide Ramfs.Uses, Ramfs.Scans, TreeOk;
      Sized(n);
      if trunc && !isDir[n] {
        size := size[n := 0];
      }
      Pin(n, f, if append && !isDir[n] then size[n] else 0);
    }

    method Pin(n: nat, f: nat, pos: nat)
      requires Uses() && Scans() && n in t.isDir && f !in fileOf
      modifies this`refs, this`fileOf, this`filePos, this`h
      ensures Uses() && Scans() && fileOf == old(fileOf)[f := n] && h == old(h).(fileOf := fileOf) && filePos == old(filePos)[f := pos]
    {
      hide TreeOk, HandlesOk, Counted, AllScans;
      Known(n);
      FileOpened(t, h, refs, f, n);
      OtherScans(t, h, h.(fileOf := h.fileOf[f := n]), seen, since);
      refs := refs[n := refs[n] + 1];
      fileOf := fileOf[f := n];
      filePos := filePos[f := pos];
      h := h.(fileOf := fileOf);
    }

    /** ramfs_close. */
    method Close(f: nat)
      requires Valid() && f in fileOf
      modifies this`refs, this`fileOf, this`h
      ensures Valid() && fileOf == old(fileOf) - {f} && h == old(h).(fileOf := fileOf)
    {
      hide TreeOk, HandlesOk, Counted, AllScans;
      FileClosed(t, h, refs, f);
      OtherScans(t, h, h.(fileOf := h.fileOf - {f}), seen, since);
      var n := fileOf[f];
      refs := refs[n := refs[n] - 1];
      fileOf := fileOf - {f};
      h := h.(fileOf := fileOf);
    }

    /** ramfs_opendir of a directory that was looked up. */
    method Opendir(n: nat, d: nat) returns (rc: int)
      requires Valid() && n in isDir && d !in dirOf
      modifies this`refs, this`dirOf, this`h, this`seen, this`since
      ensures Valid() && (rc == VFS_OK <==> isDir[n])
      ensures rc == VFS_OK ==> n in t.list && d !in cursor && h == old(h).(dirOf := old(h).dirOf[d := n])
      ensures rc == VFS_OK ==> seen == old(seen)[d := []] && since == old(since)[d := Members(t.list[n])]
      ensures rc != VFS_OK ==> h == old(h) && seen == old(seen) && since == old(since)
    {
      hide Ramfs.Uses, Ramfs.Scans, Ramfs.Files, TreeOk, Members;
      ListFacts(t, n);
      if !isDir[n] {
        return VFS_ERR_NOTDIR;
      }
      PinDir(n, d);
      rc := VFS_OK;
    }

    method PinDir(n: nat, d: nat)
      requires Uses() && Scans() && TreeOk(t) && n in t.isDir && n in t.list && d !in dirOf
      modifies this`refs, this`dirOf, this`h, this`seen, this`since
      ensures Uses() && Scans() && d !in cursor && h == old(h).(dirOf := old(h).dirOf[d := n])
      ensures seen == old(seen)[d := []] && since == old(since)[d := Members(t.list[n])]
    {
      hide TreeOk, HandlesOk, Counted, AllScans, Members;
      DirOpened(t, h, refs, d, n);
      StartedScans(t, h, d, n, seen, since);
      refs := refs[n := refs[n] + 1];
      dirOf := dirOf[d := n];
      h := h.(dirOf := dirOf);
      seen := seen[d := []];
      since := since[d := Members(t.list[n])];
    }

    /** ramfs_closedir. */
    method Closedir(d: nat)
      requires Valid() && d in dirOf
      modifies this`refs, this`dirOf, this`cursor, this`h
      ensures Valid() && h == old(h).(dirOf := old(h).dirOf - {d}, cursor := old(h).cursor - {d})
    {
      hide Ramfs.Nodes, Ramfs.Files, HandlesOk, Counted, AllScans, ClosedRefs;
      OtherScans(t, h, h.(dirOf := h.dirOf - {d}, cursor := h.cursor - {d}), seen, since);
      Unpin(d);
      dirOf, cursor := dirOf - {d}, cursor - {d};
      h := h.(dirOf := dirOf, cursor := cursor);
    }

    method Unpin(d: nat)
      requires HandlesOk(t, h) && Counted(t, h, refs) && d in dirOf && h.dirOf == dirOf && h.cursor == cursor
      modifies this`refs
      ensures var h' := h.(dirOf := h.dirOf - {d}, cursor := h.cursor - {d}); HandlesOk(t, h') && Counted(t, h', refs)
    {
      hide HandlesOk, Counted;
      DirClosed(t, h, refs, d);
      if d in cursor {
        refs := refs[cursor[d] := refs[cursor[d]] - 1];
      }
      refs := refs[dirOf[d] := refs[dirOf[d]] - 1];
    }

    /**
     ramfs_readdir: the next entry, whose name is above every name returned so far;
     at the end, every entry that was there since the directory was opened has been
     returned.
     */
    method Readdir(d: nat) returns (rc: int, entry: Bytes)
      requires Valid() && d in dirOf
      modifies this`refs, this`cursor, this`h, this`seen
      ensures Valid() && dirOf == old(dirOf) && d in seen && Rising(seen[d]) && (rc == VFS_OK || rc == VFS_ERR_NOENT)
      ensures d in old(seen) && (rc == VFS_OK ==> seen == old(seen)[d := old(seen)[d] + [entry]])
      ensures rc != VFS_OK ==> seen == old(seen) && h == old(h)
      ensures rc != VFS_OK ==> d in since && forall x :: x in since[d] ==> x in name && name[x] in seen[d]
    {
      hide TreeOk, HandlesOk, Counted, AllScans, IsList, Rising;
      ghost var n := dirOf[d];
      entry := [];
      ghost var i := WhereAt(t, h, d, seen, since);
      Points(sibling, child[n], t.list[n], i + 1);
      ScanSoFar(t, h, d, seen, since);
      var next := if d in cursor then sibling[cursor[d]] else child[dirOf[d]];
      if next == None {
        ScanEnds(t, h, d, i, seen[d], since[d]);
        return VFS_ERR_NOENT, entry;
      }
      MovedScan(t, h, d, i, seen, since);
      Advance(d, next.value, i);
      rc := VFS_OK;
      entry := name[next.value];
    }

    /** The cursor's move and the reference counts that go with it. */
    method Advance(d: nat, y: nat, ghost i: int)
      requires Uses() && Nodes() && d in dirOf && y in name && y in isDir && dirOf[d] in t.list && y in t.list[dirOf[d]]
      requires d in seen && AllScans(t, h.(cursor := h.cursor[d := y]), seen[d := seen[d] + [name[y]]], since)
      modifies this`refs, this`cursor, this`h, this`seen
      ensures Uses() && Scans() && h == old(h).(cursor := old(h).cursor[d := y]) && seen == old(seen)[d := old(seen)[d] + [name[y]]]
    {
      hide TreeOk, HandlesOk, Counted, AllScans;
      CursorKnown(t, h, d);
      CursorMoved(t, h, refs, d, y);
      refs := refs[y := refs[y] + 1];
      if d in cursor {
        refs := refs[cursor[d] := refs[cursor[d]] - 1];
      }
      cursor := cursor[d := y];
      h := h.(cursor := cursor);
      seen := seen[d := seen[d] + [name[y]]];
    }

    // ----- Files -----

    /**
     ramfs_grow: room for need bytes. A new buffer gets as many bytes as the low
     32 bits of the size say, the rest of it is arbitrary.
     */
    method Grow(n: nat, need: nat) returns (rc: int)
      requires Files() && n in t.isDir
      modifies this`data
      ensures Files() && (rc == VFS_OK || rc == VFS_ERR_NOMEM)
      ensures forall m :: m != n ==> Contents(m) == old(Contents(m))
      ensures n in old(data) ==> n in data && n in size && |old(data)[n]| <= |data[n]| && Moves(old(data)[n], data[n], Low(size[n]))
      ensures |Contents(n)| == |old(Contents(n))|
      ensures plenty ==> rc == VFS_OK
      ensures rc != VFS_OK || (n in size && size[n] < U32) ==> Contents(n) == old(Contents(n))
      ensures rc == VFS_OK ==> n in data && need <= |data[n]|
    {
      Sized(n);
      var ncap := if n in data then |data[n]| else DEF_CAP;
      if n in data && need <= ncap {
        return VFS_OK;
      }
      while ncap < need
        invariant 0 < ncap && (n in data ==> |data[n]| <= ncap)
        decreases need - ncap
      {
        ncap := ncap * 2;
      }
      var short := *;
      if short && !plenty {
        return VFS_ERR_NOMEM;
      }
      var ndata := new Byte[ncap];
      if n in data {
        forall i | 0 <= i < Low(size[n]) {
          ndata[i] := data[n][i];
        }
        assert ndata[..][..Low(size[n])] == data[n][..Low(size[n])];
      }
      data := data[n := ndata[..]];
      rc := VFS_OK;
    }

    /**
     ramfs_read: the count is as many bytes as there are at the position; the
     buffer gets as many of them as the low 32 bits of the count say.
     */
    method Read(f: nat, len0: nat) returns (rc: int, out: Bytes)
      requires Valid() && f in fileOf
      modifies this`filePos
      ensures Valid() && fileOf[f] in isDir && f in old(filePos) && filePos.Keys == old(filePos).Keys
      ensures isDir[fileOf[f]] ==> rc == VFS_ERR_ISDIR && filePos == old(filePos)
      ensures !isDir[fileOf[f]] ==>
                var b, pos := Contents(fileOf[f]), old(filePos)[f];
                && 0 <= rc == (if pos >= |b| then 0 else Min(len0, |b| - pos)) && |out| == Low(rc)
                && (rc > 0 ==> out == b[pos..pos + |out|]) && filePos == old(filePos)[f := pos + rc]
    {
      hide TreeOk, HandlesOk, Counted, AllScans;
      out := [];
      HandleKnown(t, h, f);
      var n := fileOf[f];
      Opened(f);
      Sized(n);
      if isDir[n] {
        return VFS_ERR_ISDIR, out;
      }
      var pos := filePos[f];
      var avail := if size[n] > pos then size[n] - pos else 0;
      var len := if len0 > avail then avail else len0;
      if len > 0 {
        out := data[n][pos..pos + Low(len)];
        assert data[n][..size[n]][pos..pos + Low(len)] == out;
      }
      filePos := filePos[f := pos + len];
      rc := len;
    }

    /**
     ramfs_write: the data at the position, zeros in a gap before it; bytes cut
     off by a truncation stay gone. That needs a size, a gap and a length of 32
     bits each (StoredExact, MovedExact); the size and the position are right
     for any.
     */
    method Write(f: nat, buf: Bytes) returns (rc: int)
      requires Valid() && f in fileOf && f in filePos && filePos[f] + |buf| < U64 / 2
      modifies this`data, this`size, this`filePos
      ensures Valid() && fileOf[f] in isDir && filePos.Keys == old(filePos).Keys
      ensures isDir[fileOf[f]] <==> rc == VFS_ERR_ISDIR
      ensures !isDir[fileOf[f]] ==> rc == |buf| || (rc == VFS_ERR_NOMEM && !plenty)
      ensures rc >= 0 ==> |Contents(fileOf[f])| == |Written(old(Contents(fileOf[f])), old(filePos)[f], buf)|
      ensures rc >= 0 && |old(Contents(fileOf[f]))| < U32 && Narrow(|old(Contents(fileOf[f]))|, old(filePos)[f], buf) ==>
                Contents(fileOf[f]) == Written(old(Contents(fileOf[f])), old(filePos)[f], buf)
      ensures rc >= 0 ==> filePos == old(filePos)[f := old(filePos)[f] + |buf|]
      ensures rc < 0 ==> Contents(fileOf[f]) == old(Contents(fileOf[f])) && filePos == old(filePos)
      ensures forall m :: m != fileOf[f] ==> Contents(m) == old(Contents(m))
    {
      hide Ramfs.Scans, TreeOk, HandlesOk, Counted, AllFiles, Written, Ramfs.Contents;
      HandleKnown(t, h, f);
      var n, pos := fileOf[f], filePos[f];
      Opened(f);
      if isDir[n] {
        return VFS_ERR_ISDIR;
      }
      Counts(n);
      rc := Grow(n, pos + |buf|);
      if rc != VFS_OK {
        return;
      }
      Store(n, pos, buf);
      filePos := filePos[f := pos + |buf|];
      rc := |buf|;
    }

    /** ramfs_write's two fills. */
    method Fill(d0: Bytes, s: nat, pos: nat, buf: Bytes) returns (d: Bytes)
      requires s <= |d0| && pos + |buf| <= |d0|
      ensures d == Stored(d0, s, pos, buf)
    {
      d := d0;
      if pos > s {
        d := d[..s] + seq(Low(pos - s), _ => 0) + d[s + Low(pos - s)..];
      }
      d := d[..pos] + buf[..Low(|buf|)] + d[pos + Low(|buf|)..];
    }

    /** The writing part of ramfs_write into a buffer that is large enough. */
    method Store(n: nat, pos: nat, buf: Bytes)
      requires Files() && n in t.isDir && n in data && pos + |buf| <= |data[n]|
      modifies this`data, this`size
      ensures Files() && n in old(size) && n in size && n in data && old(size)[n] <= |old(data)[n]|
      ensures size[n] == After(old(size)[n], pos, buf) && data[n] == Stored(old(data)[n], old(size)[n], pos, buf)
      ensures |Contents(n)| == |Written(old(Contents(n)), pos, buf)|
      ensures Narrow(old(size)[n], pos, buf) ==> Contents(n) == Written(old(Contents(n)), pos, buf)
      ensures forall m :: m != n ==> Contents(m) == old(Contents(m))
    {
      hide Stored, Written;
      Sized(n);
      ghost var d0, s0 := data[n], size[n];
      var d := Fill(data[n], size[n], pos, buf);
      if Narrow(s0, pos, buf) {
        StoredIs(d0, s0, pos, buf);
      }
      data := data[n := d];
      if pos + |buf| > size[n] {
        size := size[n := pos + |buf|];
      }
    }
  }

  /** A length as the 32 bits a copy takes of it. */
  function Low(n: nat): (r: nat)
    ensures r <= n && (n < U32 <==> r == n)
  {
    n % U32
  }

  /** A byte that is not the i-th of s, and not zero where s has none. */
  function OtherAt(s: Bytes, i: int): (r: Byte)
    ensures if 0 <= i < |s| then r != s[i] else r != 0
  {
    if 0 <= i < |s| && s[i] == 1 then 0 else 1
  }

  /** n bytes, none of them that of s at the offset. */
  function Spoilt(s: Bytes, at: int, n: nat): (r: Bytes)
    ensures |r| == n && forall i :: 0 <= i < n ==> r[i] == OtherAt(s, at + i)
  {
    if n == 0 then [] else Spoilt(s, at, n - 1) + [OtherAt(s, at + n - 1)]
  }

  /** The first k bytes are the same. */
  ghost predicate Moves(d: Bytes, d': Bytes, k: nat) {
    k <= |d| <= |d'| && d'[..k] == d[..k]
  }

  /** The size after a write. */
  function After(s: nat, pos: nat, buf: Bytes): nat {
    if pos + |buf| > s then pos + |buf| else s
  }

  /** What a write makes of a buffer: the two fills take the low 32 bits of their lengths. */
  function Stored(d: Bytes, s: nat, pos: nat, buf: Bytes): (r: Bytes)
    requires s <= |d| && pos + |buf| <= |d|
    ensures |r| == |d|
  {
    var gap, n := if pos > s then Low(pos - s) else 0, Low(|buf|);
    var z := if pos > s then d[..s] + seq(gap, _ => 0) + d[s + gap..] else d;
    z[..pos] + buf[..n] + z[pos + n..]
  }

  /** The gap and the data have lengths of 32 bits. */
  predicate Narrow(s: nat, pos: nat, buf: Bytes) {
    |buf| < U32 && pos < s + U32
  }

  lemma StoredIs(d: Bytes, s: nat, pos: nat, buf: Bytes)
    requires s <= |d| && pos + |buf| <= |d| && Narrow(s, pos, buf)
    ensures Stored(d, s, pos, buf)[..After(s, pos, buf)] == Written(d[..s], pos, buf)
  {
    var w, r := Written(d[..s], pos, buf), Stored(d, s, pos, buf);
    forall i | 0 <= i < |w|
      ensures r[i] == w[i]
    {
      WrittenReads(d[..s], pos, buf, i);
    }
  }

  /** A write of these lengths puts the right bytes into every buffer of cap bytes exactly when they have 32 bits. */
  lemma StoredExact(s: nat, pos: nat, buf: Bytes, cap: nat)
    requires s <= cap && pos + |buf| <= cap
    ensures Narrow(s, pos, buf) <==>
            forall d: Bytes :: |d| == cap ==> Stored(d, s, pos, buf)[..After(s, pos, buf)] == Written(d[..s], pos, buf)
  {
    if Narrow(s, pos, buf) {
      forall d: Bytes | |d| == cap
        ensures Stored(d, s, pos, buf)[..After(s, pos, buf)] == Written(d[..s], pos, buf)
      {
        StoredIs(d, s, pos, buf);
      }
    } else {
      var d := Spoilt(buf, -(pos as int), cap);
      StoredMisses(d, s, pos, buf);
    }
  }

  lemma StoredMisses(d: Bytes, s: nat, pos: nat, buf: Bytes)
    requires s <= |d| && pos + |buf| <= |d| && !Narrow(s, pos, buf)
    requires forall i :: 0 <= i < |d| ==> d[i] == OtherAt(buf, i - pos)
    ensures Stored(d, s, pos, buf)[..After(s, pos, buf)] != Written(d[..s], pos, buf)
  {
    var i := if |buf| >= U32 then pos + Low(|buf|) else s + Low(pos - s);
    WrittenReads(d[..s], pos, buf, i);
    assert Stored(d, s, pos, buf)[i] == d[i];
  }

  /** A new buffer holds the bytes of the old one, whatever else is in it, exactly when the size has 32 bits. */
  lemma MovedExact(d: Bytes, s: nat, cap: nat)
    requires s <= |d| <= cap
    ensures s < U32 <==> forall d': Bytes :: |d'| == cap && Moves(d, d', Low(s)) ==> d'[..s] == d[..s]
  {
    if s >= U32 {
      var rest := Spoilt(d, Low(s), cap - Low(s));
      var d' := d[..Low(s)] + rest;
      assert Moves(d, d', Low(s)) && d'[Low(s)] == rest[0];
      assert d'[..s][Low(s)] != d[..s][Low(s)];
    } else {
      forall d': Bytes | |d'| == cap && Moves(d, d', Low(s))
        ensures d'[..s] == d[..s]
      {
      }
    }
  }

  lemma HandleKnown(t: Tree, h: Handles, f: nat)
    requires HandlesOk(t, h)
    ensures f in h.fileOf ==> h.fileOf[f] in t.isDir
  {
  }

  lemma CursorKnown(t: Tree, h: Handles, d: nat)
    requires HandlesOk(t, h)
    ensures d in h.cursor ==> h.cursor[d] in t.isDir
  {
    assert d in h.cursor ==> CursorOk(t, h, d);
  }

  /** Scans do not depend on files, nor on other directory handles. */
  lemma OtherScans(t: Tree, h: Handles, h': Handles, seen: map<nat, seq<Bytes>>, since: map<nat, set<nat>>)
    requires AllScans(t, h, seen, since)
    requires forall e :: e in h'.dirOf ==> e in h.dirOf && h'.dirOf[e] == h.dirOf[e]
    requires forall e :: e in h'.dirOf ==> (e in h'.cursor <==> e in h.cursor) && (e in h.cursor ==> h'.cursor[e] == h.cursor[e])
    ensures AllScans(t, h', seen, since)
  {
    hide ScanOk;
    forall e | e in h'.dirOf
      ensures ScanOk(t, h', e, seen[e], since[e])
    {
      ScanKept(t, h, h', e, seen[e], since[e]);
    }
  }

  lemma StartedScans(t: Tree, h: Handles, d: nat, n: nat, seen: map<nat, seq<Bytes>>, since: map<nat, set<nat>>)
    requires TreeOk(t) && HandlesOk(t, h) && AllScans(t, h, seen, since) && d !in h.dirOf && d !in h.cursor && n in t.isDir && n in t.list
    ensures AllScans(t, h.(dirOf := h.dirOf[d := n]), seen[d := []], since[d := Members(t.list[n])])
  {
    hide ScanOk, TreeOk;
    var h' := h.(dirOf := h.dirOf[d := n]);
    assert forall e :: e in h.cursor ==> CursorOk(t, h, e) && CursorOk(t, h', e);
    forall e | e in h'.dirOf && e != d
      ensures ScanOk(t, h', e, seen[e], since[e])
    {
      ScanKept(t, h, h', e, seen[e], since[e]);
    }
    ScanStarts(t, h', d, n);
  }

  /** Where the cursor of a handle stands. */
  lemma WhereAt(t: Tree, h: Handles, d: nat, seen: map<nat, seq<Bytes>>, since: map<nat, set<nat>>) returns (i: int)
    requires TreeOk(t) && HandlesOk(t, h) && d in h.dirOf
    ensures var n := h.dirOf[d];
            && n in t.list && n in t.child && IsList(t.sibling, t.child[n], t.list[n]) && CursorAt(t, h, d, i)
            && forall k :: 0 <= k < |t.list[n]| ==> t.list[n][k] in t.name && t.list[n][k] in t.isDir
  {
    var n := h.dirOf[d];
    DirList(t, n);
    hide TreeOk, IsList;
    assert forall k :: 0 <= k < |t.list[n]| ==> ChildOk(t, n, t.list[n][k]);
    i := -1;
    if d in h.cursor {
      assert CursorOk(t, h, d);
      i :| 0 <= i < |t.list[n]| && t.list[n][i] == h.cursor[d];
    }
  }

  lemma ScanSoFar(t: Tree, h: Handles, d: nat, seen: map<nat, seq<Bytes>>, since: map<nat, set<nat>>)
    requires AllScans(t, h, seen, since) && d in h.dirOf
    ensures d in seen && d in since && ScanOk(t, h, d, seen[d], since[d]) && Rising(seen[d])
  {
    hide Less;
  }

  lemma MovedScan(t: Tree, h: Handles, d: nat, i: int, seen: map<nat, seq<Bytes>>, since: map<nat, set<nat>>)
    requires TreeOk(t) && HandlesOk(t, h) && AllScans(t, h, seen, since) && d in h.dirOf && h.dirOf[d] in t.list && CursorAt(t, h, d, i)
    requires i + 1 < |t.list[h.dirOf[d]]|
    ensures var y := t.list[h.dirOf[d]][i + 1];
            && y in t.name && d in seen && Rising(seen[d] + [t.name[y]])
            && AllScans(t, h.(cursor := h.cursor[d := y]), seen[d := seen[d] + [t.name[y]]], since)
  {
    hide ScanOk, TreeOk, HandlesOk;
    var y := t.list[h.dirOf[d]][i + 1];
    ScanMoves(t, h, d, i, seen[d], since[d]);
    var h' := h.(cursor := h.cursor[d := y]);
    ScanRises(t, h', d, seen[d] + [t.name[y]], since[d]);
    forall e | e in h'.dirOf && e != d
      ensures ScanOk(t, h', e, seen[e], since[e])
    {
      ScanKept(t, h, h', e, seen[e], since[e]);
    }
  }

  lemma ScanRises(t: Tree, h: Handles, d: nat, seen: seq<Bytes>, since: set<nat>)
    requires d in h.dirOf && ScanOk(t, h, d, seen, since)
    ensures Rising(seen)
  {
  }

  ghost function OnlyRoot(): Tree {
    Tree(0, 1, map[0 := true], map[0 := []], map[0 := None], map[], map[], map[0 := []])
  }

  lemma RootOk()
    ensures TreeOk(OnlyRoot())
    ensures HandlesOk(OnlyRoot(), Handles(map[], map[], map[])) && Counted(OnlyRoot(), Handles(map[], map[], map[]), map[0 := 0])
  {
    assert Placed(OnlyRoot(), 0) && DirOk(OnlyRoot(), 0);
    NoUsers(map[], 0);
  }

  /** What a directory's list allows the searches to rely on. */
  lemma ListFacts(t: Tree, d: nat)
    requires TreeOk(t) && (d in t.isDir || d in t.list)
    ensures d in t.list <==> d in t.isDir && t.isDir[d]
    ensures d in t.list ==> d in t.child && IsList(t.sibling, t.child[d], t.list[d]) && Distinct(t.list[d])
    ensures d in t.list ==> forall i :: 0 <= i < |t.list[d]| ==> t.list[d][i] in t.name
    ensures d in t.list ==> forall i, j :: 0 <= i < j < |t.list[d]| ==> Before(t.name, t.list[d], i, j)
  {
    hide IsList, Less;
    if d in t.list {
      DirList(t, d);
      RamfsTree.Children(t, d);
      assert forall i :: 0 <= i < |t.list[d]| ==> ChildOk(t, d, t.list[d][i]);
    }
  }

  lemma NodeFacts(t: Tree, h: Handles, refs: map<nat, int>, x: nat)
    requires TreeOk(t) && Counted(t, h, refs) && x in t.isDir && x != t.root && x in t.list
    ensures x in t.child && x in refs && x in t.parent && t.parent[x] in t.list && x in t.list[t.parent[x]]
    ensures t.child[x] == None <==> t.list[x] == []
  {
    assert Placed(t, x) && DirOk(t, x);
  }

  lemma PlaceIn(t: Tree, d: nat, leaf: Bytes, k: nat)
    requires d in t.list && Place(t, d, leaf, k)
    ensures k <= |t.list[d]|
  {
  }

  lemma LinkedFields(t: Tree, d: nat, k: nat, x: nat, leaf: Bytes, dir: bool)
    requires d in t.list && k <= |t.list[d]|
    ensures var t', q := Linked(t, d, k, x, leaf, dir), t.list[d];
            && t'.root == t.root && t'.limit == x + 1 && t'.isDir == t.isDir[x := dir] && t'.name == t.name[x := leaf]
            && t'.parent == t.parent[x := d]
            && t'.child == (if k == 0 then t.child[d := Some(x)] else t.child)[x := None]
            && var next := if k < |q| then Some(q[k]) else None;
               t'.sibling == if k == 0 then t.sibling[x := next] else t.sibling[x := next][q[k - 1] := Some(x)]
  {
  }

  ghost predicate CanCut(t: Tree, d: nat, k: nat, x: nat) {
    d in t.list && k < |t.list[d]| && t.list[d][k] == x && x in t.sibling
  }

  lemma CutFields(t: Tree, d: nat, k: nat)
    requires d in t.list && k < |t.list[d]| && t.list[d][k] in t.sibling
    ensures var t', q, x := Cut(t, d, k), t.list[d], t.list[d][k];
            && t'.root == t.root && t'.limit == t.limit && t'.isDir == t.isDir - {x} && t'.name == t.name && t'.parent == t.parent
            && t'.child == (if k == 0 then t.child[d := t.sibling[x]] else t.child)
            && t'.sibling == (if k == 0 then t.sibling else t.sibling[q[k - 1] := t.sibling[x]])[x := None]
  {
  }

  ghost predicate AllScans(t: Tree, h: Handles, seen: map<nat, seq<Bytes>>, since: map<nat, set<nat>>) {
    forall d :: d in h.dirOf ==> d in seen && d in since && ScanOk(t, h, d, seen[d], since[d])
  }

  ghost predicate AllFiles(t: Tree, data: map<nat, Bytes>, size: map<nat, nat>) {
    forall n :: n in t.isDir ==> n in size && (if n in data then size[n] <= |data[n]| && 0 < |data[n]| else size[n] == 0)
  }

  lemma AddedScans(t: Tree, d: nat, k: nat, x: nat, leaf: Bytes, dir: bool, h: Handles, seen: map<nat, seq<Bytes>>,
      since: map<nat, set<nat>>)
    requires TreeOk(t) && d in t.list && t.limit <= x && k <= |t.list[d]| && HandlesOk(t, h) && AllScans(t, h, seen, since)
    ensures AllScans(Linked(t, d, k, x, leaf, dir), h, seen, since)
  {
    hide TreeOk, HandlesOk, ScanOk, Linked;
    forall e | e in h.dirOf
      ensures ScanOk(Linked(t, d, k, x, leaf, dir), h, e, seen[e], since[e])
    {
      AddedScan(t, d, k, x, leaf, dir, h, e, seen[e], since[e]);
    }
  }

  /** t1 is t0 with a new node. */
  ghost predicate Gained(t0: Tree, t1: Tree, d: nat, k: nat, x: nat, leaf: Bytes, dir: bool) {
    d in t0.list && k <= |t0.list[d]| && t1 == Linked(t0, d, k, x, leaf, dir)
  }

  lemma GainedIs(t0: Tree, t1: Tree, d: nat, k: nat, x: nat, leaf: Bytes, dir: bool)
    requires Gained(t0, t1, d, k, x, leaf, dir)
    ensures d in t0.list && k <= |t0.list[d]| && t1 == Linked(t0, d, k, x, leaf, dir)
  {
  }

  /** prev and next are the nodes before and at place k. */
  ghost predicate Stands(t: Tree, d: nat, k: nat, prev: Link, next: Link) {
    && d in t.list && k <= |t.list[d]|
    && next == (if k < |t.list[d]| then Some(t.list[d][k]) else None) && prev == if k == 0 then None else Some(t.list[d][k - 1])
  }

  /** What a new node keeps. */
  lemma AddFacts(t: Tree, d: nat, k: nat, x: nat, leaf: Bytes, dir: bool, h: Handles, refs: map<nat, int>,
                 seen: map<nat, seq<Bytes>>, since: map<nat, set<nat>>, data: map<nat, Bytes>, size: map<nat, nat>)
    requires TreeOk(t) && d in t.list && t.limit <= x && Place(t, d, leaf, k) && k <= |t.list[d]|
    requires HandlesOk(t, h) && Counted(t, h, refs) && AllScans(t, h, seen, since) && AllFiles(t, data, size)
    ensures var t' := Linked(t, d, k, x, leaf, dir);
            && TreeOk(t') && HandlesOk(t', h) && Counted(t', h, refs[x := 0])
            && AllScans(t', h, seen, since) && AllFiles(t', data - {x}, size[x := 0])
  {
    hide TreeOk, HandlesOk, Counted, AllScans, AllFiles, Linked, Place;
    LinkKeeps(t, d, k, x, leaf, dir);
    AddedHandles(t, d, k, x, leaf, dir, h, refs);
    AddedScans(t, d, k, x, leaf, dir, h, seen, since);
    AddedFile(t, d, k, x, leaf, dir, data, size);
  }

  lemma AddedFile(t: Tree, d: nat, k: nat, x: nat, leaf: Bytes, dir: bool, data: map<nat, Bytes>, size: map<nat, nat>)
    requires d in t.list && k <= |t.list[d]| && AllFiles(t, data, size)
    ensures AllFiles(Linked(t, d, k, x, leaf, dir), data - {x}, size[x := 0])
  {
    LinkedFields(t, d, k, x, leaf, dir);
    hide Linked;
  }

  /** No scan still counts on node x. */
  ghost function Lessened(since: map<nat, set<nat>>, x: nat): map<nat, set<nat>> {
    map e | e in since :: since[e] - {x}
  }

  lemma CutScans(t: Tree, d: nat, k: nat, h: Handles, seen: map<nat, seq<Bytes>>, since: map<nat, set<nat>>)
    requires TreeOk(t) && d in t.list && k < |t.list[d]| && t.list[d][k] in t.sibling && AllScans(t, h, seen, since)
    requires forall e :: e in h.dirOf ==> h.dirOf[e] != t.list[d][k]
    ensures AllScans(Cut(t, d, k), h, seen, Lessened(since, t.list[d][k]))
  {
    hide TreeOk, ScanOk, Cut;
    forall e | e in h.dirOf
      ensures ScanOk(Cut(t, d, k), h, e, seen[e], since[e] - {t.list[d][k]})
    {
      CutScan(t, d, k, h, e, seen[e], since[e]);
    }
  }

  lemma CutFile(t: Tree, d: nat, k: nat, data: map<nat, Bytes>, size: map<nat, nat>)
    requires d in t.list && k < |t.list[d]| && t.list[d][k] in t.sibling && AllFiles(t, data, size)
    ensures AllFiles(Cut(t, d, k), data, size)
  {
  }

  ghost function Members(q: seq<nat>): set<nat> {
    set x | x in q
  }

  /** Where x stands in q. */
  ghost function IndexOf(q: seq<nat>, x: nat): (k: nat)
    requires x in q
    ensures k < |q| && q[k] == x
  {
    var k :| 0 <= k < |q| && q[k] == x;
    k
  }
}

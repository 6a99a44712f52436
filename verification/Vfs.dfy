/**
 The virtual file system's paths and mounts: normalising into a buffer, relative
 paths, longest-prefix resolution and the mount table
 (src/kernel/fs/vfs.c:15-154, 216-330).
 */
module Vfs {
  import opened Errors
  import opened VfsPath

  const PATH_MAX := 256
  const MAX_MOUNTS := 8

  /** The path a normalised source stands for. */
  function Normal(src: string): string {
    Render(Fold([], Comps(src)))
  }

  /** vfs_normalize accepts the path. */
  predicate Accepts(src: string, size: nat) {
    2 <= size && src != "" && src[0] == '/' && Fits([], Comps(src), size)
  }

  /** The text in a buffer up to index n. */
  ghost predicate Holds(dst: array<char>, n: nat, s: string)
    reads dst
  {
    n <= dst.Length && dst[..n] == s
  }

  lemma RenderPush(stack: seq<string>, c: string)
    ensures Render(stack + [c]) == (if stack == [] then "" else Render(stack)) + "/" + c
    ensures |Render(stack)| > 1 <== stack != [] && Word(stack[|stack| - 1])
  {
    assert (stack + [c])[..|stack + [c]| - 1] == stack;
    assert Joined([]) == "";
  }

  /** The backward scan of vfs_normalize for "..": the last component goes, the root stays. */
  method PopLast(dst: array<char>, j0: nat, ghost stack: seq<string>) returns (j: nat)
    requires Holds(dst, j0, Render(stack)) && forall i :: 0 <= i < |stack| ==> Word(stack[i])
    ensures j <= j0 && Holds(dst, j, Render(Push(stack, "..")))
    ensures 0 < j
  {
    j := j0;
    ghost var init := Push(stack, "..");
    ghost var low := if stack == [] then 1 else |Joined(init)| + 1;
    if stack != [] {
      assert dst[..j0] == Joined(init) + "/" + stack[|stack| - 1];
      assert dst[low - 1] == dst[..j0][low - 1] == '/';
      forall k | low <= k < j0
        ensures dst[k] != '/'
      {
        assert dst[k] == dst[..j0][k] == stack[|stack| - 1][k - low];
      }
    }
    while j > 1 && dst[j - 1] != '/'
      invariant low <= j <= j0
    {
      j := j - 1;
    }
    if j > 1 {
      j := j - 1;
    }
    if stack == [] {
      assert dst[..j] == dst[..j0];
    } else {
      assert dst[..low - 1] == dst[..j0][..low - 1];
      assert dst[..1] == dst[..j0][..1];
    }
  }

  /** The step of vfs_normalize that appends a component. */
  method Append(dst: array<char>, j0: nat, c: string, ghost stack: seq<string>) returns (j: nat)
    requires 0 < j0 && Holds(dst, j0, Render(stack)) && c != "" && forall i :: 0 <= i < |stack| ==> Word(stack[i])
    requires |Render(stack + [c])| < dst.Length
    modifies dst
    ensures j < dst.Length && Holds(dst, j, Render(stack + [c]))
  {
    RenderPush(stack, c);
    j := j0;
    if j > 1 {
      dst[j] := '/';
      j := j + 1;
    }
    Copy(dst, j, c);
    j := j + |c|;
  }

  /** kernel_memcpy into the buffer behind its text. */
  method Copy(dst: array<char>, j: nat, c: string)
    requires j + |c| < dst.Length
    modifies dst
    ensures dst[..j + |c|] == old(dst[..j]) + c
  {
    ghost var before := dst[..j];
    for k := 0 to |c|
      invariant dst[..j] == before && dst[j..j + k] == c[..k]
    {
      dst[j + k] := c[k];
    }
    assert dst[..j + |c|] == dst[..j] + dst[j..j + |c|];
  }

  /**
   vfs_normalize: on success the buffer holds the canonical path that folding the
   components gives; it fails exactly when the path is not absolute or outgrows
   the buffer on the way.
   */
  method Normalize(src: string, dst: array<char>) returns (rc: int, n: nat)
    modifies dst
    ensures rc == VFS_OK || rc == VFS_ERR_INVAL
    ensures rc == VFS_OK <==> Accepts(src, dst.Length)
    ensures rc == VFS_OK ==> n < dst.Length && Holds(dst, n, Normal(src)) && dst[n] == '\0'
  {
    hide Fold, Fits, Comps, Render, Push, Span;
    n := 0;
    if dst.Length < 2 || src == "" || src[0] != '/' {
      return VFS_ERR_INVAL, n;
    }
    dst[0] := '/';
    var i, j: nat := 0, 1;
    ghost var stack: seq<string> := [];
    Whole(src);
    assert dst[..1] == "/";
    while i < |src|
      invariant i <= |src| && 0 < j < dst.Length && Holds(dst, j, Render(stack)) && Clean(stack)
      invariant Fold(stack, Comps(src[i..])) == Fold([], Comps(src))
      invariant Fits(stack, Comps(src[i..]), dst.Length) <==> Fits([], Comps(src), dst.Length)
    {
      var start := SkipSlashes(src, i);
      if start == |src| {
        i := start;
        break;
      }
      i := SkipWord(src, start);
      var c := src[start..i];
      NextComp(stack, c, Comps(src[i..]), dst.Length);
      if c == "." {
        continue;
      }
      if c == ".." {
        j := PopLast(dst, j, stack);
        stack := Push(stack, "..");
        continue;
      }
      RenderPush(stack, c);
      var need := j + (if j > 1 then 1 else 0) + |c|;
      assert need == |Render(stack + [c])| by {
        RootIsShort(stack);
      }
      if need >= dst.Length {
        return VFS_ERR_INVAL, n;
      }
      j := Append(dst, j, c, stack);
      stack := stack + [c];
    }
    Done(stack, src[i..], dst.Length);
    dst[j] := '\0';
    assert dst[..j] == Render(stack);
    return VFS_OK, j;
  }

  lemma Whole(src: string)
    ensures src[0..] == src && Render([]) == "/"
  {
  }

  lemma RootIsShort(stack: seq<string>)
    requires forall i :: 0 <= i < |stack| ==> Word(stack[i])
    ensures |Render(stack)| > 1 <==> stack != []
  {
    RenderPush(stack, "");
  }

  method SkipSlashes(src: string, i0: nat) returns (i: nat)
    requires i0 <= |src|
    ensures i0 <= i <= |src| && Comps(src[i..]) == Comps(src[i0..]) && (i < |src| ==> src[i] != '/')
  {
    i := i0;
    while i < |src| && src[i] == '/'
      invariant i0 <= i <= |src| && Comps(src[i..]) == Comps(src[i0..])
    {
      assert src[i..][1..] == src[i + 1..];
      i := i + 1;
    }
  }

  method SkipWord(src: string, start: nat) returns (i: nat)
    requires start < |src| && src[start] != '/'
    ensures start < i <= |src| && Comps(src[start..]) == [src[start..i]] + Comps(src[i..]) && Word(src[start..i])
  {
    i := start;
    while i < |src| && src[i] != '/'
      invariant start <= i <= |src| && '/' !in src[start..i]
    {
      assert src[start..i + 1] == src[start..i] + [src[i]];
      i := i + 1;
    }
    CompsWord(src[start..i], src[i..]);
    assert src[start..] == src[start..i] + src[i..];
  }

  lemma NextComp(stack: seq<string>, c: string, rest: seq<string>, size: nat)
    ensures Fold(stack, [c] + rest) == Fold(Push(stack, c), rest)
    ensures Fits(stack, [c] + rest, size) <==> (Grows(c) ==> |Render(stack + [c])| < size) && Fits(Push(stack, c), rest, size)
    ensures Push(stack, ".") == stack && (Grows(c) ==> Push(stack, c) == stack + [c])
    ensures Clean(stack) ==> Clean(Push(stack, ".."))
  {
    assert ([c] + rest)[1..] == rest;
  }

  lemma Done(stack: seq<string>, rest: string, size: nat)
    requires rest == "" || Comps(rest) == []
    ensures Fold(stack, Comps(rest)) == stack && Fits(stack, Comps(rest), size)
  {
  }

  // ----- The mount table -----

  datatype Slot = Slot(used: bool, mountpoint: string, open: nat)

  /** Slot i is a mount whose mount point is a component-wise prefix of p. */
  ghost predicate Covers(mounts: seq<Slot>, i: nat, p: string) {
    i < |mounts| && mounts[i].used && Comps(mounts[i].mountpoint) <= Comps(p)
  }

  ghost predicate Mounted(mounts: seq<Slot>, mp: string) {
    exists k :: 0 <= k < |mounts| && mounts[k].used && mounts[k].mountpoint == mp
  }

  /** A handle pins the mount there. */
  ghost predicate Pinned(mounts: seq<Slot>, mp: string) {
    exists k :: 0 <= k < |mounts| && mounts[k].used && mounts[k].mountpoint == mp && mounts[k].open > 0
  }

  ghost predicate Full(mounts: seq<Slot>) {
    forall k :: 0 <= k < |mounts| ==> mounts[k].used
  }

  ghost predicate TableOk(mounts: seq<Slot>) {
    && |mounts| == MAX_MOUNTS
    && (forall i :: 0 <= i < |mounts| && mounts[i].used ==> Canonical(mounts[i].mountpoint))
    && (forall i, j :: 0 <= i < j < |mounts| && mounts[i].used && mounts[j].used ==> mounts[i].mountpoint != mounts[j].mountpoint)
  }

  /** Of two mount points above the same path, the longer text has more components. */
  lemma LongerIsMore(mp: string, np: string, p: string)
    requires Canonical(mp) && Canonical(np) && Comps(mp) <= Comps(p) && Comps(np) <= Comps(p)
    ensures |mp| < |np| <==> |Comps(mp)| < |Comps(np)|
    ensures |mp| == |np| ==> mp == np
  {
    var ms, ns, ps := Comps(mp), Comps(np), Comps(p);
    hide Comps, Render;
    PrefixShorter(ms, ns);
    PrefixShorter(ns, ms);
    TwoPrefixes(ms, ns, ps);
  }

  lemma TwoPrefixes(a: seq<string>, b: seq<string>, c: seq<string>)
    requires a <= c && b <= c
    ensures if |a| < |b| then a < b else if |b| < |a| then b < a else a == b
  {
    assert a == c[..|a|] && b == c[..|b|];
  }

  lemma PrefixShorter(a: seq<string>, b: seq<string>)
    requires forall i :: 0 <= i < |b| ==> Word(b[i])
    ensures a < b ==> |Render(a)| < |Render(b)|
  {
    if a < b {
      var rest := b[|a|..];
      assert b == a + rest;
      JoinedConcat(a, rest);
      var init, c := rest[..|rest| - 1], rest[|rest| - 1];
      assert Joined(rest) == Joined(init) + "/" + c;
      assert Word(b[|b| - 1]) && b[|b| - 1] == c;
    }
  }

  class Mounts {
    var mounts: seq<Slot>
    var cwd: string

    ghost predicate Valid()
      reads this
    {
      TableOk(mounts) && Canonical(cwd)
    }

    /** init_vfs. */
    constructor ()
      ensures Valid() && cwd == "/" && forall i :: 0 <= i < MAX_MOUNTS ==> !mounts[i].used
    {
      mounts := seq(MAX_MOUNTS, _ => Slot(false, "", 0));
      cwd := "/";
      new;
      assert Comps("/") == Comps("/"[1..]) == [];
    }

    /** vfs_abspath accepts the path. */
    ghost predicate PathOk(path: string, size: nat)
      reads this`cwd
    {
      && path != ""
      && (if path[0] == '/' then Accepts(path, size) else |cwd| + 1 + |path| < PATH_MAX && Accepts(cwd + "/" + path, size))
    }

    /** The canonical path that a path stands for: a relative one goes on from the working directory's components. */
    ghost function Absolute(path: string): string
      requires path != ""
      reads this`cwd
    {
      Render(Fold(if path[0] == '/' then [] else Comps(cwd), Comps(path)))
    }

    /** vfs_abspath. */
    method Abspath(path: string, out: array<char>) returns (rc: int, n: nat)
      requires Valid()
      modifies out
      ensures rc == VFS_OK || rc == VFS_ERR_INVAL
      ensures rc == VFS_OK <==> PathOk(path, out.Length)
      ensures rc == VFS_OK ==> n < out.Length && Holds(out, n, Absolute(path))
    {
      hide Fold, Fits, Comps, Render;
      n := 0;
      if path == "" {
        return VFS_ERR_INVAL, n;
      }
      if path[0] == '/' {
        rc, n := Normalize(path, out);
        return;
      }
      if |cwd| + 1 + |path| >= PATH_MAX {
        return VFS_ERR_INVAL, n;
      }
      rc, n := Normalize(cwd + "/" + path, out);
      CompsJoin(cwd, path);
      FoldConcat([], Comps(cwd), Comps(path));
      CwdFolds(cwd);
    }

    lemma CwdFolds(p: string)
      requires Canonical(p)
      ensures Fold([], Comps(p)) == Comps(p)
    {
      FoldIsPush([], Comps(p));
      assert [] + Comps(p) == Comps(p);
    }

    /**
     vfs_resolve on a canonical path: the one mount with the most components above
     it, and a relative part that rebuilds the path; none only if no mount is above it.
     */
    method Resolve(path: string) returns (best: int, rel: string)
      requires Valid() && Canonical(path)
      ensures -1 <= best < MAX_MOUNTS
      ensures best == -1 ==> forall k: nat :: !Covers(mounts, k, path)
      ensures best >= 0 ==> Covers(mounts, best, path)
      ensures best >= 0 ==> forall k: nat :: Covers(mounts, k, path) && k != best ==>
                |Comps(mounts[k].mountpoint)| < |Comps(mounts[best].mountpoint)|
      ensures best >= 0 ==> Render(Comps(mounts[best].mountpoint) + Comps(rel)) == path
      ensures best >= 0 ==> Comps(mounts[best].mountpoint) + Comps(rel) == Comps(path)
    {
      hide Comps, Render;
      best := -1;
      rel := "";
      var bestLen := 0;
      var i := 0;
      while i < MAX_MOUNTS
        invariant 0 <= i <= MAX_MOUNTS && -1 <= best < i && bestLen == (if best < 0 then 0 else |mounts[best].mountpoint|)
        invariant best >= 0 ==> Covers(mounts, best, path) && bestLen >= 1
        invariant forall k: nat :: k < i && Covers(mounts, k, path) ==> best >= 0 && |mounts[k].mountpoint| <= bestLen
      {
        var slot := mounts[i];
        if slot.used {
          var mp := slot.mountpoint;
          var ml := |mp|;
          CanonicalLength(mp);
          if ml == 1 {
            RootComps(mp);
            if best < 0 {
              best := i;
              bestLen := ml;
            }
          } else {
            PrefixByBytes(mp, path);
            if ml <= |path| && path[0] == mp[0] && path[..ml] == mp && (ml == |path| || path[ml] == '/') {
              if ml > bestLen {
                best := i;
                bestLen := ml;
              }
            }
          }
        }
        i := i + 1;
      }
      if best < 0 {
        return;
      }
      var mp := mounts[best].mountpoint;
      CanonicalLength(path);
      if |mp| != 1 {
        PrefixByBytes(mp, path);
      }
      Rebuilt(mp, path);
      if bestLen == 1 {
        rel := path[1..];
      } else {
        rel := if bestLen < |path| then path[bestLen + 1..] else "";
      }
      forall k: nat | Covers(mounts, k, path) && k != best
        ensures |Comps(mounts[k].mountpoint)| < |Comps(mounts[best].mountpoint)|
      {
        LongerIsMore(mounts[k].mountpoint, mp, path);
        LongerIsMore(mp, mounts[k].mountpoint, path);
      }
    }

    lemma CanonicalLength(p: string)
      requires Canonical(p)
      ensures |p| >= 1 && p[0] == '/'
    {
    }

    /** vfs_locate: a successful lookup pins its mount. */
    method Locate(path: string, norm: array<char>) returns (rc: int, m: int, rel: string)
      requires Valid()
      modifies norm, this`mounts
      ensures Valid() && forall i :: 0 <= i < MAX_MOUNTS ==>
                mounts[i] == (if rc == VFS_OK && i == m then old(mounts)[i].(open := old(mounts)[i].open + 1) else old(mounts)[i])
      ensures !PathOk(path, norm.Length) ==> rc == VFS_ERR_INVAL
      ensures PathOk(path, norm.Length) && (forall k: nat :: !Covers(old(mounts), k, Absolute(path))) ==> rc == VFS_ERR_NOENT
      ensures PathOk(path, norm.Length) && (exists k: nat :: Covers(old(mounts), k, Absolute(path))) ==> rc == VFS_OK
      ensures rc == VFS_OK ==> path != "" && 0 <= m < MAX_MOUNTS && mounts[m].used
      ensures rc == VFS_OK ==>
                var p := Absolute(path);
                && Covers(old(mounts), m, p) && Comps(old(mounts)[m].mountpoint) + Comps(rel) == Comps(p)
                && forall k: nat :: Covers(old(mounts), k, p) && k != m ==>
                    |Comps(old(mounts)[k].mountpoint)| < |Comps(old(mounts)[m].mountpoint)|
    {
      hide Comps, Render, Fold;
      m, rel := -1, "";
      var n;
      rc, n := Abspath(path, norm);
      if rc != VFS_OK {
        return;
      }
      AbsIsCanonical(if path[0] == '/' then [] else Comps(cwd), path);
      m, rel := Resolve(norm[..n]);
      if m < 0 {
        return VFS_ERR_NOENT, m, rel;
      }
      ghost var k: nat := m;
      mounts := mounts[m := mounts[m].(open := mounts[m].open + 1)];
      assert Covers(old(mounts), k, Absolute(path));
      rc := VFS_OK;
    }

    lemma AbsIsCanonical(base: seq<string>, path: string)
      requires Clean(base)
      ensures Canonical(Render(Fold(base, Comps(path))))
    {
      FoldClean(base, Comps(path));
      CompsRender(Fold(base, Comps(path)));
    }

    /** The slot of a used mount with that mount point, or -1. */
    method FindMount(norm: string) returns (i: int)
      requires Valid()
      ensures -1 <= i < MAX_MOUNTS && (i >= 0 ==> mounts[i].used && mounts[i].mountpoint == norm)
      ensures i < 0 ==> forall k :: 0 <= k < MAX_MOUNTS ==> !(mounts[k].used && mounts[k].mountpoint == norm)
    {
      i := 0;
      while i < MAX_MOUNTS
        invariant 0 <= i <= MAX_MOUNTS && forall k :: 0 <= k < i ==> !(mounts[k].used && mounts[k].mountpoint == norm)
      {
        if mounts[i].used && mounts[i].mountpoint == norm {
          return;
        }
        i := i + 1;
      }
      i := -1;
    }

    method FreeSlot() returns (i: int)
      requires Valid()
      ensures -1 <= i < MAX_MOUNTS && (i >= 0 ==> !mounts[i].used)
      ensures i < 0 ==> forall k :: 0 <= k < MAX_MOUNTS ==> mounts[k].used
    {
      i := 0;
      while i < MAX_MOUNTS
        invariant 0 <= i <= MAX_MOUNTS && forall k :: 0 <= k < i ==> mounts[k].used
      {
        if !mounts[i].used {
          return;
        }
        i := i + 1;
      }
      i := -1;
    }

    /** vfs_mount, the driver found and its mount callback's result given: a taken mount point is refused. */
    method Mount(mountpoint: string, driver: bool, driverRc: int) returns (rc: int, slot: int)
      requires Valid()
      modifies this`mounts
      ensures Valid()
      ensures rc == VFS_OK ==> Accepts(mountpoint, PATH_MAX) && driver && driverRc == VFS_OK && 0 <= slot < MAX_MOUNTS
      ensures rc == VFS_OK ==> forall k :: 0 <= k < MAX_MOUNTS ==> !(old(mounts)[k].used && old(mounts)[k].mountpoint == Normal(mountpoint))
      ensures rc == VFS_OK ==> !old(mounts)[slot].used
      ensures rc == VFS_OK ==> mounts == old(mounts)[slot := Slot(true, Normal(mountpoint), old(mounts)[slot].open)]
      ensures rc != VFS_OK ==> |mounts| == |old(mounts)| && forall k :: 0 <= k < MAX_MOUNTS ==>
                mounts[k].used == old(mounts)[k].used && (mounts[k].used ==> mounts[k] == old(mounts)[k])
      ensures rc == if !Accepts(mountpoint, PATH_MAX) then VFS_ERR_INVAL else if !driver then VFS_ERR_NODEV
                    else if Mounted(old(mounts), Normal(mountpoint)) then VFS_ERR_BUSY
                    else if Full(old(mounts)) then VFS_ERR_NOSPC else driverRc
    {
      hide Comps, Render, Fold, Canonical, Accepts;
      slot := -1;
      var buf := new char[PATH_MAX];
      var n;
      rc, n := Normalize(mountpoint, buf);
      if rc != VFS_OK {
        return VFS_ERR_INVAL, slot;
      }
      var norm := buf[..n];
      NormalIsCanonical(mountpoint);
      if !driver {
        return VFS_ERR_NODEV, slot;
      }
      var taken := FindMount(norm);
      if taken >= 0 {
        return VFS_ERR_BUSY, slot;
      }
      slot := FreeSlot();
      if slot < 0 {
        return VFS_ERR_NOSPC, slot;
      }
      mounts := mounts[slot := mounts[slot].(used := true, mountpoint := norm)];
      if driverRc != VFS_OK {
        mounts := mounts[slot := mounts[slot].(used := false)];
        return driverRc, slot;
      }
      rc := VFS_OK;
    }

    /** vfs_unmount: refused while a handle pins the mount. */
    method Unmount(mountpoint: string, driverRc: int) returns (rc: int)
      requires Valid()
      modifies this`mounts
      ensures Valid() && |mounts| == |old(mounts)|
      ensures rc == VFS_OK ==> forall k :: 0 <= k < MAX_MOUNTS ==>
                if old(mounts)[k].used && old(mounts)[k].mountpoint == Normal(mountpoint)
                then !mounts[k].used && old(mounts)[k].open == 0 else mounts[k] == old(mounts)[k]
      ensures rc != VFS_OK ==> mounts == old(mounts)
      ensures rc == if !Accepts(mountpoint, PATH_MAX) then VFS_ERR_INVAL
                else if !Mounted(old(mounts), Normal(mountpoint)) then VFS_ERR_NOENT
                    else if Pinned(old(mounts), Normal(mountpoint)) then VFS_ERR_BUSY else driverRc
    {
      hide Comps, Render, Fold, Canonical, Accepts, Normal;
      var buf := new char[PATH_MAX];
      var n;
      rc, n := Normalize(mountpoint, buf);
      if rc != VFS_OK {
        return VFS_ERR_INVAL;
      }
      var i := FindMount(buf[..n]);
      if i < 0 {
        return VFS_ERR_NOENT;
      }
      if mounts[i].open > 0 {
        return VFS_ERR_BUSY;
      }
      mounts := mounts[i := mounts[i].(used := false)];
      if driverRc != VFS_OK {
        mounts := mounts[i := mounts[i].(used := true)];
        return driverRc;
      }
      rc := VFS_OK;
    }
  }
}

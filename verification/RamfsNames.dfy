/** The order of names in a directory and the count of a node's users (src/kernel/string.c:30-46; src/kernel/fs/ramfs.c:40-50). */
module RamfsNames {
  import opened FlatBytes

  /** kernel_strcmp(a, b) < 0 for names without terminators inside. */
  predicate Less(a: Bytes, b: Bytes) {
    if b == [] then false
    else if a == [] then true
    else if a[0] != b[0] then a[0] < b[0]
    else Less(a[1..], b[1..])
  }

  /** b comes after what it begins with, and otherwise the first byte in which two names differ decides. */
  lemma {:induction false} LessIs(a: Bytes, b: Bytes)
    ensures Less(a, b) <==> a < b || exists k :: 0 <= k < |a| && k < |b| && a[..k] == b[..k] && a[k] < b[k]
  {
    if a != [] && b != [] && a[0] == b[0] {
      LessIs(a[1..], b[1..]);
      assert a[1..] < b[1..] <==> a < b;
      if k :| 0 <= k < |a[1..]| && k < |b[1..]| && a[1..][..k] == b[1..][..k] && a[1..][k] < b[1..][k] {
        assert a[..k + 1] == [a[0]] + a[1..][..k] && b[..k + 1] == [b[0]] + b[1..][..k];
        assert a[k + 1] < b[k + 1];
      }
      if k :| 0 <= k < |a| && k < |b| && a[..k] == b[..k] && a[k] < b[k] {
        assert k > 0 && a[1..][..k - 1] == a[..k][1..] && b[1..][..k - 1] == b[..k][1..];
        assert a[1..][k - 1] < b[1..][k - 1];
      }
    } else if a != [] && b != [] {
      assert a[..0] == b[..0];
      if k :| 0 <= k < |a| && k < |b| && a[..k] == b[..k] && a[k] < b[k] {
        assert k == 0 || a[..k][0] == b[..k][0];
      }
    }
  }

  lemma {:induction false} LessIrreflexive(a: Bytes)
    ensures !Less(a, a)
  {
    if a != [] {
      LessIrreflexive(a[1..]);
    }
  }

  lemma {:induction false} LessTransitive(a: Bytes, b: Bytes, c: Bytes)
    requires Less(a, b) && Less(b, c)
    ensures Less(a, c)
  {
    if a != [] && a[0] == b[0] && b[0] == c[0] {
      LessTransitive(a[1..], b[1..], c[1..]);
    }
  }

  lemma {:induction false} LessTotal(a: Bytes, b: Bytes)
    ensures Less(a, b) || a == b || Less(b, a)
  {
    if a != [] && b != [] && a[0] == b[0] {
      LessTotal(a[1..], b[1..]);
      assert a == [a[0]] + a[1..] && b == [b[0]] + b[1..];
    }
  }

  ghost predicate Rising(names: seq<Bytes>) {
    forall i, j :: 0 <= i < j < |names| ==> Less(names[i], names[j])
  }

  // ----- Users of a node -----

  /** The handles of a table that stand for node n. */
  ghost function Holders(m: map<nat, nat>, n: nat): set<nat> {
    set h | h in m && m[h] == n
  }

  ghost function Users(m: map<nat, nat>, n: nat): nat {
    |Holders(m, n)|
  }

  lemma UserAdded(m: map<nat, nat>, h: nat, x: nat, n: nat)
    requires h !in m
    ensures Users(m[h := x], n) == Users(m, n) + if n == x then 1 else 0
  {
    assert Holders(m[h := x], n) == Holders(m, n) + if n == x then {h} else {};
  }

  lemma UserGone(m: map<nat, nat>, h: nat, n: nat)
    requires h in m
    ensures Users(m - {h}, n) + (if n == m[h] then 1 else 0) == Users(m, n)
  {
    assert Holders(m, n) == Holders(m - {h}, n) + if n == m[h] then {h} else {};
  }

  lemma UserMoved(m: map<nat, nat>, h: nat, x: nat, n: nat)
    requires h in m
    ensures Users(m[h := x], n) + (if n == m[h] then 1 else 0) == Users(m, n) + if n == x then 1 else 0
  {
    UserGone(m, h, n);
    UserAdded(m - {h}, h, x, n);
    assert (m - {h})[h := x] == m[h := x];
  }

  lemma NoUsers(m: map<nat, nat>, n: nat)
    ensures Users(m, n) == 0 <==> forall h :: h in m ==> m[h] != n
  {
    if Users(m, n) == 0 {
      forall h | h in m
        ensures m[h] != n
      {
        assert h !in Holders(m, n);
      }
    }
    assert (forall h :: h in m ==> m[h] != n) ==> Holders(m, n) == {};
  }
}

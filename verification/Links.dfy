/** Singly linked lists kept as next pointers by node number, and the sequences they hold. */
module Links {
  import opened Options

  type Link = Option<nat>

  ghost predicate Distinct(q: seq<nat>) {
    forall i, j :: 0 <= i < j < |q| ==> q[i] != q[j]
  }

  /** The list that starts at head and runs through next. */
  ghost predicate IsList(next: map<nat, Link>, head: Link, q: seq<nat>) {
    && head == (if q == [] then None else Some(q[0]))
    && AllOk(next, q)
  }

  ghost predicate AllOk(next: map<nat, Link>, q: seq<nat>) {
    forall i :: 0 <= i < |q| ==> LinkOk(next, q, i)
  }

  ghost predicate LinkOk(next: map<nat, Link>, q: seq<nat>, i: nat)
    requires i < |q|
  {
    q[i] in next && next[q[i]] == if i + 1 < |q| then Some(q[i + 1]) else None
  }

  ghost predicate IsQueue(next: map<nat, Link>, head: Link, tail: Link, q: seq<nat>) {
    IsList(next, head, q) && tail == if q == [] then None else Some(q[|q| - 1])
  }

  lemma Unlinked(next: map<nat, Link>, head: Link, tail: Link, q: seq<nat>, t: nat, l: Link)
    requires IsQueue(next, head, tail, q) && t !in q
    ensures IsQueue(next[t := l], head, tail, q)
  {
    var n := next[t := l];
    forall i: nat | i < |q|
      ensures LinkOk(n, q, i)
    {
      assert LinkOk(next, q, i);
    }
  }

  /** Taking node i out of the list. */
  lemma LinkPast(next: map<nat, Link>, head: Link, q: seq<nat>, i: nat)
    requires IsList(next, head, q) && i < |q| && Distinct(q)
    ensures q[i] in next
    ensures i == 0 ==> IsList(next[q[0] := None], next[q[0]], q[..0] + q[1..])
    ensures i > 0 ==> IsList(next[q[i - 1] := next[q[i]]][q[i] := None], head, q[..i] + q[i + 1..])
  {
    assert LinkOk(next, q, i);
    if i == 0 {
      assert q[..0] + q[1..] == q[1..];
      var n, r := next[q[0] := None], q[1..];
      forall j: nat | j < |r|
        ensures LinkOk(n, r, j)
      {
        assert LinkOk(next, q, j + 1);
      }
    } else {
      LinkInside(next, q, i, next[q[i]]);
    }
  }

  lemma LinkInside(next: map<nat, Link>, q: seq<nat>, i: nat, l: Link)
    requires 0 < i < |q| && Distinct(q) && AllOk(next, q)
    requires l == if i + 1 < |q| then Some(q[i + 1]) else None
    ensures AllOk(next[q[i - 1] := l][q[i] := None], q[..i] + q[i + 1..])
  {
    var n, r := next[q[i - 1] := l][q[i] := None], q[..i] + q[i + 1..];
    forall j: nat | j < |r|
      ensures LinkOk(n, r, j)
    {
      assert LinkOk(next, q, if j < i then j else j + 1);
    }
  }

  /** A node put in front. */
  lemma Prepended(next: map<nat, Link>, head: Link, q: seq<nat>, t: nat)
    requires IsList(next, head, q) && t !in q
    ensures IsList(next[t := head], Some(t), [t] + q)
  {
    var n, r := next[t := head], [t] + q;
    forall i: nat | i < |r|
      ensures LinkOk(n, r, i)
    {
      if i > 0 {
        assert LinkOk(next, q, i - 1);
      }
    }
  }

  /** q without its first, and q with one more at the end. */
  lemma FirstRemoved(next: map<nat, Link>, head: Link, tail: Link, q: seq<nat>)
    requires IsQueue(next, head, tail, q) && q != [] && Distinct(q)
    ensures q[0] in next && IsQueue(next[q[0] := None], next[q[0]], if next[q[0]] == None then None else tail, q[1..])
  {
    LinkPast(next, head, q, 0);
    assert LinkOk(next, q, 0) && q[..0] + q[1..] == q[1..];
  }

  lemma OneQueued(next: map<nat, Link>, head: Link, tail: Link, q: seq<nat>, t: nat)
    requires IsQueue(next, head, tail, q) && Distinct(q) && t !in q && t in next && next[t] == None
    ensures q == [] ==> IsQueue(next, Some(t), Some(t), q + [t])
    ensures q != [] ==> IsQueue(next[q[|q| - 1] := Some(t)], head, Some(t), q + [t])
  {
    var r := q + [t];
    var n := if q == [] then next else next[q[|q| - 1] := Some(t)];
    forall i: nat | i < |r|
      ensures LinkOk(n, r, i)
    {
      if i < |q| {
        assert LinkOk(next, q, i);
      }
    }
  }

  /** A node put in at index k. */
  lemma InsertedAt(next: map<nat, Link>, head: Link, q: seq<nat>, k: nat, x: nat)
    requires IsList(next, head, q) && Distinct(q) && x !in q && k <= |q|
    ensures var n := next[x := if k < |q| then Some(q[k]) else None];
            if k == 0 then IsList(n, Some(x), q[..k] + [x] + q[k..]) else IsList(n[q[k - 1] := Some(x)], head, q[..k] + [x] + q[k..])
  {
    var n := next[x := if k < |q| then Some(q[k]) else None];
    var n' := if k == 0 then n else n[q[k - 1] := Some(x)];
    var r := q[..k] + [x] + q[k..];
    forall j: nat | j < |r|
      ensures LinkOk(n', r, j)
    {
      if j != k {
        assert LinkOk(next, q, if j < k then j else j - 1);
      }
    }
  }

  /** What pp reads when it stands behind the first i nodes: the head, or the link of node i - 1. */
  lemma Points(next: map<nat, Link>, head: Link, q: seq<nat>, i: nat)
    requires IsList(next, head, q) && i <= |q|
    ensures i > 0 ==> q[i - 1] in next
    ensures (if i == 0 then head else next[q[i - 1]]) == if i < |q| then Some(q[i]) else None
  {
    if i > 0 {
      assert LinkOk(next, q, i - 1);
    }
  }
}

/**
 The file allocation table as a map: what it means for the live cluster chains
 to be acyclic, disjoint and end-marked, for the nonzero entries to be exactly
 the chained clusters, and how allocating, linking and freeing keep it so.
 */
module FatMap {
  const FAT_LIMIT := 0x1000_0000
  const EOC := 0x0fff_fff8
  const BAD := 0x0fff_fff7

  type Fat = seq<nat>

  /** The book of live chains: head -> clusters, and cluster -> (head, index). */
  datatype Book = Book(chains: map<nat, seq<nat>>, own: map<nat, (nat, nat)>)

  predicate ValidClus(n: nat, c: nat) {
    2 <= c < n
  }

  /** The entries 2..n of the table, as large as a FAT32 volume may be. */
  ghost predicate Table(fat: Fat, n: nat) {
    && 2 <= n <= BAD
    && |fat| == n
    && forall c :: 0 <= c < n ==> fat[c] < FAT_LIMIT
  }

  /** Clusters linked one to the next, the last one end-marked. */
  ghost predicate Linked(fat: Fat, n: nat, ch: seq<nat>)
    requires |fat| == n
  {
    && ch != []
    && (forall i :: 0 <= i < |ch| ==> ValidClus(n, ch[i]))
    && (forall i :: 0 <= i < |ch| - 1 ==> fat[ch[i]] == ch[i + 1])
    && fat[ch[|ch| - 1]] >= EOC
  }

  ghost predicate Placed(b: Book, c: nat)
    requires c in b.own
  {
    b.own[c].0 in b.chains && b.own[c].1 < |b.chains[b.own[c].0]| && b.chains[b.own[c].0][b.own[c].1] == c
  }

  /** Every cluster of a chain knows its chain and its place, and no other chain has it. */
  ghost predicate Indexed(b: Book) {
    && (forall h, i :: h in b.chains && 0 <= i < |b.chains[h]| ==> b.chains[h][i] in b.own && b.own[b.chains[h][i]] == (h, i))
    && (forall c :: c in b.own ==> Placed(b, c))
  }

  ghost predicate AllLinked(fat: Fat, n: nat, b: Book)
    requires |fat| == n
  {
    forall h :: h in b.chains ==> Linked(fat, n, b.chains[h]) && b.chains[h][0] == h
  }

  /** Bad marks aside, the nonzero entries are exactly the chained clusters. */
  ghost predicate Covered(fat: Fat, n: nat, b: Book)
    requires |fat| == n
  {
    forall c: nat :: ValidClus(n, c) ==> (c in b.own <==> fat[c] != 0 && fat[c] != BAD)
  }

  ghost predicate Wf(fat: Fat, n: nat, b: Book) {
    && Table(fat, n)
    && Indexed(b)
    && AllLinked(fat, n, b)
    && Covered(fat, n, b)
  }

  ghost function AllocBook(b: Book, c: nat): Book {
    Book(b.chains[c := [c]], b.own[c := (c, 0)])
  }

  /** The one-cluster chain c becomes the end of chain h. */
  ghost function LinkBook(b: Book, h: nat, c: nat): Book
    requires h in b.chains
  {
    Book((b.chains - {c})[h := b.chains[h] + [c]], b.own[c := (h, |b.chains[h]|)])
  }

  ghost function FreeBook(b: Book, h: nat): Book
    requires h in b.chains
  {
    Book(b.chains - {h}, map c | c in b.own && b.own[c].0 != h :: b.own[c])
  }

  /** The zero entries in 2..k. */
  ghost function FreeCount(fat: Fat, k: nat): nat
    requires k <= |fat|
  {
    if k <= 2 then 0 else FreeCount(fat, k - 1) + if fat[k - 1] == 0 then 1 else 0
  }

  lemma {:induction false} FreeCountSet(fat: Fat, k: nat, c: nat, v: nat)
    requires 2 <= c < |fat| && k <= |fat|
    ensures FreeCount(fat[c := v], k) == FreeCount(fat, k)
              + (if c < k then (if v == 0 then 1 else 0) - (if fat[c] == 0 then 1 else 0) else 0)
  {
    if k > 2 {
      FreeCountSet(fat, k - 1, c, v);
    }
  }

  lemma {:induction false} FreeCountPositive(fat: Fat, k: nat, c: nat)
    requires 2 <= c < k <= |fat| && fat[c] == 0
    ensures FreeCount(fat, k) > 0
  {
    if c < k - 1 {
      FreeCountPositive(fat, k - 1, c);
    }
  }

  lemma OwnsItself(b: Book, h: nat, i: nat)
    requires Indexed(b) && h in b.chains && i < |b.chains[h]|
    ensures b.chains[h][i] in b.own && b.own[b.chains[h][i]] == (h, i)
  {
  }

  lemma ChainFacts(fat: Fat, n: nat, b: Book, h: nat)
    requires |fat| == n && AllLinked(fat, n, b) && h in b.chains
    ensures b.chains[h] != [] && b.chains[h][0] == h
    ensures forall i :: 0 <= i < |b.chains[h]| ==> ValidClus(n, b.chains[h][i])
  {
    assert Linked(fat, n, b.chains[h]);
  }

  lemma HeadOf(fat: Fat, n: nat, b: Book, h: nat)
    requires Wf(fat, n, b) && h in b.chains
    ensures b.chains[h] != [] && b.chains[h][0] == h && ValidClus(n, h)
  {
    ChainFacts(fat, n, b, h);
  }

  /** A chain none of whose entries changed is still linked. */
  lemma StillLinked(fat: Fat, fat': Fat, n: nat, b: Book, h: nat)
    requires |fat| == |fat'| == n && Indexed(b) && AllLinked(fat, n, b) && h in b.chains
    requires forall c: nat :: ValidClus(n, c) && c in b.own && b.own[c].0 == h ==> fat'[c] == fat[c]
    ensures Linked(fat', n, b.chains[h]) && b.chains[h] != [] && b.chains[h][0] == h
  {
    var ch := b.chains[h];
    assert Linked(fat, n, ch);
    forall i | 0 <= i < |ch|
      ensures ValidClus(n, ch[i]) && fat'[ch[i]] == fat[ch[i]]
    {
      OwnsItself(b, h, i);
    }
  }

  lemma AllocFresh(fat: Fat, n: nat, b: Book, c: nat)
    requires Wf(fat, n, b) && ValidClus(n, c) && fat[c] == 0
    ensures c !in b.own && c !in b.chains
  {
    if c in b.chains {
      ChainFacts(fat, n, b, c);
      OwnsItself(b, c, 0);
      assert false;
    }
  }

  lemma AllocLinked(fat: Fat, n: nat, b: Book, c: nat)
    requires Wf(fat, n, b) && ValidClus(n, c) && fat[c] == 0
    ensures AllLinked(fat[c := EOC], n, AllocBook(b, c))
  {
    hide Linked, Indexed;
    var fat', b' := fat[c := EOC], AllocBook(b, c);
    AllocFresh(fat, n, b, c);
    forall h | h in b'.chains
      ensures Linked(fat', n, b'.chains[h]) && b'.chains[h] != [] && b'.chains[h][0] == h
    {
      if h == c {
        SingleLinked(fat', n, c);
      } else {
        StillLinked(fat, fat', n, b, h);
      }
    }
  }

  /** Taking a zero entry for a new one-cluster chain keeps the table well formed. */
  lemma AllocKeeps(fat: Fat, n: nat, b: Book, c: nat)
    requires Wf(fat, n, b) && ValidClus(n, c) && fat[c] == 0
    ensures c !in b.own && c !in b.chains
    ensures Wf(fat[c := EOC], n, AllocBook(b, c))
  {
    hide Linked, Indexed, AllLinked;
    AllocFresh(fat, n, b, c);
    AllocIndexed(b, c);
    AllocLinked(fat, n, b, c);
  }

  lemma SingleLinked(fat: Fat, n: nat, c: nat)
    requires |fat| == n && ValidClus(n, c) && fat[c] >= EOC
    ensures Linked(fat, n, [c])
  {
  }

  lemma AllocIndexed(b: Book, c: nat)
    requires Indexed(b) && c !in b.own && c !in b.chains
    ensures Indexed(AllocBook(b, c))
  {
    var b' := AllocBook(b, c);
    forall k, i | k in b'.chains && 0 <= i < |b'.chains[k]|
      ensures b'.chains[k][i] in b'.own && b'.own[b'.chains[k][i]] == (k, i)
    {
      if k != c {
        OwnsItself(b, k, i);
      }
    }
    forall d | d in b'.own
      ensures Placed(b', d)
    {
      assert d != c ==> Placed(b, d);
    }
  }

  lemma LinkLinked(fat: Fat, n: nat, b: Book, h: nat, c: nat)
    requires Wf(fat, n, b) && h in b.chains && c in b.chains && h != c && b.chains[c] == [c]
    ensures b.chains[h] != [] && ValidClus(n, Last(b.chains[h])) && ValidClus(n, c)
    ensures AllLinked(fat[Last(b.chains[h]) := c], n, LinkBook(b, h, c))
  {
    hide Linked, Indexed, Covered;
    ChainFacts(fat, n, b, h);
    ChainFacts(fat, n, b, c);
    OwnsItself(b, h, |b.chains[h]| - 1);
    OwnsItself(b, c, 0);
    assert b.chains[c][0] == c;
    var fat', b' := fat[Last(b.chains[h]) := c], LinkBook(b, h, c);
    forall k | k in b'.chains
      ensures Linked(fat', n, b'.chains[k]) && b'.chains[k] != [] && b'.chains[k][0] == k
    {
      if k == h {
        LinkedLonger(fat, n, b, h, c);
      } else {
        StillLinked(fat, fat', n, b, k);
      }
    }
  }

  /** Linking a one-cluster chain behind another chain keeps the table well formed. */
  lemma LinkKeeps(fat: Fat, n: nat, b: Book, h: nat, c: nat)
    requires Wf(fat, n, b) && h in b.chains && c in b.chains && h != c && b.chains[c] == [c]
    ensures b.chains[h] != [] && Last(b.chains[h]) < n
    ensures Wf(fat[Last(b.chains[h]) := c], n, LinkBook(b, h, c))
  {
    hide Linked, Indexed, AllLinked, Covered;
    LinkLinked(fat, n, b, h, c);
    LinkIndexed(b, h, c);
    LinkCovered(fat, n, b, h, c);
  }

  lemma LinkCovered(fat: Fat, n: nat, b: Book, h: nat, c: nat)
    requires Wf(fat, n, b) && h in b.chains && c in b.chains && h != c && b.chains[c] == [c]
    ensures b.chains[h] != [] && Last(b.chains[h]) < n
    ensures Covered(fat[Last(b.chains[h]) := c], n, LinkBook(b, h, c))
  {
    hide Linked, Indexed, AllLinked;
    ChainFacts(fat, n, b, h);
    ChainFacts(fat, n, b, c);
    assert b.chains[c][0] == c && ValidClus(n, c);
    OwnsItself(b, h, |b.chains[h]| - 1);
    OwnsItself(b, c, 0);
  }

  function Last(ch: seq<nat>): nat
    requires ch != []
  {
    ch[|ch| - 1]
  }

  lemma LinkedLonger(fat: Fat, n: nat, b: Book, h: nat, c: nat)
    requires Wf(fat, n, b) && h in b.chains && c in b.chains && h != c && b.chains[c] == [c]
    requires b.chains[h] != [] && Last(b.chains[h]) < n
    ensures Linked(fat[Last(b.chains[h]) := c], n, b.chains[h] + [c])
  {
    var ch := b.chains[h];
    assert Linked(fat, n, ch) && Linked(fat, n, [c]);
    OwnsItself(b, c, 0);
    OwnsItself(b, h, |ch| - 1);
    hide Indexed, Covered, AllLinked;
    var ch', fat' := ch + [c], fat[Last(ch) := c];
    forall i | 0 <= i < |ch'| - 1
      ensures fat'[ch'[i]] == ch'[i + 1]
    {
      OwnsItself(b, h, i);
    }
  }

  lemma LinkIndexed(b: Book, h: nat, c: nat)
    requires Indexed(b) && h in b.chains && c in b.chains && h != c && b.chains[c] == [c]
    ensures Indexed(LinkBook(b, h, c))
  {
    var b' := LinkBook(b, h, c);
    OwnsItself(b, c, 0);
    forall k, i | k in b'.chains && 0 <= i < |b'.chains[k]|
      ensures b'.chains[k][i] in b'.own && b'.own[b'.chains[k][i]] == (k, i)
    {
      if k != h || i < |b.chains[h]| {
        OwnsItself(b, k, i);
      }
    }
    forall d | d in b'.own
      ensures Placed(b', d)
    {
      assert d != c ==> Placed(b, d);
    }
  }

  /** The table with the first k clusters of ch freed. */
  ghost function Cleared(fat: Fat, ch: seq<nat>, k: nat): (r: Fat)
    requires k <= |ch| && forall i :: 0 <= i < |ch| ==> ch[i] < |fat|
    ensures |r| == |fat|
  {
    if k == 0 then fat else Cleared(fat, ch, k - 1)[ch[k - 1] := 0]
  }

  lemma {:induction false} ClearedAt(fat: Fat, ch: seq<nat>, k: nat, c: nat)
    requires k <= |ch| && c < |fat| && forall i :: 0 <= i < |ch| ==> ch[i] < |fat|
    ensures Cleared(fat, ch, k)[c] == if c in ch[..k] then 0 else fat[c]
  {
    if k > 0 {
      ClearedAt(fat, ch, k - 1, c);
      assert ch[..k] == ch[..k - 1] + [ch[k - 1]];
    }
  }

  /** Clearing in chain order meets each next link unchanged. */
  lemma ClearedLink(fat: Fat, n: nat, b: Book, h: nat, k: nat)
    requires Wf(fat, n, b) && h in b.chains && k < |b.chains[h]|
    ensures forall i :: 0 <= i < |b.chains[h]| ==> b.chains[h][i] < |fat|
    ensures var c := b.chains[h][k];
            && ValidClus(n, c) && Cleared(fat, b.chains[h], k)[c] == fat[c] != 0
            && (k + 1 < |b.chains[h]| ==> fat[c] == b.chains[h][k + 1] && ValidClus(n, fat[c]))
            && (k + 1 == |b.chains[h]| ==> fat[c] >= EOC)
  {
    hide Covered, Cleared;
    ChainFacts(fat, n, b, h);
    var ch := b.chains[h];
    ClearedAt(fat, ch, k, ch[k]);
    if ch[k] in ch[..k] {
      var j :| 0 <= j < k && ch[j] == ch[k];
      ChainsDisjoint(fat, n, b, h, j, h, k);
      assert false;
    }
    assert Linked(fat, n, ch);
    EntryNonzero(fat, n, b, h, k);
  }

  lemma ClearedNext(fat: Fat, ch: seq<nat>, k: nat)
    requires k < |ch| && forall i :: 0 <= i < |ch| ==> ch[i] < |fat|
    ensures Cleared(fat, ch, 0) == fat
    ensures Cleared(fat, ch, k + 1) == Cleared(fat, ch, k)[ch[k] := 0]
  {
  }

  lemma EntryNonzero(fat: Fat, n: nat, b: Book, h: nat, k: nat)
    requires Wf(fat, n, b) && h in b.chains && k < |b.chains[h]|
    ensures ValidClus(n, b.chains[h][k]) && fat[b.chains[h][k]] != 0 && b.chains[h][k] in b.own
  {
    ChainFacts(fat, n, b, h);
    OwnsItself(b, h, k);
  }

  lemma FreedIndexed(b: Book, h: nat)
    requires Indexed(b) && h in b.chains
    ensures Indexed(FreeBook(b, h))
    ensures forall c :: c in b.chains[h] <==> c in b.own && b.own[c].0 == h
  {
    var b' := FreeBook(b, h);
    forall k, i | k in b'.chains && 0 <= i < |b'.chains[k]|
      ensures b'.chains[k][i] in b'.own && b'.own[b'.chains[k][i]] == (k, i)
    {
      OwnsItself(b, k, i);
    }
    forall d | d in b'.own
      ensures Placed(b', d)
    {
      assert Placed(b, d);
    }
    forall d
      ensures d in b.chains[h] <==> d in b.own && b.own[d].0 == h
    {
      if d in b.own && b.own[d].0 == h {
        assert Placed(b, d);
      }
    }
  }

  lemma FreedAt(fat: Fat, n: nat, b: Book, h: nat, c: nat)
    requires Wf(fat, n, b) && h in b.chains && c < n
    ensures forall i :: 0 <= i < |b.chains[h]| ==> b.chains[h][i] < |fat|
    ensures Cleared(fat, b.chains[h], |b.chains[h]|)[c] == if c in b.own && b.own[c].0 == h then 0 else fat[c]
  {
    hide Linked, Indexed, Covered, AllLinked, Cleared;
    ChainFacts(fat, n, b, h);
    FreedIndexed(b, h);
    ClearedAt(fat, b.chains[h], |b.chains[h]|, c);
    assert b.chains[h][..|b.chains[h]|] == b.chains[h];
  }

  lemma FreedLinked(fat: Fat, fat': Fat, n: nat, b: Book, h: nat)
    requires Wf(fat, n, b) && h in b.chains && |fat'| == n
    requires forall c: nat :: c < n ==> fat'[c] == if c in b.own && b.own[c].0 == h then 0 else fat[c]
    ensures AllLinked(fat', n, FreeBook(b, h))
  {
    hide Linked, Indexed, Covered;
    var b' := FreeBook(b, h);
    forall k | k in b'.chains
      ensures Linked(fat', n, b'.chains[k]) && b'.chains[k] != [] && b'.chains[k][0] == k
    {
      StillLinked(fat, fat', n, b, k);
    }
  }

  /** Freeing a whole chain keeps the table well formed. */
  lemma FreeKeeps(fat: Fat, n: nat, b: Book, h: nat)
    requires Wf(fat, n, b) && h in b.chains
    ensures forall i :: 0 <= i < |b.chains[h]| ==> b.chains[h][i] < |fat|
    ensures Wf(Cleared(fat, b.chains[h], |b.chains[h]|), n, FreeBook(b, h))
  {
    hide Linked, Indexed, AllLinked, Cleared;
    ChainFacts(fat, n, b, h);
    var fat' := Cleared(fat, b.chains[h], |b.chains[h]|);
    forall c: nat | c < n
      ensures fat'[c] == if c in b.own && b.own[c].0 == h then 0 else fat[c]
    {
      FreedAt(fat, n, b, h, c);
    }
    FreedLinked(fat, fat', n, b, h);
    FreedIndexed(b, h);
  }

  // ----- What a well formed table promises -----

  /** No cluster is reached twice: chains are acyclic and pairwise disjoint. */
  lemma ChainsDisjoint(fat: Fat, n: nat, b: Book, h: nat, i: nat, k: nat, j: nat)
    requires Wf(fat, n, b) && h in b.chains && k in b.chains && i < |b.chains[h]| && j < |b.chains[k]|
    ensures b.chains[h][i] == b.chains[k][j] <==> h == k && i == j
  {
    assert b.own[b.chains[h][i]] == (h, i) && b.own[b.chains[k][j]] == (k, j);
  }

  /** Following the table from the head visits exactly the chain and then an end mark. */
  ghost function Walk(fat: Fat, n: nat, c: nat, steps: nat): (r: seq<nat>)
    requires |fat| == n
    decreases steps
  {
    if steps == 0 || !ValidClus(n, c) then [] else [c] + Walk(fat, n, fat[c], steps - 1)
  }

  lemma {:induction false} WalkIsChain(fat: Fat, n: nat, ch: seq<nat>, i: nat, steps: nat)
    requires n <= BAD && |fat| == n && Linked(fat, n, ch) && i < |ch| && steps >= |ch| - i
    ensures Walk(fat, n, ch[i], steps) == ch[i..]
    decreases steps
  {
    if i == |ch| - 1 {
      assert Walk(fat, n, fat[ch[i]], steps - 1) == [];
    } else {
      WalkIsChain(fat, n, ch, i + 1, steps - 1);
    }
    assert ch[i..] == [ch[i]] + ch[i + 1..];
  }

  /** Distinct numbers below k are at most k many. */
  lemma {:induction false} Pigeonhole(s: seq<nat>, k: nat)
    requires forall i :: 0 <= i < |s| ==> s[i] < k
    requires forall i, j :: 0 <= i < j < |s| ==> s[i] != s[j]
    ensures |s| <= k
  {
    if s != [] {
      assert s[0] < k;
      if j :| 0 <= j < |s| && s[j] == k - 1 {
        Pigeonhole(s[..j] + s[j + 1..], k - 1);
      } else {
        Pigeonhole(s, k - 1);
      }
    }
  }

  /** A chain is no longer than the number of data clusters. */
  lemma ChainLength(fat: Fat, n: nat, b: Book, h: nat)
    requires Wf(fat, n, b) && h in b.chains
    ensures 0 < |b.chains[h]| <= n - 2
  {
    var ch := b.chains[h];
    assert Linked(fat, n, ch);
    var s := seq(|ch|, i requires 0 <= i < |ch| => (ch[i] - 2) as nat);
    forall i, j | 0 <= i < j < |s|
      ensures s[i] != s[j]
    {
      ChainsDisjoint(fat, n, b, h, i, h, j);
    }
    Pigeonhole(s, n - 2);
  }

  // ----- The allocator's choice -----

  ghost function FirstZero(fat: Fat, from: nat): (r: nat)
    requires from <= |fat|
    ensures from <= r <= |fat| && (r < |fat| ==> fat[r] == 0)
    ensures forall d :: from <= d < r ==> fat[d] != 0
    decreases |fat| - from
  {
    if from == |fat| || fat[from] == 0 then from else FirstZero(fat, from + 1)
  }

  /** The first zero entry from the hint on, else the first of all, else 0. */
  ghost function PickFree(fat: Fat, hint: nat): nat
    requires |fat| >= 2
  {
    var a := FirstZero(fat, if ValidClus(|fat|, hint) then hint else 2);
    if a < |fat| then a
    else if FirstZero(fat, 2) < |fat| then FirstZero(fat, 2)
    else 0
  }

  /** Allocation fails only when no entry is zero, whatever the hint. */
  /** No cluster is free. */
  ghost predicate Full(fat: Fat) {
    forall c: nat :: ValidClus(|fat|, c) ==> fat[c] != 0
  }

  /** At most one cluster is free. */
  ghost predicate OneLeft(fat: Fat) {
    forall c: nat, d: nat :: ValidClus(|fat|, c) && ValidClus(|fat|, d) && c != d ==> fat[c] != 0 || fat[d] != 0
  }

  /** The first free cluster from the hint on, else the first of all; none exactly if the volume is full. */
  lemma PickFreeFinds(fat: Fat, hint: nat)
    requires |fat| >= 2
    ensures PickFree(fat, hint) == 0 <==> Full(fat)
    ensures PickFree(fat, hint) != 0 ==> ValidClus(|fat|, PickFree(fat, hint)) && fat[PickFree(fat, hint)] == 0
    ensures PickFree(fat, hint) != 0 ==>
              forall c: nat :: ValidClus(|fat|, c) && fat[c] == 0 && (c >= hint <==> PickFree(fat, hint) >= hint) ==>
                PickFree(fat, hint) <= c
    ensures PickFree(fat, hint) < hint ==> forall c: nat :: ValidClus(|fat|, c) && c >= hint ==> fat[c] != 0
  {
    if PickFree(fat, hint) == 0 {
      assert FirstZero(fat, 2) == |fat|;
    }
  }

  /** The free clusters, as a set. */
  ghost function Zeroes(fat: Fat, k: nat): (s: set<nat>)
    requires k <= |fat|
    ensures forall c: nat :: c in s <==> 2 <= c < k && fat[c] == 0
  {
    set c | 2 <= c < k && fat[c] == 0
  }

  /** The free count is the number of free clusters. */
  lemma {:induction false} FreeCountIsSize(fat: Fat, k: nat)
    requires k <= |fat|
    ensures FreeCount(fat, k) == |Zeroes(fat, k)|
  {
    if k <= 2 {
      assert Zeroes(fat, k) == {};
    } else {
      FreeCountIsSize(fat, k - 1);
      if fat[k - 1] == 0 {
        assert Zeroes(fat, k) == Zeroes(fat, k - 1) + {k - 1};
      } else {
        assert Zeroes(fat, k) == Zeroes(fat, k - 1);
      }
    }
  }

  lemma {:induction false} FreeCountBound(fat: Fat, k: nat)
    requires k <= |fat|
    ensures FreeCount(fat, k) <= k
  {
    if k > 2 {
      FreeCountBound(fat, k - 1);
    }
  }
}

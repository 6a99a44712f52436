/**
 The byte-level theory shared by every layer that moves bytes over fixed-size
 blocks: flattening a sequence of blocks, cutting a slice out of it and
 splicing bytes into it.
 */
module FlatBytes {
  type Byte = x: int | 0 <= x < 256
  type Bytes = seq<Byte>

  function Min(a: int, b: int): int {
    if a < b then a else b
  }

  /** The size of n blocks: n * bs, added up so that proofs stay linear. */
  function Size(n: nat, bs: nat): nat {
    if n == 0 then 0 else Size(n - 1, bs) + bs
  }

  /** The block that holds byte a: a / bs, counted out so that proofs stay linear. */
  function Quot(a: nat, bs: nat): (q: nat)
    requires bs > 0
    ensures Size(q, bs) <= a < Size(q, bs) + bs
  {
    if a < bs then 0 else 1 + Quot(a - bs, bs)
  }

  /** The offset of byte a in its block: a % bs. */
  function Rem(a: nat, bs: nat): (r: nat)
    requires bs > 0
    ensures r < bs && a == Size(Quot(a, bs), bs) + r
  {
    a - Size(Quot(a, bs), bs)
  }

  lemma {:induction false} SizeIsProduct(n: nat, bs: nat)
    ensures Size(n, bs) == n * bs
  {
    if n > 0 {
      SizeIsProduct(n - 1, bs);
      assert n * bs == (n - 1) * bs + bs;
    }
  }

  lemma ProductGap(a: nat, b: nat, bs: nat)
    requires a < b
    ensures a * bs + bs <= b * bs
  {
    assert b * bs == a * bs + bs + (b - a - 1) * bs;
  }

  lemma QuotientUnique(a: nat, q: nat, q': nat, bs: nat)
    requires q * bs <= a < q * bs + bs && q' * bs <= a < q' * bs + bs
    ensures q == q'
  {
    if q < q' {
      ProductGap(q, q', bs);
    } else if q' < q {
      ProductGap(q', q, bs);
    }
  }

  lemma QuotIsDivision(a: nat, bs: nat)
    requires bs > 0
    ensures Quot(a, bs) == a / bs && Rem(a, bs) == a % bs
  {
    var q := Quot(a, bs);
    SizeIsProduct(q, bs);
    hide Quot, Size;
    assert (a / bs) * bs <= a < (a / bs) * bs + bs && a == (a / bs) * bs + a % bs;
    QuotientUnique(a, q, a / bs, bs);
  }

  lemma {:induction false} SizeAdd(a: nat, b: nat, bs: nat)
    ensures Size(a + b, bs) == Size(a, bs) + Size(b, bs)
  {
    if b > 0 {
      SizeAdd(a, b - 1, bs);
    }
  }

  lemma SizeNext(n: nat, bs: nat)
    ensures Size(0, bs) == 0 && Size(1, bs) == bs && Size(n + 1, bs) == Size(n, bs) + bs
  {
    assert Size(1, bs) == Size(0, bs) + bs;
  }

  lemma SizeMono(a: nat, b: nat, bs: nat)
    requires a <= b
    ensures Size(a, bs) <= Size(b, bs)
    ensures a < b ==> Size(a, bs) + bs <= Size(b, bs)
  {
    SizeAdd(a, b - a, bs);
    if a < b {
      SizeAdd(a + 1, b - a - 1, bs);
    }
  }

  lemma SizeCancel(a: nat, b: nat, bs: nat)
    requires bs > 0 && Size(a, bs) < Size(b, bs) + bs
    ensures a <= b
  {
    if b < a {
      SizeMono(b, a, bs);
    }
  }

  lemma QuotUnique(q: nat, r: nat, bs: nat)
    requires r < bs
    ensures Quot(Size(q, bs) + r, bs) == q && Rem(Size(q, bs) + r, bs) == r
  {
    SizeCancel(q, Quot(Size(q, bs) + r, bs), bs);
    SizeCancel(Quot(Size(q, bs) + r, bs), q, bs);
  }

  /** A byte below n blocks lies in one of them. */
  lemma QuotBelow(a: nat, bs: nat, n: nat)
    requires bs > 0 && a < Size(n, bs)
    ensures Quot(a, bs) < n
  {
    SizeCancel(Quot(a, bs) + 1, n, bs);
  }

  lemma QuotMono(a: nat, b: nat, bs: nat)
    requires bs > 0 && a <= b
    ensures Quot(a, bs) <= Quot(b, bs)
  {
    SizeCancel(Quot(a, bs), Quot(b, bs), bs);
  }

  ghost function Zeros(n: nat): (r: Bytes)
    ensures |r| == n
  {
    seq(n, _ => 0)
  }

  /** Every block holds exactly bs bytes. */
  ghost predicate Uniform<T>(blocks: seq<seq<T>>, bs: nat) {
    forall i :: 0 <= i < |blocks| ==> |blocks[i]| == bs
  }

  ghost function Flat<T>(blocks: seq<seq<T>>): seq<T> {
    if blocks == [] then [] else blocks[0] + Flat(blocks[1..])
  }

  /** The bytes of s with data written over those from pos on. */
  function Splice<T>(s: seq<T>, pos: nat, data: seq<T>): (r: seq<T>)
    requires pos + |data| <= |s|
    ensures |r| == |s|
  {
    s[..pos] + data + s[pos + |data|..]
  }

  lemma Associate<T>(x: seq<T>, y: seq<T>, z: seq<T>)
    ensures x + (y + z) == (x + y) + z
  {
  }

  /** The middle of three parts is a slice, and replacing it is a splice. */
  lemma Middle<T>(x: seq<T>, y: seq<T>, y': seq<T>, z: seq<T>)
    requires |y| == |y'|
    ensures (x + y + z)[|x|..|x| + |y|] == y
    ensures Splice(x + y + z, |x|, y') == x + y' + z
  {
  }

  lemma CutThree<T>(s: seq<T>, k: nat, m: nat)
    requires k + m <= |s|
    ensures s == s[..k] + s[k..k + m] + s[k + m..]
  {
  }

  lemma {:induction false} FlatLength<T>(blocks: seq<seq<T>>, bs: nat)
    requires Uniform(blocks, bs)
    ensures |Flat(blocks)| == Size(|blocks|, bs)
  {
    if blocks != [] {
      FlatLength(blocks[1..], bs);
    }
  }

  lemma {:induction false} FlatConcat<T>(a: seq<seq<T>>, b: seq<seq<T>>)
    ensures Flat(a + b) == Flat(a) + Flat(b)
  {
    if a == [] {
      assert a + b == b;
    } else {
      FlatConcat(a[1..], b);
      assert (a + b)[1..] == a[1..] + b && (a + b)[0] == a[0];
      Associate(a[0], Flat(a[1..]), Flat(b));
    }
  }

  lemma FlatConcat3<T>(a: seq<seq<T>>, b: seq<seq<T>>, c: seq<seq<T>>)
    ensures Flat(a + b + c) == Flat(a) + Flat(b) + Flat(c)
  {
    FlatConcat(a + b, c);
    FlatConcat(a, b);
  }

  lemma FlatMiddle<T>(a: seq<seq<T>>, b: seq<seq<T>>, b': seq<seq<T>>, c: seq<seq<T>>, bs: nat)
    requires Uniform(a, bs) && Uniform(b, bs) && Uniform(b', bs) && Uniform(c, bs) && |b| == |b'|
    ensures |Flat(b')| == Size(|b|, bs) && Size(|a|, bs) + Size(|b|, bs) <= |Flat(a + b + c)|
    ensures Flat(a + b + c)[Size(|a|, bs)..Size(|a|, bs) + Size(|b|, bs)] == Flat(b)
    ensures Splice(Flat(a + b + c), Size(|a|, bs), Flat(b')) == Flat(a + b' + c)
  {
    FlatConcat3(a, b, c);
    FlatConcat3(a, b', c);
    FlatLength(a, bs);
    FlatLength(b, bs);
    FlatLength(b', bs);
    Middle(Flat(a), Flat(b), Flat(b'), Flat(c));
  }

  /** Whole blocks are slices of the flat bytes. */
  lemma FlatSlice<T>(blocks: seq<seq<T>>, bs: nat, k: nat, m: nat)
    requires Uniform(blocks, bs) && k + m <= |blocks|
    ensures Size(k, bs) + Size(m, bs) <= |Flat(blocks)| == Size(|blocks|, bs)
    ensures Flat(blocks)[Size(k, bs)..Size(k, bs) + Size(m, bs)] == Flat(blocks[k..k + m])
  {
    hide Flat, Size;
    var a, b, c := blocks[..k], blocks[k..k + m], blocks[k + m..];
    assert |a| == k && |b| == m && blocks == a + b + c;
    FlatMiddle(a, b, b, c, bs);
    FlatLength(a + b + c, bs);
  }

  /** One block is the slice that starts at its index. */
  lemma FlatBlock<T>(blocks: seq<seq<T>>, bs: nat, k: nat)
    requires Uniform(blocks, bs) && k < |blocks|
    ensures Size(k, bs) + bs <= |Flat(blocks)| == Size(|blocks|, bs)
    ensures Flat(blocks)[Size(k, bs)..Size(k, bs) + bs] == blocks[k]
  {
    hide Flat, Size;
    FlatSlice(blocks, bs, k, 1);
    assert blocks[k..k + 1] == [blocks[k]];
    FlatOne(blocks[k]);
    SizeNext(0, bs);
  }

  /** Overwriting whole blocks is a splice of the flat bytes. */
  lemma FlatReplace<T>(blocks: seq<seq<T>>, bs: nat, k: nat, repl: seq<seq<T>>)
    requires Uniform(blocks, bs) && Uniform(repl, bs) && k + |repl| <= |blocks|
    ensures |Flat(repl)| == Size(|repl|, bs) && Size(k, bs) + Size(|repl|, bs) <= |Flat(blocks)|
    ensures Flat(blocks[..k] + repl + blocks[k + |repl|..]) == Splice(Flat(blocks), Size(k, bs), Flat(repl))
  {
    CutThree(blocks, k, |repl|);
    FlatMiddle(blocks[..k], blocks[k..k + |repl|], repl, blocks[k + |repl|..], bs);
  }

  /** Replacing one block is a splice of the flat bytes. */
  lemma FlatUpdate<T>(blocks: seq<seq<T>>, bs: nat, k: nat, b: seq<T>)
    requires Uniform(blocks, bs) && k < |blocks| && |b| == bs
    ensures Size(k, bs) + bs <= |Flat(blocks)|
    ensures Flat(blocks[k := b]) == Splice(Flat(blocks), Size(k, bs), b)
  {
    hide Flat, Size, Splice;
    FlatOne(b);
    SizeNext(0, bs);
    FlatReplace(blocks, bs, k, [b]);
    ReplaceOne(blocks, k, b);
  }

  /** Changing part of one block is a splice of the flat bytes. */
  lemma FlatPatch<T>(blocks: seq<seq<T>>, bs: nat, k: nat, off: nat, data: seq<T>)
    requires Uniform(blocks, bs) && k < |blocks| && off + |data| <= bs
    ensures Size(k, bs) + off + |data| <= |Flat(blocks)|
    ensures Flat(blocks[k := Splice(blocks[k], off, data)]) == Splice(Flat(blocks), Size(k, bs) + off, data)
  {
    hide Flat, Size;
    FlatUpdate(blocks, bs, k, Splice(blocks[k], off, data));
    FlatBlock(blocks, bs, k);
    SpliceWithin(Flat(blocks), Size(k, bs), bs, off, data);
  }

  lemma FlatOne<T>(b: seq<T>)
    ensures Flat([b]) == b
  {
    assert Flat([b]) == b + Flat([]);
  }

  lemma ReplaceOne<T>(s: seq<T>, k: nat, x: T)
    requires k < |s|
    ensures s[k := x] == s[..k] + [x] + s[k + 1..]
  {
  }

  /** Splicing a spliced slice back is one splice. */
  lemma SpliceWithin<T>(s: seq<T>, at: nat, n: nat, off: nat, data: seq<T>)
    requires at + n <= |s| && off + |data| <= n
    ensures Splice(s, at, Splice(s[at..at + n], off, data)) == Splice(s, at + off, data)
  {
  }

  lemma SpliceAt<T>(s: seq<T>, pos: nat, data: seq<T>)
    requires pos + |data| <= |s|
    ensures forall i :: 0 <= i < |data| ==> Splice(s, pos, data)[pos + i] == data[i]
    ensures Splice(s, pos, data)[pos..pos + |data|] == data
    ensures Splice(s, pos, data)[..pos] == s[..pos] && Splice(s, pos, data)[pos + |data|..] == s[pos + |data|..]
  {
  }

  lemma SliceOfSlice<T>(s: seq<T>, at: nat, n: nat, off: nat, m: nat)
    requires at + n <= |s| && off + m <= n
    ensures s[at..at + n][off..off + m] == s[at + off..at + off + m]
  {
    var x, y := s[at..at + n][off..off + m], s[at + off..at + off + m];
    assert |x| == |y| && forall i :: 0 <= i < m ==> x[i] == y[i];
  }

  lemma SliceAdjacent<T>(s: seq<T>, i: nat, j: nat, k: nat)
    requires i <= j <= k <= |s|
    ensures s[i..j] + s[j..k] == s[i..k]
  {
  }

  /** Two adjacent splices are one. */
  lemma SpliceAdjacent<T>(s: seq<T>, pos: nat, a: seq<T>, b: seq<T>)
    requires pos + |a| + |b| <= |s|
    ensures Splice(Splice(s, pos, a), pos + |a|, b) == Splice(s, pos, a + b)
  {
  }

  /** Writing the next bytes of data extends the prefix written so far. */
  lemma SpliceMore<T>(s: seq<T>, pos: nat, data: seq<T>, i: nat, j: nat)
    requires i <= j <= |data| && pos + j <= |s|
    ensures Splice(s, pos, []) == s
    ensures Splice(Splice(s, pos, data[..i]), pos + i, data[i..j]) == Splice(s, pos, data[..j])
  {
    SpliceAdjacent(s, pos, data[..i], data[i..j]);
    assert data[..i] + data[i..j] == data[..j];
  }

  // ----- Files as byte sequences -----

  /** The bytes c extended with zeros to n bytes. */
  ghost function Grown(c: Bytes, n: nat): (r: Bytes)
    requires |c| <= n
    ensures |r| == n
  {
    c + Zeros(n - |c|)
  }

  /** b after data is written at pos: the gap reads as zeros. */
  ghost function Written(b: Bytes, pos: nat, data: Bytes): (r: Bytes)
    ensures |r| == if pos + |data| > |b| then pos + |data| else |b|
  {
    Splice(Grown(b, if pos + |data| > |b| then pos + |data| else |b|), pos, data)
  }

  /** What a write leaves behind: the data at pos, the old bytes around it, zeros in a gap. */
  lemma WrittenReads(b: Bytes, pos: nat, data: Bytes, i: nat)
    requires i < |Written(b, pos, data)|
    ensures Written(b, pos, data)[pos..pos + |data|] == data
    ensures Written(b, pos, data)[i] == if pos <= i < pos + |data| then data[i - pos] else if i < |b| then b[i] else 0
  {
  }

  /** Truncated bytes never reappear: extending past them reads zeros. */
  lemma GapIsZero(pos: nat, data: Bytes, i: nat)
    requires i < pos
    ensures Written([], pos, data)[i] == 0
  {
  }
}

/**
 Paths and their components: what normalising means, and when one path is a
 component-wise prefix of another (src/kernel/fs/vfs.c:15-55, 86-130).
 A C string is its characters up to the terminator.
 */
module VfsPath {
  /** The number of characters before the first slash. */
  function Span(s: string): (n: nat)
    ensures n <= |s| && (forall i :: 0 <= i < n ==> s[i] != '/') && (n < |s| ==> s[n] == '/')
  {
    if s == "" || s[0] == '/' then 0 else 1 + Span(s[1..])
  }

  /** The non-empty components of a path. */
  function Comps(s: string): (cs: seq<string>)
    ensures forall i :: 0 <= i < |cs| ==> Word(cs[i])
    decreases |s|
  {
    if s == "" then []
    else if s[0] == '/' then Comps(s[1..])
    else [s[..Span(s)]] + Comps(s[Span(s)..])
  }

  /** A component: some characters, no slash. */
  predicate Word(c: string) {
    c != "" && '/' !in c
  }

  /** One component's effect: "." stays, ".." leaves the last, the root having none to leave. */
  function Push(stack: seq<string>, c: string): seq<string> {
    if c == "." then stack
    else if c == ".." then (if stack == [] then [] else stack[..|stack| - 1])
    else stack + [c]
  }

  /** What a component does: a dot nothing, two dots take the last one away unless there is none, any other is put behind. */
  lemma PushIs(stack: seq<string>, c: string)
    ensures Push(stack, ".") == stack && Push([], "..") == [] && Push(stack + [c], "..") == stack
    ensures c != "." && c != ".." ==> Push(stack, c) == stack + [c]
  {
  }

  function Fold(stack: seq<string>, cs: seq<string>): seq<string>
    decreases |cs|
  {
    if cs == [] then stack else Fold(Push(stack, cs[0]), cs[1..])
  }

  function Joined(cs: seq<string>): string {
    if cs == [] then "" else Joined(cs[..|cs| - 1]) + "/" + cs[|cs| - 1]
  }

  function Render(cs: seq<string>): (s: string)
    ensures s != "" && s[0] == '/'
  {
    if cs == [] then "/" else (JoinedStarts(cs); Joined(cs))
  }

  lemma {:induction false} JoinedStarts(cs: seq<string>)
    ensures cs != [] ==> Joined(cs) != "" && Joined(cs)[0] == '/'
  {
    if cs != [] {
      JoinedStarts(cs[..|cs| - 1]);
    }
  }

  /** No step of the fold outgrows size characters with their terminator. */
  predicate Fits(stack: seq<string>, cs: seq<string>, size: nat)
    decreases |cs|
  {
    cs == [] || ((Grows(cs[0]) ==> |Render(stack + [cs[0]])| < size) && Fits(Push(stack, cs[0]), cs[1..], size))
  }

  predicate Grows(c: string) {
    c != "." && c != ".."
  }

  /** Components as a canonical path has them. */
  ghost predicate Clean(cs: seq<string>) {
    forall i :: 0 <= i < |cs| ==> Word(cs[i]) && Grows(cs[i])
  }

  ghost predicate Canonical(p: string) {
    Clean(Comps(p)) && p == Render(Comps(p))
  }

  // ----- Splitting and joining -----

  lemma {:induction false} SpanWord(c: string, rest: string)
    requires '/' !in c && (rest == "" || rest[0] == '/')
    ensures Span(c + rest) == |c|
  {
    if c == "" {
      assert c + rest == rest;
    } else {
      assert (c + rest)[1..] == c[1..] + rest;
      assert c[0] in c;
      SpanWord(c[1..], rest);
    }
  }

  lemma CompsWord(c: string, rest: string)
    requires Word(c) && (rest == "" || rest[0] == '/')
    ensures Comps(c + rest) == [c] + Comps(rest)
  {
    SpanWord(c, rest);
    assert c[0] in c;
    assert (c + rest)[..|c|] == c && (c + rest)[|c|..] == rest;
  }

  lemma CompsStart(s: string)
    ensures s == "" ==> Comps(s) == []
    ensures s != "" && s[0] == '/' ==> Comps(s) == Comps(s[1..])
  {
  }

  lemma FirstWord(s: string)
    ensures s != "" && s[0] != '/' ==> Word(s[..Span(s)]) && s[..Span(s)] + s[Span(s)..] == s && |s[Span(s)..]| < |s|
    ensures s != "" && s[0] != '/' ==> s[Span(s)..] == "" || s[Span(s)..][0] == '/'
  {
    if s != "" && s[0] != '/' {
      assert s[..Span(s)][0] == s[0];
    }
  }

  /** The components of two paths one behind the other. */
  lemma {:induction false} CompsJoin(a: string, b: string)
    ensures Comps(a + "/" + b) == Comps(a) + Comps(b)
    decreases |a|
  {
    hide Comps, Span;
    var s := a + "/" + b;
    CompsStart(a);
    CompsStart(s);
    FirstWord(a);
    if a == "" {
      assert s[1..] == b;
    } else if a[0] == '/' {
      assert s[1..] == a[1..] + "/" + b;
      CompsJoin(a[1..], b);
    } else {
      var c, rest := a[..Span(a)], a[Span(a)..];
      CompsWord(c, rest);
      CompsWord(c, rest + "/" + b);
      assert s == c + (rest + "/" + b);
      CompsJoin(rest, b);
    }
  }

  lemma {:induction false} CompsJoined(cs: seq<string>)
    requires forall i :: 0 <= i < |cs| ==> Word(cs[i])
    ensures Comps(Joined(cs)) == cs
  {
    if cs != [] {
      var init, c := cs[..|cs| - 1], cs[|cs| - 1];
      CompsJoined(init);
      CompsJoin(Joined(init), c);
      CompsWord(c, "");
      assert c + "" == c;
      assert cs == init + [c];
    }
  }

  lemma CompsRender(cs: seq<string>)
    requires forall i :: 0 <= i < |cs| ==> Word(cs[i])
    ensures Comps(Render(cs)) == cs
  {
    CompsJoined(cs);
  }

  lemma {:induction false} JoinedConcat(a: seq<string>, b: seq<string>)
    ensures Joined(a + b) == Joined(a) + Joined(b)
    decreases |b|
  {
    if b == [] {
      assert a + b == a;
    } else {
      var init, c := b[..|b| - 1], b[|b| - 1];
      assert (a + b)[..|a + b| - 1] == a + init && (a + b)[|a + b| - 1] == c;
      JoinedConcat(a, init);
    }
  }

  // ----- Normal forms -----

  lemma {:induction false} FoldClean(stack: seq<string>, cs: seq<string>)
    requires Clean(stack) && forall i :: 0 <= i < |cs| ==> Word(cs[i])
    ensures Clean(Fold(stack, cs))
    decreases |cs|
  {
    if cs != [] {
      FoldClean(Push(stack, cs[0]), cs[1..]);
    }
  }

  lemma {:induction false} FoldIsPush(stack: seq<string>, cs: seq<string>)
    requires forall i :: 0 <= i < |cs| ==> Grows(cs[i])
    ensures Fold(stack, cs) == stack + cs
    decreases |cs|
  {
    if cs == [] {
      assert stack + cs == stack;
    } else {
      FoldIsPush(stack + [cs[0]], cs[1..]);
      assert stack + [cs[0]] + cs[1..] == stack + cs;
    }
  }

  lemma {:induction false} FoldConcat(stack: seq<string>, a: seq<string>, b: seq<string>)
    ensures Fold(stack, a + b) == Fold(Fold(stack, a), b)
    decreases |a|
  {
    if a == [] {
      assert a + b == b;
    } else {
      assert (a + b)[1..] == a[1..] + b;
      FoldConcat(Push(stack, a[0]), a[1..], b);
    }
  }

  /** What normalising gives is canonical. */
  lemma NormalIsCanonical(s: string)
    ensures Canonical(Render(Fold([], Comps(s))))
  {
    var cs := Fold([], Comps(s));
    FoldClean([], Comps(s));
    CompsRender(cs);
  }

  /** Normalising a canonical path changes nothing. */
  lemma CanonicalIsNormal(p: string)
    requires Canonical(p)
    ensures Render(Fold([], Comps(p))) == p
  {
    FoldIsPush([], Comps(p));
    assert [] + Comps(p) == Comps(p);
  }

  /** A canonical path that fits is normalised without outgrowing its size. */
  lemma {:induction false} CanonicalFits(stack: seq<string>, cs: seq<string>, size: nat)
    requires (forall i :: 0 <= i < |cs| ==> Grows(cs[i])) && |Render(stack + cs)| < size
    ensures Fits(stack, cs, size)
    decreases |cs|
  {
    if cs != [] {
      assert stack + cs == stack + [cs[0]] + cs[1..];
      JoinedConcat(stack + [cs[0]], cs[1..]);
      CanonicalFits(stack + [cs[0]], cs[1..], size);
    }
  }

  // ----- Prefixes -----

  /** A component followed by two dots is as if neither had been there. */
  lemma UpAgain(stack: seq<string>, c: string, cs: seq<string>)
    requires Grows(c)
    ensures Fold(stack, [c, ".."] + cs) == Fold(stack, cs)
  {
    PushIs(stack, c);
    assert ([c, ".."] + cs)[1..] == [".."] + cs && ([".."] + cs)[1..] == cs;
  }

  lemma PopShorter(stack: seq<string>)
    ensures |Render(Push(stack, ".."))| <= |Render(stack)|
  {
  }

  /** A path fits exactly if what every beginning of it comes to does. */
  lemma {:induction false} FitsIs(stack: seq<string>, cs: seq<string>, size: nat)
    requires |Render(stack)| < size
    ensures Fits(stack, cs, size) <==> forall k :: 0 <= k <= |cs| ==> |Render(Fold(stack, cs[..k]))| < size
    decreases |cs|
  {
    hide Render;
    assert cs[..0] == [] && Fold(stack, []) == stack;
    if cs != [] {
      var next := Push(stack, cs[0]);
      PopShorter(stack);
      forall k | 0 <= k < |cs|
        ensures Fold(stack, cs[..k + 1]) == Fold(next, cs[1..][..k])
      {
        assert cs[..k + 1][1..] == cs[1..][..k];
      }
      assert Fold(stack, cs[..1]) == Fold(next, cs[1..][..0]) == next;
      if |Render(next)| < size {
        FitsIs(next, cs[1..], size);
        if Fits(stack, cs, size) {
          forall k | 0 <= k <= |cs|
            ensures |Render(Fold(stack, cs[..k]))| < size
          {
            if k > 0 {
              assert Fold(stack, cs[..k]) == Fold(next, cs[1..][..k - 1]);
            }
          }
        } else {
          var k :| 0 <= k <= |cs[1..]| && |Render(Fold(next, cs[1..][..k]))| >= size;
          assert |Render(Fold(stack, cs[..k + 1]))| >= size;
        }
      } else {
        assert !Fits(stack, cs, size);
        assert |Render(Fold(stack, cs[..1]))| >= size;
      }
    }
  }

  /** The test of vfs_resolve: an equal prefix that ends at a slash or at the end. */
  predicate BytePrefix(mp: string, p: string) {
    |mp| <= |p| && p[..|mp|] == mp && (|p| == |mp| || p[|mp|] == '/')
  }

  /** For canonical paths the byte test is the component-wise prefix. */
  lemma PrefixByBytes(mp: string, p: string)
    requires Canonical(mp) && Canonical(p) && |mp| != 1
    ensures BytePrefix(mp, p) <==> Comps(mp) <= Comps(p)
  {
    hide Comps, Joined;
    var ms, ps := Comps(mp), Comps(p);
    if BytePrefix(mp, p) {
      if |p| == |mp| {
        assert p == mp;
      } else {
        assert p == mp + "/" + p[|mp| + 1..];
        CompsJoin(mp, p[|mp| + 1..]);
      }
    }
    if ms <= ps {
      var rest := ps[|ms|..];
      assert ps == ms + rest;
      JoinedConcat(ms, rest);
      JoinedStarts(rest);
      JoinedNone();
    }
  }

  lemma JoinedNone()
    ensures Joined([]) == ""
  {
  }

  /** The part of p behind a mount point, as vfs_resolve hands it out. */
  function Relative(mp: string, p: string): string
    requires p != "" && (|mp| == 1 || BytePrefix(mp, p))
  {
    if |mp| == 1 then p[1..] else if |mp| < |p| then p[|mp| + 1..] else ""
  }

  /** Mount point and relative part rebuild the path. */
  lemma Rebuilt(mp: string, p: string)
    requires Canonical(mp) && Canonical(p) && (|mp| == 1 || BytePrefix(mp, p))
    ensures Comps(mp) + Comps(Relative(mp, p)) == Comps(p) && Render(Comps(mp) + Comps(Relative(mp, p))) == p
  {
    var rel := Relative(mp, p);
    if |mp| == 1 {
      RootComps(mp);
      assert p == "" + "/" + rel;
      CompsJoin("", rel);
    } else if |mp| < |p| {
      assert p == mp + "/" + rel;
      CompsJoin(mp, rel);
    } else {
      assert mp == p;
    }
  }

  lemma RootComps(mp: string)
    requires Canonical(mp) && |mp| == 1
    ensures mp == "/" && Comps(mp) == []
  {
    assert mp == "/";
    assert Comps("/") == Comps("/"[1..]) == [];
  }
}

/**
 What loading leaves behind when the pages it fills are reached at their own
 addresses: the rounds of map_one_segment in order, where an address of the
 identity map leads after them, and which round wrote each frame last
 (src/kernel/user.c:69-107; src/kernel/memory/vmm.c:62-68, 190-198).
 */
module LoadLog {
  import opened Errors
  import opened Options
  import opened FlatBytes
  import opened PageTables
  import opened Vmm
  import opened ElfImage

  /** The page handed out for address va of segment g. */
  datatype Round = Round(g: Seg, va: nat, page: nat)

  /** The round that mapped address a last. */
  function Latest(log: seq<Round>, a: nat): (r: Option<Round>)
    ensures r.Some? ==> r.value in log && r.value.va == a
    ensures r == None ==> forall k :: 0 <= k < |log| ==> log[k].va != a
  {
    if log == [] then None
    else if log[|log| - 1].va == a then Some(log[|log| - 1])
    else Latest(log[..|log| - 1], a)
  }

  /** Where page address a leads. */
  function Trans(log: seq<Round>, a: nat): nat {
    if Latest(log, a).Some? then Latest(log, a).value.page else a
  }

  /** The round that wrote frame f last: a round fills the frame its page's address leads to. */
  function Writer(log: seq<Round>, f: nat): (w: Option<nat>)
    ensures w.Some? ==> w.value < |log| && Trans(log[..w.value], log[w.value].page) == f
  {
    if log == [] then None
    else if Trans(log[..|log| - 1], log[|log| - 1].page) == f then Some(|log| - 1)
    else
      var w := Writer(log[..|log| - 1], f);
      assert w.Some? ==> log[..|log| - 1][..w.value] == log[..w.value];
      w
  }

  ghost predicate VasDiffer(log: seq<Round>) {
    forall i, j :: 0 <= i < j < |log| ==> log[i].va != log[j].va
  }

  ghost predicate PagesDiffer(log: seq<Round>) {
    forall i, j :: 0 <= i < j < |log| ==> log[i].page != log[j].page
  }

  /** No page is handed out at whose address an earlier round put another page. */
  ghost predicate Unclashed(log: seq<Round>) {
    forall i, j :: 0 <= i < j < |log| ==> log[j].page != log[i].va
  }

  lemma {:induction false} LatestAt(log: seq<Round>, k: nat)
    requires VasDiffer(log) && k < |log|
    ensures Latest(log, log[k].va) == Some(log[k])
  {
    if k < |log| - 1 {
      LatestAt(log[..|log| - 1], k);
    }
  }

  /** Without a clash every round wrote its own page, and nothing else did. */
  lemma {:induction false} OwnWriter(log: seq<Round>, k: nat)
    requires PagesDiffer(log) && Unclashed(log) && k < |log|
    ensures Writer(log, log[k].page) == Some(k)
  {
    var n := |log| - 1;
    assert forall i :: 0 <= i < n ==> log[..n][i] == log[i] && log[i].va != log[n].page;
    if k < n {
      OwnWriter(log[..n], k);
    }
  }

  /** With a clash the earlier round's page was last written by the later one. */
  lemma {:induction false} ClashWriter(log: seq<Round>, i: nat, j: nat)
    requires VasDiffer(log) && PagesDiffer(log) && i < j < |log| && log[j].page == log[i].va
    ensures Writer(log, log[i].page) == Some(j)
  {
    var n := |log| - 1;
    if j == n {
      LatestAt(log[..n], i);
    } else {
      NotOver(log, i, j);
      ClashWriter(log[..n], i, j);
    }
  }

  /** A clash takes the address of round i, so no later round writes its page again. */
  lemma NotOver(log: seq<Round>, i: nat, j: nat)
    requires VasDiffer(log) && PagesDiffer(log) && i < j < |log| - 1 && log[j].page == log[i].va
    ensures Trans(log[..|log| - 1], log[|log| - 1].page) != log[i].page
  {
    var n := |log| - 1;
    var r := Latest(log[..n], log[n].page);
    if r.Some? {
      var m :| 0 <= m < n && log[m] == r.value;
      assert log[m].va == log[n].page != log[j].page == log[i].va;
    }
  }

  // ----- Memory after the rounds -----

  /** What an address of the lower half translates to: the last page mapped there, or the identity map. */
  ghost predicate LeadsTo(w: Option<Page>, log: seq<Round>, a: nat, physEnd: nat) {
    var r := Latest(log, a);
    if r.Some? then w == Some(Page(r.value.page, Flags(r.value.g.Writable(), true, 0))) else a < physEnd ==> Own(w, a)
  }

  ghost predicate Agrees(t: Tables, root: nat, physEnd: nat, log: seq<Round>) {
    forall a: nat :: a < LOW_END && a % PAGE == 0 ==> LeadsTo(Walk(t, root, PathOf(a)), log, a, physEnd)
  }

  /** Frame f holds the bytes of segment g at va. */
  ghost predicate Holds(frames: map<nat, Bytes>, f: nat, img: Bytes, g: Seg, va: nat) {
    f in frames && |frames[f]| == PAGE && forall k :: 0 <= k < PAGE ==> frames[f][k] == ByteAt(img, g, va + k)
  }

  ghost predicate FrameOk(frames: map<nat, Bytes>, img: Bytes, log: seq<Round>, f: nat) {
    var w := Writer(log, f);
    w.Some? ==> Holds(frames, f, img, log[w.value].g, log[w.value].va)
  }

  ghost predicate Contents(frames: map<nat, Bytes>, img: Bytes, log: seq<Round>) {
    forall f: nat :: FrameOk(frames, img, log, f)
  }

  lemma AgreesAtFirst(t: Tables, root: nat, physEnd: nat)
    requires WholeMap(t, root, physEnd)
    ensures Agrees(t, root, physEnd, [])
  {
    hide Walk, PathOf;
  }

  lemma AgreesNext(t0: Tables, t1: Tables, root: nat, physEnd: nat, log: seq<Round>, r: Round)
    requires Agrees(t0, root, physEnd, log) && r.va < LOW_END && r.va % PAGE == 0
    requires OneMapped(t0, t1, root, PathOf(r.va), Page(r.page, Flags(r.g.Writable(), true, 0)))
    ensures Agrees(t1, root, physEnd, log + [r])
  {
    hide Walk, PathOf, Own, Seg.Writable;
    forall a: nat | a < LOW_END && a % PAGE == 0
      ensures LeadsTo(Walk(t1, root, PathOf(a)), log + [r], a, physEnd)
    {
      assert (log + [r])[..|log|] == log;
      assert LeadsTo(Walk(t0, root, PathOf(a)), log, a, physEnd);
      PathsDiffer(a, r.va);
      SmallRem(a);
      SmallRem(r.va);
    }
  }

  /** A page of the identity map leads where Trans says. */
  lemma TransIs(t: Tables, root: nat, physEnd: nat, log: seq<Round>, a: nat)
    requires Agrees(t, root, physEnd, log) && a < physEnd <= LOW_END && a % PAGE == 0
    ensures var w := Walk(t, root, PathOf(a));
            w.Some? && w.value.addr == Trans(log, a)
            && if Latest(log, a).Some? then w.value.flags.writable == Latest(log, a).value.g.Writable() && w.value.flags.user else Own(w, a)
  {
    hide Walk, PathOf, Seg.Writable;
    assert LeadsTo(Walk(t, root, PathOf(a)), log, a, physEnd);
  }

  lemma ContentsNext(frames: map<nat, Bytes>, img: Bytes, log: seq<Round>, r: Round, bytes: Bytes)
    requires Contents(frames, img, log) && |bytes| == PAGE && forall k :: 0 <= k < PAGE ==> bytes[k] == ByteAt(img, r.g, r.va + k)
    ensures Contents(frames[Trans(log, r.page) := bytes], img, log + [r])
  {
    hide ByteAt, Trans;
    var log', frames' := log + [r], frames[Trans(log, r.page) := bytes];
    assert log'[..|log|] == log;
    forall f: nat
      ensures FrameOk(frames', img, log', f)
    {
      assert FrameOk(frames, img, log, f);
      if f != Trans(log, r.page) {
        assert Writer(log', f) == Writer(log, f);
      }
    }
  }

  // ----- What a program finds -----

  /** Page va holds the segment's bytes, for user code, writable exactly if the segment is. */
  ghost predicate PageLoaded(t: Tables, root: nat, frames: map<nat, Bytes>, img: Bytes, s: Seg, va: nat) {
    var w := Walk(t, root, PathOf(va));
    w.Some? && w.value.flags == Flags(s.Writable(), true, 0) && Holds(frames, w.value.addr, img, s, va)
  }

  /** All pages of the segment are loaded. */
  ghost predicate Loaded(t: Tables, root: nat, frames: map<nat, Bytes>, img: Bytes, s: Seg) {
    forall va: nat :: s.Base() <= va < s.End() && va % PAGE == 0 ==> PageLoaded(t, root, frames, img, s, va)
  }

  ghost predicate AllLoaded(t: Tables, root: nat, frames: map<nat, Bytes>, img: Bytes, ss: seq<Seg>) {
    forall i :: 0 <= i < |ss| && ss[i].kind == PT_LOAD ==> Loaded(t, root, frames, img, ss[i])
  }

  /** The byte a user address reads through the tables. */
  ghost function UserByte(t: Tables, root: nat, frames: map<nat, Bytes>, a: nat): Option<Byte> {
    var w := Walk(t, root, PathOf(a - a % PAGE));
    if w.Some? && w.value.flags.user && w.value.addr in frames && a % PAGE < |frames[w.value.addr]| then
      Some(frames[w.value.addr][a % PAGE])
    else None
  }

  /** In a loaded segment every address of its pages reads the file's byte or zero. */
  lemma LoadedReads(t: Tables, root: nat, frames: map<nat, Bytes>, img: Bytes, s: Seg, a: nat)
    requires Loaded(t, root, frames, img, s) && s.Base() <= a < s.End()
    ensures UserByte(t, root, frames, a) == Some(ByteAt(img, s, a))
  {
    hide Walk, PathOf, ByteAt;
    var va := a - a % PAGE;
    PageStart(s, a);
    assert PageLoaded(t, root, frames, img, s, va);
    assert va + a % PAGE == a;
  }

  lemma PageStart(s: Seg, a: nat)
    requires s.Base() <= a < s.End()
    ensures s.Base() <= a - a % PAGE < s.End() && (a - a % PAGE) % PAGE == 0
  {
  }

  /**
   After a successful load every address of a segment's pages reads the file's
   byte inside the file part and zero elsewhere.
   */
  lemma LoadedImageReads(t: Tables, root: nat, frames: map<nat, Bytes>, img: Bytes, g: Seg, a: nat)
    requires SegOk(img, g) && Loaded(t, root, frames, img, g) && g.Base() <= a < g.End()
    ensures UserByte(t, root, frames, a) == Some(if g.vaddr <= a < g.vaddr + g.filesz then img[g.off + (a - g.vaddr)] else 0)
  {
    LoadedReads(t, root, frames, img, g, a);
  }

  /** Every page of the LOAD segments is open to user code, and for writing exactly if bit 1 of the flag word is set. */
  ghost predicate RightsGiven(t: Tables, root: nat, ss: seq<Seg>) {
    forall j, va: nat :: 0 <= j < |ss| && ss[j].kind == PT_LOAD && ss[j].Base() <= va < ss[j].End() && va % PAGE == 0 ==>
      RightsAt(t, root, ss[j], va)
  }

  ghost predicate RightsAt(t: Tables, root: nat, g: Seg, va: nat) {
    var w := Walk(t, root, PathOf(va));
    w.Some? && w.value.flags.user && (w.value.flags.writable <==> g.flags % 4 in {2, 3})
  }

  /** What a program sees at address a of its segment: the byte of the file, or zero behind the file part. */
  ghost predicate SeesAt(t: Tables, root: nat, frames: map<nat, Bytes>, img: Bytes, g: Seg, a: nat) {
    && RightsAt(t, root, g, a - a % PAGE)
    && g.vaddr <= a && (a < g.vaddr + g.filesz ==> g.off + (a - g.vaddr) < |img|)
    && UserByte(t, root, frames, a) == Some(if a < g.vaddr + g.filesz then img[g.off + (a - g.vaddr)] else 0)
  }

  ghost predicate SeesAll(t: Tables, root: nat, frames: map<nat, Bytes>, img: Bytes, ss: seq<Seg>) {
    forall j, a: nat :: 0 <= j < |ss| && ss[j].kind == PT_LOAD && ss[j].vaddr <= a < ss[j].vaddr + ss[j].memsz ==>
      SeesAt(t, root, frames, img, ss[j], a)
  }

  lemma LoadedSees(t: Tables, root: nat, frames: map<nat, Bytes>, img: Bytes, ss: seq<Seg>)
    requires AllLoaded(t, root, frames, img, ss) && forall j :: 0 <= j < |ss| && ss[j].kind == PT_LOAD ==> SegOk(img, ss[j])
    ensures SeesAll(t, root, frames, img, ss)
  {
    hide Walk, PathOf, Seg.Base, Seg.End, ByteAt, UserByte, Seg.Writable, Holds;
    forall j, a: nat | 0 <= j < |ss| && ss[j].kind == PT_LOAD && ss[j].vaddr <= a < ss[j].vaddr + ss[j].memsz
      ensures SeesAt(t, root, frames, img, ss[j], a)
    {
      SegBounds(ss[j]);
      LoadedImageReads(t, root, frames, img, ss[j], a);
      PageStart(ss[j], a);
      WriteFlag(ss[j]);
      assert PageLoaded(t, root, frames, img, ss[j], a - a % PAGE);
    }
  }

  /** The rounds are those of the LOAD segments' pages, each page once. */
  ghost predicate Described(ss: seq<Seg>, log: seq<Round>) {
    && (forall k :: 0 <= k < |log| ==> Belongs(ss, log[k]))
    && (forall j :: 0 <= j < |ss| && ss[j].kind == PT_LOAD ==> Covered(ss[j], log))
  }

  ghost predicate Belongs(ss: seq<Seg>, r: Round) {
    r.va % PAGE == 0 && exists j :: 0 <= j < |ss| && ss[j].kind == PT_LOAD && r.g == ss[j] && ss[j].Base() <= r.va < ss[j].End()
  }

  ghost predicate Covered(g: Seg, log: seq<Round>) {
    forall va: nat :: g.Base() <= va < g.End() && va % PAGE == 0 ==> InLog(log, g, va)
  }

  ghost predicate InLog(log: seq<Round>, g: Seg, va: nat) {
    exists k :: 0 <= k < |log| && log[k].g == g && log[k].va == va
  }

  /** Page k of the log is loaded if and only if the frame behind it holds its bytes. */
  lemma RoundLoaded(t: Tables, root: nat, physEnd: nat, frames: map<nat, Bytes>, img: Bytes, log: seq<Round>, k: nat)
    requires Agrees(t, root, physEnd, log) && VasDiffer(log) && k < |log| && log[k].va < LOW_END && log[k].va % PAGE == 0
    ensures PageLoaded(t, root, frames, img, log[k].g, log[k].va) <==> Holds(frames, log[k].page, img, log[k].g, log[k].va)
    ensures Walk(t, root, PathOf(log[k].va)) == Some(Page(log[k].page, Flags(log[k].g.Writable(), true, 0)))
  {
    hide Walk, PathOf, Seg.Writable, Holds;
    LatestAt(log, k);
    assert LeadsTo(Walk(t, root, PathOf(log[k].va)), log, log[k].va, physEnd);
  }

  ghost predicate Low(ss: seq<Seg>) {
    forall i :: 0 <= i < |ss| && ss[i].kind == PT_LOAD ==> ss[i].End() <= LOW_END
  }

  lemma RightsHold(t: Tables, root: nat, physEnd: nat, ss: seq<Seg>, log: seq<Round>)
    requires Agrees(t, root, physEnd, log) && VasDiffer(log) && Described(ss, log) && Low(ss)
    ensures RightsGiven(t, root, ss)
  {
    hide Walk, PathOf, PageLoaded, Agrees, Seg.Base, Seg.End, Seg.Writable;
    forall j, va: nat | 0 <= j < |ss| && ss[j].kind == PT_LOAD && ss[j].Base() <= va < ss[j].End() && va % PAGE == 0
      ensures RightsAt(t, root, ss[j], va)
    {
      assert InLog(log, ss[j], va);
      var k :| 0 <= k < |log| && log[k].g == ss[j] && log[k].va == va;
      RoundLoaded(t, root, physEnd, map[], [], log, k);
      WriteFlag(ss[j]);
    }
  }

  /** Without a clash everything is loaded. */
  lemma UnclashedLoads(t: Tables, root: nat, physEnd: nat, frames: map<nat, Bytes>, img: Bytes, ss: seq<Seg>, log: seq<Round>)
    requires Agrees(t, root, physEnd, log) && Contents(frames, img, log) && VasDiffer(log) && PagesDiffer(log)
    requires Described(ss, log) && Low(ss) && Unclashed(log)
    ensures AllLoaded(t, root, frames, img, ss)
  {
    hide Walk, PathOf, Holds, PageLoaded, Agrees, Seg.Base, Seg.End;
    forall i, va: nat | 0 <= i < |ss| && ss[i].kind == PT_LOAD && ss[i].Base() <= va < ss[i].End() && va % PAGE == 0
      ensures PageLoaded(t, root, frames, img, ss[i], va)
    {
      assert InLog(log, ss[i], va);
      var k :| 0 <= k < |log| && log[k].g == ss[i] && log[k].va == va;
      OwnWriter(log, k);
      assert FrameOk(frames, img, log, log[k].page);
      RoundLoaded(t, root, physEnd, frames, img, log, k);
    }
  }

  /** With a clash the earlier page reads the bytes of the later one. */
  lemma ClashReads(t: Tables, root: nat, physEnd: nat, frames: map<nat, Bytes>, img: Bytes, log: seq<Round>, i: nat, j: nat, k: nat)
    requires Agrees(t, root, physEnd, log) && Contents(frames, img, log) && VasDiffer(log) && PagesDiffer(log)
    requires i < j < |log| && log[j].page == log[i].va && log[i].va < LOW_END && log[i].va % PAGE == 0 && k < PAGE
    ensures UserByte(t, root, frames, log[i].va + k) == Some(ByteAt(img, log[j].g, log[j].va + k))
  {
    hide Walk, PathOf, ByteAt, Agrees, Seg.Writable;
    ClashWriter(log, i, j);
    assert FrameOk(frames, img, log, log[i].page);
    RoundLoaded(t, root, physEnd, frames, img, log, i);
    InPage(log[i].va, k);
  }

  lemma InPage(va: nat, k: nat)
    requires va % PAGE == 0 && k < PAGE
    ensures (va + k) % PAGE == k && (va + k) - (va + k) % PAGE == va
  {
  }

  /** The two rounds put different bytes into their pages. */
  ghost predicate Unlike(img: Bytes, r: Round, q: Round) {
    exists k :: 0 <= k < PAGE && UnlikeAt(img, r, q, k)
  }

  ghost predicate UnlikeAt(img: Bytes, r: Round, q: Round, k: nat) {
    ByteAt(img, r.g, r.va + k) != ByteAt(img, q.g, q.va + k)
  }

  /**
   An image whose pages differ in content is loaded if and only if no page is
   handed out at whose address the load has already put another page.
   */
  lemma LoadedExactly(t: Tables, root: nat, physEnd: nat, frames: map<nat, Bytes>, img: Bytes, ss: seq<Seg>, log: seq<Round>)
    requires Agrees(t, root, physEnd, log) && Contents(frames, img, log) && VasDiffer(log) && PagesDiffer(log)
    requires Described(ss, log) && Low(ss) && forall i, j :: 0 <= i < j < |log| ==> Unlike(img, log[i], log[j])
    ensures AllLoaded(t, root, frames, img, ss) <==> Unclashed(log)
  {
    hide Walk, PathOf, ByteAt, Agrees, Contents, PageLoaded, UserByte, Seg.Base, Seg.End;
    if Unclashed(log) {
      UnclashedLoads(t, root, physEnd, frames, img, ss, log);
    } else {
      var i, j :| 0 <= i < j < |log| && log[j].page == log[i].va;
      assert Belongs(ss, log[i]) && Unlike(img, log[i], log[j]);
      var m :| 0 <= m < |ss| && ss[m].kind == PT_LOAD && log[i].g == ss[m] && ss[m].Base() <= log[i].va < ss[m].End();
      var k :| 0 <= k < PAGE && UnlikeAt(img, log[i], log[j], k);
      ClashReads(t, root, physEnd, frames, img, log, i, j, k);
      if AllLoaded(t, root, frames, img, ss) {
        SamePageOf(ss[m], log[i].va, k);
        LoadedReads(t, root, frames, img, ss[m], log[i].va + k);
        assert false;
      }
    }
  }

  /** Two pages of one segment, the second handed out at the address of the first. */
  lemma Overlaid(t: Tables, root: nat, physEnd: nat, frames: map<nat, Bytes>, img: Bytes, g: Seg, log: seq<Round>)
    requires Agrees(t, root, physEnd, log) && Contents(frames, img, log) && PagesDiffer(log)
    requires g.kind == PT_LOAD && g.Base() == g.vaddr && g.End() == g.vaddr + 2 * PAGE && g.filesz == 2 * PAGE && g.off + 2 * PAGE <= |img|
    requires |log| == 2 && log[0].g == log[1].g == g && log[0].va == g.vaddr == log[1].page && log[1].va == g.vaddr + PAGE
    requires g.vaddr % PAGE == 0 && g.vaddr < LOW_END
    ensures forall a: nat :: g.vaddr <= a < g.vaddr + PAGE ==> UserByte(t, root, frames, a) == Some(img[g.off + PAGE + (a - g.vaddr)])
    ensures img[g.off..g.off + PAGE] != img[g.off + PAGE..g.off + 2 * PAGE] ==> !AllLoaded(t, root, frames, img, [g])
  {
    hide Walk, PathOf, Agrees, Contents, UserByte, Seg.Base, Seg.End;
    forall a: nat | g.vaddr <= a < g.vaddr + PAGE
      ensures UserByte(t, root, frames, a) == Some(img[g.off + PAGE + (a - g.vaddr)])
    {
      ClashReads(t, root, physEnd, frames, img, log, 0, 1, a - g.vaddr);
    }
    if AllLoaded(t, root, frames, img, [g]) {
      assert Loaded(t, root, frames, img, [g][0]);
      var x, y := img[g.off..g.off + PAGE], img[g.off + PAGE..g.off + 2 * PAGE];
      forall k | 0 <= k < PAGE
        ensures x[k] == y[k]
      {
        LoadedReads(t, root, frames, img, g, g.vaddr + k);
        assert UserByte(t, root, frames, g.vaddr + k) == Some(img[g.off + PAGE + k]);
      }
      assert x == y;
    }
  }

  lemma SamePageOf(g: Seg, va: nat, k: nat)
    requires g.Base() <= va < g.End() && va % PAGE == 0 && k < PAGE
    ensures g.Base() <= va + k < g.End()
  {
    assert g.End() % PAGE == 0;
  }

  /** Pages come from below the end of the identity map, so segments above it never clash. */
  lemma AboveUnclashed(ss: seq<Seg>, log: seq<Round>, physEnd: nat)
    requires Described(ss, log) && NoneBelow(ss, physEnd) && forall k :: 0 <= k < |log| ==> log[k].page < physEnd
    ensures Unclashed(log)
  {
    hide Seg.Base, Seg.End;
    forall i, j | 0 <= i < j < |log|
      ensures log[j].page != log[i].va
    {
      assert Belongs(ss, log[i]);
    }
  }
}

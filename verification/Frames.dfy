/**
 The boot-time frame allocator and the mapping of the kernel heap
 (memory/frame_allocator.rs, memory/heap.rs).
 */
module Frames {
  import opened Wrappers

  const PAGE: nat := 4096
  const HEAP_START: nat := 0x4444_4444_0000
  const HEAP_SIZE: nat := 2 * 1024 * 1024

  /** One entry of the bootloader's memory map. */
  datatype Region = Region(start: nat, end: nat, usable: bool)

  // ---- usable frames ----

  /** The frames containing `start`, `start` + 4096, ... below `end`, by their first address. */
  function RegionFrames(start: nat, end: nat): seq<nat>
    decreases end - start
  {
    if start >= end then [] else [start / PAGE * PAGE] + RegionFrames(start + PAGE, end)
  }

  function UsableFrames(rs: seq<Region>): seq<nat> {
    if rs == [] then []
    else (if rs[0].usable then RegionFrames(rs[0].start, rs[0].end) else []) + UsableFrames(rs[1..])
  }

  /** What the n-th call of `allocate_frame` returns. */
  function FrameAt(rs: seq<Region>, n: nat): Option<nat> {
    if n < |UsableFrames(rs)| then Some(UsableFrames(rs)[n]) else None
  }

  // ---- what a region yields ----

  function PageCount(r: Region): nat {
    if r.start >= r.end then 0 else (r.end - r.start + PAGE - 1) / PAGE
  }

  /** The frames a region yields are the PageCount(r) pages from that of its start on. */
  lemma {:induction false} RegionFramesAre(start: nat, end: nat)
    ensures var fs := RegionFrames(start, end);
      && |fs| == PageCount(Region(start, end, true))
      && forall i :: 0 <= i < |fs| ==> fs[i] == (start / PAGE + i) * PAGE
    decreases end - start
  {
    if start < end {
      RegionFramesAre(start + PAGE, end);
      assert (start + PAGE) / PAGE == start / PAGE + 1;
    }
  }

  /** Frame `f` is one of the pages region `r` yields. */
  predicate InSpan(r: Region, f: nat) {
    f % PAGE == 0 && r.start / PAGE <= f / PAGE < r.start / PAGE + PageCount(r)
  }

  predicate SpansDisjoint(a: Region, b: Region) {
    || PageCount(a) == 0 || PageCount(b) == 0
    || a.start / PAGE + PageCount(a) <= b.start / PAGE
    || b.start / PAGE + PageCount(b) <= a.start / PAGE
  }

  predicate Distinct(s: seq<nat>) {
    forall i, j :: 0 <= i < j < |s| ==> s[i] != s[j]
  }

  lemma RegionFramesSpan(r: Region)
    ensures var fs := RegionFrames(r.start, r.end);
      Distinct(fs) && forall f: nat :: f in fs <==> InSpan(r, f)
  {
    var fs := RegionFrames(r.start, r.end);
    RegionFramesAre(r.start, r.end);
    forall f: nat | InSpan(r, f) ensures f in fs {
      assert fs[f / PAGE - r.start / PAGE] == f;
    }
    forall f: nat | f in fs ensures InSpan(r, f) {
      var i :| 0 <= i < |fs| && fs[i] == f;
    }
  }

  lemma DisjointIff(a: Region, b: Region)
    ensures SpansDisjoint(a, b) <==> forall f: nat :: !(InSpan(a, f) && InSpan(b, f))
  {
    if !SpansDisjoint(a, b) {
      var p := if a.start / PAGE < b.start / PAGE then b.start / PAGE else a.start / PAGE;
      assert InSpan(a, p * PAGE) && InSpan(b, p * PAGE);
    }
  }

  lemma {:induction false} UsableFramesAre(rs: seq<Region>, f: nat)
    ensures f in UsableFrames(rs) <==> exists i :: 0 <= i < |rs| && rs[i].usable && InSpan(rs[i], f)
    decreases |rs|
  {
    if rs != [] {
      UsableFramesAre(rs[1..], f);
      RegionFramesSpan(rs[0]);
      if i :| 0 <= i < |rs| && rs[i].usable && InSpan(rs[i], f) {
        assert i > 0 ==> rs[1..][i - 1] == rs[i];
      }
    }
  }

  lemma {:induction false} FramesAppend(a: seq<Region>, b: seq<Region>)
    ensures UsableFrames(a + b) == UsableFrames(a) + UsableFrames(b)
    decreases |a|
  {
    if a == [] {
      assert a + b == b;
    } else {
      assert (a + b)[1..] == a[1..] + b;
      FramesAppend(a[1..], b);
    }
  }

  /** The frames of a region come after those of the earlier ones and before those of the later ones. */
  lemma FramesInOrder(rs: seq<Region>, i: nat)
    requires i < |rs|
    ensures UsableFrames(rs)
         == UsableFrames(rs[..i]) + (if rs[i].usable then RegionFrames(rs[i].start, rs[i].end) else [])
            + UsableFrames(rs[i + 1..])
  {
    assert rs == rs[..i] + rs[i..] && rs[i..][1..] == rs[i + 1..];
    FramesAppend(rs[..i], rs[i..]);
  }

  /** The i-th frame of a region is that of the address i pages past its start, and there is one for each such address. */
  lemma RegionFramesByAddress(start: nat, end: nat, i: nat)
    ensures i < |RegionFrames(start, end)| <==> start + i * PAGE < end
    ensures start + i * PAGE < end ==>
      RegionFrames(start, end)[i] <= start + i * PAGE < RegionFrames(start, end)[i] + PAGE
      && RegionFrames(start, end)[i] % PAGE == 0
  {
    RegionFramesAre(start, end);
    CountByAddress(start, end, i);
    PagesPast(start, i);
  }

  lemma CountByAddress(start: nat, end: nat, i: nat)
    ensures i < PageCount(Region(start, end, true)) <==> start + i * PAGE < end
  {}

  lemma PagesPast(start: nat, i: nat)
    ensures (start / PAGE + i) * PAGE <= start + i * PAGE < (start / PAGE + i) * PAGE + PAGE
    ensures (start / PAGE + i) * PAGE % PAGE == 0
  {}

  predicate SeparateSpans(rs: seq<Region>) {
    forall i, j :: 0 <= i < j < |rs| && rs[i].usable && rs[j].usable ==> SpansDisjoint(rs[i], rs[j])
  }

  lemma DistinctConcat(a: seq<nat>, b: seq<nat>)
    ensures Distinct(a + b) <==> Distinct(a) && Distinct(b) && forall f: nat :: !(f in a && f in b)
  {
    var s := a + b;
    if Distinct(s) {
      forall i, j | 0 <= i < j < |b| ensures b[i] != b[j] {
        assert s[|a| + i] != s[|a| + j];
      }
      forall i, j | 0 <= i < j < |a| ensures a[i] != a[j] {
        assert s[i] != s[j];
      }
      forall i, j | 0 <= i < |a| && 0 <= j < |b| ensures a[i] != b[j] {
        assert s[i] != s[|a| + j];
      }
    } else {
      var i, j :| 0 <= i < j < |s| && s[i] == s[j];
      if i < |a| <= j {
        assert s[i] in a && s[i] in b;
      }
    }
  }

  lemma ApartFromRest(rs: seq<Region>)
    requires rs != [] && rs[0].usable
    ensures (forall f: nat :: !(InSpan(rs[0], f) && f in UsableFrames(rs[1..])))
       <==> forall j :: 0 < j < |rs| && rs[j].usable ==> SpansDisjoint(rs[0], rs[j])
  {
    var rest := rs[1..];
    if forall j :: 0 < j < |rs| && rs[j].usable ==> SpansDisjoint(rs[0], rs[j]) {
      forall f: nat | InSpan(rs[0], f) ensures f !in UsableFrames(rest) {
        UsableFramesAre(rest, f);
        if i :| 0 <= i < |rest| && rest[i].usable && InSpan(rest[i], f) {
          assert rest[i] == rs[i + 1];
          DisjointIff(rs[0], rs[i + 1]);
        }
      }
    } else {
      var j :| 0 < j < |rs| && rs[j].usable && !SpansDisjoint(rs[0], rs[j]);
      DisjointIff(rs[0], rs[j]);
      var f: nat :| InSpan(rs[0], f) && InSpan(rs[j], f);
      assert rest[j - 1] == rs[j];
      UsableFramesAre(rest, f);
    }
  }

  /** The usable regions after the first do not share a page with it. */
  predicate FirstApart(rs: seq<Region>)
    requires rs != []
  {
    rs[0].usable ==> forall j :: 0 < j < |rs| && rs[j].usable ==> SpansDisjoint(rs[0], rs[j])
  }

  lemma SeparateStep(rs: seq<Region>)
    requires rs != []
    ensures SeparateSpans(rs) <==> SeparateSpans(rs[1..]) && FirstApart(rs)
  {
    var rest := rs[1..];
    assert forall j :: 0 < j < |rs| ==> rs[j] == rest[j - 1];
    if SeparateSpans(rs) {
      forall i, j | 0 <= i < j < |rest| && rest[i].usable && rest[j].usable ensures SpansDisjoint(rest[i], rest[j]) {
        assert rest[i] == rs[i + 1] && rest[j] == rs[j + 1];
      }
    }
  }

  lemma DistinctStep(rs: seq<Region>)
    requires rs != []
    ensures Distinct(UsableFrames(rs)) <==> Distinct(UsableFrames(rs[1..])) && FirstApart(rs)
  {
    if rs[0].usable {
      RegionFramesSpan(rs[0]);
      DistinctConcat(RegionFrames(rs[0].start, rs[0].end), UsableFrames(rs[1..]));
      ApartFromRest(rs);
    } else {
      assert UsableFrames(rs) == UsableFrames(rs[1..]);
    }
  }

  /** No frame is handed out twice exactly when the usable regions share no page. */
  lemma {:induction false} DistinctIffSeparate(rs: seq<Region>)
    ensures Distinct(UsableFrames(rs)) <==> SeparateSpans(rs)
    decreases |rs|
  {
    if rs != [] {
      DistinctIffSeparate(rs[1..]);
      SeparateStep(rs);
      DistinctStep(rs);
    }
  }

  // ---- page-aligned, disjoint memory maps ----

  /** Usable regions start and end on page boundaries and do not overlap as address ranges. */
  predicate WellFormed(rs: seq<Region>) {
    && (forall i :: 0 <= i < |rs| && rs[i].usable ==>
          rs[i].start % PAGE == 0 && rs[i].end % PAGE == 0 && rs[i].start <= rs[i].end)
    && (forall i, j :: 0 <= i < j < |rs| && rs[i].usable && rs[j].usable ==>
          rs[i].end <= rs[j].start || rs[j].end <= rs[i].start)
  }

  /** `f` is the first address of a frame inside usable region `r`. */
  predicate FrameOf(r: Region, f: nat) {
    r.usable && f % PAGE == 0 && r.start <= f < r.end
  }

  lemma AlignedSpan(r: Region, f: nat)
    requires r.start % PAGE == 0 && r.end % PAGE == 0 && r.start <= r.end
    ensures InSpan(r, f) <==> f % PAGE == 0 && r.start <= f < r.end
    ensures r.start / PAGE + PageCount(r) == r.end / PAGE
  {}

  lemma WellFormedIsSeparate(rs: seq<Region>)
    requires WellFormed(rs)
    ensures SeparateSpans(rs)
  {
    forall i, j | 0 <= i < j < |rs| && rs[i].usable && rs[j].usable ensures SpansDisjoint(rs[i], rs[j]) {
      AlignedSpan(rs[i], 0);
      AlignedSpan(rs[j], 0);
    }
  }

  ghost predicate HandedOut(rs: seq<Region>, f: nat) {
    exists n: nat :: FrameAt(rs, n) == Some(f)
  }

  ghost predicate IsUsableFrame(rs: seq<Region>, f: nat) {
    exists i :: 0 <= i < |rs| && FrameOf(rs[i], f)
  }

  lemma HandedOutIff(rs: seq<Region>, f: nat)
    requires WellFormed(rs)
    ensures HandedOut(rs, f) <==> IsUsableFrame(rs, f)
  {
    var fs := UsableFrames(rs);
    UsableFramesAre(rs, f);
    if f in fs {
      var n :| 0 <= n < |fs| && fs[n] == f;
      assert FrameAt(rs, n) == Some(f);
      var i :| 0 <= i < |rs| && rs[i].usable && InSpan(rs[i], f);
      AlignedSpan(rs[i], f);
      assert FrameOf(rs[i], f);
    } else if i :| 0 <= i < |rs| && FrameOf(rs[i], f) {
      AlignedSpan(rs[i], f);
    }
  }

  /**
   For any well-formed memory map, successive calls hand out every usable frame
   exactly once, and then nothing for ever.
   */
  lemma EveryFrameOnce(rs: seq<Region>)
    requires WellFormed(rs)
    ensures forall m, n :: 0 <= m < n && FrameAt(rs, m).Some? ==> FrameAt(rs, m) != FrameAt(rs, n)
    ensures forall f: nat :: HandedOut(rs, f) <==> IsUsableFrame(rs, f)
    ensures forall m, n :: 0 <= m < n && FrameAt(rs, m).None? ==> FrameAt(rs, n).None?
  {
    WellFormedIsSeparate(rs);
    DistinctIffSeparate(rs);
    forall f: nat ensures HandedOut(rs, f) <==> IsUsableFrame(rs, f) {
      HandedOutIff(rs, f);
    }
  }

  /** Without alignment disjoint ranges are not enough: two halves of one page give its frame twice. */
  lemma UnalignedRepeats()
    ensures var rs := [Region(0, 100, true), Region(100, 200, true)];
      FrameAt(rs, 0) == FrameAt(rs, 1) == Some(0)
  {
    var rs := [Region(0, 100, true), Region(100, 200, true)];
    assert RegionFrames(0, 100) == [0] && RegionFrames(100, 200) == [0];
    assert UsableFrames(rs[1..]) == [0] + UsableFrames([]);
    assert UsableFrames(rs) == [0] + [0];
  }

  // ---- the allocator and the heap ----

  class FrameAllocator {
    const regions: seq<Region>
    var next: nat

    constructor (regions: seq<Region>)
      ensures this.regions == regions && next == 0
    {
      this.regions := regions;
      next := 0;
    }

    method AllocateFrame() returns (frame: Option<nat>)
      modifies this
      ensures frame == FrameAt(regions, old(next)) && next == old(next) + 1
    {
      var fs := UsableFrames(regions);
      frame := if next < |fs| then Some(fs[next]) else None;
      next := next + 1;
    }
  }

  /** What the paging code does for one page: how many page tables it creates, and whether it refuses. */
  datatype Plan = Plan(tables: nat, refuses: bool)

  class Mapper {
    var mappings: map<nat, nat>
    var tables: seq<nat>

    constructor ()
      ensures mappings == map[] && tables == []
    {
      mappings := map[];
      tables := [];
    }

    /** `map_to`: page tables come from the same allocator; a failure changes no mapping. */
    method MapTo(page: nat, frame: nat, plan: Plan, alloc: FrameAllocator) returns (ok: bool)
      modifies this, alloc
      ensures !ok <==> plan.refuses || !Available(UsableFrames(alloc.regions), old(alloc.next), plan.tables)
      ensures ok ==>
        && mappings == old(mappings)[page := frame]
        && alloc.next == old(alloc.next) + plan.tables
        && tables == old(tables) + Drawn(UsableFrames(alloc.regions), old(alloc.next), plan.tables)
      ensures !ok ==> mappings == old(mappings)
    {
      ghost var fs, first := UsableFrames(alloc.regions), alloc.next;
      var i := 0;
      while i < plan.tables
        invariant i <= plan.tables && alloc.next == first + i && mappings == old(mappings)
        invariant Available(fs, first, i)
        invariant tables == old(tables) + Drawn(fs, first, i)
      {
        var t := alloc.AllocateFrame();
        if t.None? {
          return false;
        }
        assert Drawn(fs, first, i) + [t.value] == Drawn(fs, first, i + 1);
        tables := tables + [t.value];
        i := i + 1;
      }
      if plan.refuses {
        return false;
      }
      mappings := mappings[page := frame];
      ok := true;
    }
  }

  predicate Available(fs: seq<nat>, first: nat, n: nat) {
    n == 0 || first + n <= |fs|
  }

  /** The `n` frames from the `first` on. */
  function Drawn(fs: seq<nat>, first: nat, n: nat): seq<nat>
    requires Available(fs, first, n)
  {
    if n == 0 then [] else fs[first..first + n]
  }

  const FIRST_PAGE: nat := HEAP_START / PAGE
  const LAST_PAGE: nat := (HEAP_START + HEAP_SIZE - 1) / PAGE
  const HEAP_PAGES: nat := LAST_PAGE - FIRST_PAGE + 1

  /** The heap is the 512 pages of the two mebibytes from 0x4444_4444_0000 on. */
  lemma HeapPagesAre(address: nat)
    ensures FIRST_PAGE <= address / PAGE <= LAST_PAGE <==> 0x4444_4444_0000 <= address < 0x4444_4464_0000
    ensures HEAP_PAGES == 512
  {}

  /** The frames needed to map the pages of `plans`: one each, and their page tables. */
  function Demand(plans: seq<Plan>): nat {
    if plans == [] then 0 else 1 + plans[0].tables + Demand(plans[1..])
  }

  /** How the frames drawn since `first` are used: `pos` by the heap pages, `tpos` by page tables. */
  ghost predicate Accounted(fs: seq<nat>, first: nat, next: nat, pos: seq<nat>, tpos: seq<nat>) {
    && (forall k :: 0 <= k < |pos| ==> first <= pos[k] < next && pos[k] < |fs|)
    && (forall k :: 0 <= k < |tpos| ==> first <= tpos[k] < next && tpos[k] < |fs|)
    && (forall k, l :: 0 <= k < l < |pos| ==> pos[k] < pos[l])
    && (forall k, l :: 0 <= k < |pos| && 0 <= l < |tpos| ==> pos[k] != tpos[l])
  }

  ghost function Pick(fs: seq<nat>, pos: seq<nat>): (r: seq<nat>)
    requires forall k :: 0 <= k < |pos| ==> pos[k] < |fs|
    ensures |r| == |pos| && forall k :: 0 <= k < |pos| ==> r[k] == fs[pos[k]]
  {
    seq(|pos|, k requires 0 <= k < |pos| => fs[pos[k]])
  }

  /** The indices `first`, `first` + 1, ..., `n` of them. */
  ghost function Indices(first: nat, n: nat): (r: seq<nat>)
    ensures |r| == n && forall k :: 0 <= k < n ==> r[k] == first + k
  {
    seq(n, k requires 0 <= k => first + k)
  }

  /** Heap pages 0, 1, ... are mapped to `frames`, and no other mapping has changed. */
  ghost predicate MappedTo(before: map<nat, nat>, after: map<nat, nat>, frames: seq<nat>) {
    && (forall p: nat :: p in after <==> p in before || FIRST_PAGE <= p < FIRST_PAGE + |frames|)
    && (forall p: nat :: p in after ==>
          after[p] == if FIRST_PAGE <= p < FIRST_PAGE + |frames| then frames[p - FIRST_PAGE] else before[p])
  }

  /** One page mapped: its frame, then its page tables, are accounted for. */
  lemma AccountPage(fs: seq<nat>, first: nat, next: nat, pos: seq<nat>, tpos: seq<nat>, n: nat)
    requires Accounted(fs, first, next, pos, tpos) && first <= next < |fs|
    requires Available(fs, next + 1, n)
    ensures Accounted(fs, first, next + 1 + n, pos + [next], tpos + Indices(next + 1, n))
  {}

  lemma MappedOne(before: map<nat, nat>, after: map<nat, nat>, frames: seq<nat>, frame: nat)
    requires MappedTo(before, after, frames)
    ensures MappedTo(before, after[FIRST_PAGE + |frames| := frame], frames + [frame])
  {}

  lemma PickOne(fs: seq<nat>, pos: seq<nat>, next: nat)
    requires next < |fs| && forall k :: 0 <= k < |pos| ==> pos[k] < |fs|
    ensures Pick(fs, pos + [next]) == Pick(fs, pos) + [fs[next]]
  {}

  lemma PickDrawn(fs: seq<nat>, pos: seq<nat>, first: nat, n: nat)
    requires Available(fs, first, n) && forall k :: 0 <= k < |pos| ==> pos[k] < |fs|
    ensures Pick(fs, pos + Indices(first, n)) == Pick(fs, pos) + Drawn(fs, first, n)
  {}

  lemma Regroup(a: seq<nat>, b: seq<nat>, c: seq<nat>)
    ensures a + b + c == a + (b + c)
  {}

  /** The state of the page loop after |pos| pages. */
  ghost predicate Progress(
    fs: seq<nat>, first: nat, next: nat, pos: seq<nat>, tpos: seq<nat>,
    before: map<nat, nat>, after: map<nat, nat>, oldTables: seq<nat>, tables: seq<nat>)
  {
    && Accounted(fs, first, next, pos, tpos)
    && MappedTo(before, after, Pick(fs, pos))
    && tables == oldTables + Pick(fs, tpos)
  }

  lemma ProgressStep(
    fs: seq<nat>, first: nat, next: nat, pos: seq<nat>, tpos: seq<nat>,
    before: map<nat, nat>, after: map<nat, nat>, oldTables: seq<nat>, tables: seq<nat>,
    n: nat, after': map<nat, nat>, tables': seq<nat>)
    requires Progress(fs, first, next, pos, tpos, before, after, oldTables, tables)
    requires first <= next < |fs| && Available(fs, next + 1, n)
    requires after' == after[FIRST_PAGE + |pos| := fs[next]] && tables' == tables + Drawn(fs, next + 1, n)
    ensures Progress(fs, first, next + 1 + n, pos + [next], tpos + Indices(next + 1, n),
                     before, after', oldTables, tables')
  {
    AccountPage(fs, first, next, pos, tpos, n);
    MappedOne(before, after, Pick(fs, pos), fs[next]);
    PickOne(fs, pos, next);
    PickDrawn(fs, tpos, next + 1, n);
    Regroup(oldTables, Pick(fs, tpos), Drawn(fs, next + 1, n));
  }

  /** What a successful heap initialisation leaves: frames of its own for every heap page. */
  ghost predicate HeapReady(before: map<nat, nat>, after: map<nat, nat>, tables: seq<nat>, fs: seq<nat>) {
    && (forall p: nat :: p in after <==> p in before || FIRST_PAGE <= p <= LAST_PAGE)
    && (forall p: nat :: p in before && !(FIRST_PAGE <= p <= LAST_PAGE) ==> after[p] == before[p])
    && (forall p: nat :: FIRST_PAGE <= p <= LAST_PAGE ==> after[p] in fs && after[p] !in tables)
    && (forall p: nat, q: nat :: FIRST_PAGE <= p < q <= LAST_PAGE ==> after[p] != after[q])
  }

  lemma AccountedIsReady(
    fs: seq<nat>, first: nat, next: nat, pos: seq<nat>, tpos: seq<nat>, before: map<nat, nat>, after: map<nat, nat>)
    requires Distinct(fs) && Accounted(fs, first, next, pos, tpos) && |pos| == HEAP_PAGES
    requires MappedTo(before, after, Pick(fs, pos))
    ensures HeapReady(before, after, Pick(fs, tpos), fs)
  {
    var frames, tables := Pick(fs, pos), Pick(fs, tpos);
    forall p: nat | FIRST_PAGE <= p <= LAST_PAGE ensures after[p] in fs && after[p] !in tables {
      assert after[p] == frames[p - FIRST_PAGE] == fs[pos[p - FIRST_PAGE]];
    }
    forall p: nat, q: nat | FIRST_PAGE <= p < q <= LAST_PAGE ensures after[p] != after[q] {
      assert pos[p - FIRST_PAGE] < pos[q - FIRST_PAGE];
    }
  }

  /** The body of the page loop: a frame for the page, then the mapping. */
  method MapHeapPage(mapper: Mapper, alloc: FrameAllocator, page: nat, plan: Plan) returns (ok: bool)
    modifies mapper, alloc
    ensures var fs, next := UsableFrames(alloc.regions), old(alloc.next);
      if ok then
        && !plan.refuses && next + 1 + plan.tables <= |fs| && alloc.next == next + 1 + plan.tables
        && mapper.mappings == old(mapper.mappings)[page := fs[next]]
        && mapper.tables == old(mapper.tables) + Drawn(fs, next + 1, plan.tables)
      else (plan.refuses || next + 1 + plan.tables > |fs|) && mapper.mappings == old(mapper.mappings)
  {
    var frame := alloc.AllocateFrame();
    if frame.None? {
      return false;
    }
    ok := mapper.MapTo(page, frame.value, plan, alloc);
  }

  /** One turn of the page loop, with the account of where the frames went. */
  method MapNextPage(
    mapper: Mapper, alloc: FrameAllocator, i: nat, plan: Plan, ghost fs: seq<nat>, ghost first: nat,
    ghost pos: seq<nat>, ghost tpos: seq<nat>, ghost before: map<nat, nat>, ghost oldTables: seq<nat>)
    returns (ok: bool, ghost pos': seq<nat>, ghost tpos': seq<nat>)
    requires fs == UsableFrames(alloc.regions) && first <= alloc.next && |pos| == i
    requires Progress(fs, first, alloc.next, pos, tpos, before, mapper.mappings, oldTables, mapper.tables)
    modifies mapper, alloc
    ensures ok <==> !plan.refuses && old(alloc.next) + 1 + plan.tables <= |fs|
    ensures ok ==> alloc.next == old(alloc.next) + 1 + plan.tables && |pos'| == i + 1
    ensures ok ==> Progress(fs, first, alloc.next, pos', tpos', before, mapper.mappings, oldTables, mapper.tables)
    ensures !ok ==> mapper.mappings == old(mapper.mappings)
  {
    ghost var next, after, tables := alloc.next, mapper.mappings, mapper.tables;
    ok := MapHeapPage(mapper, alloc, FIRST_PAGE + i, plan);
    if ok {
      ProgressStep(fs, first, next, pos, tpos, before, after, oldTables, tables,
                   plan.tables, mapper.mappings, mapper.tables);
    }
    pos', tpos' := pos + [next], tpos + Indices(next + 1, plan.tables);
  }

  /** The page loop. */
  method MapHeapPages(mapper: Mapper, alloc: FrameAllocator, plans: seq<Plan>)
    returns (ok: bool, ghost pos: seq<nat>, ghost tpos: seq<nat>)
    modifies mapper, alloc
    ensures |pos| <= |plans| && (ok ==> |pos| == |plans|)
    ensures forall k :: 0 <= k < |pos| ==> pos[k] < |UsableFrames(alloc.regions)|
    ensures MappedTo(old(mapper.mappings), mapper.mappings, Pick(UsableFrames(alloc.regions), pos))
    ensures ok ==> Progress(UsableFrames(alloc.regions), old(alloc.next), alloc.next, pos, tpos,
                            old(mapper.mappings), mapper.mappings, old(mapper.tables), mapper.tables)
    ensures ok <==> Feasible(plans, UsableFrames(alloc.regions), old(alloc.next))
  {
    pos, tpos := [], [];
    ghost var fs := UsableFrames(alloc.regions);
    assert mapper.tables + [] == mapper.tables && plans[0..] == plans;
    var i := 0;
    while i < |plans|
      invariant i <= |plans| && |pos| == i && old(alloc.next) <= alloc.next
      invariant Progress(fs, old(alloc.next), alloc.next, pos, tpos,
                         old(mapper.mappings), mapper.mappings, old(mapper.tables), mapper.tables)
      invariant Feasible(plans, fs, old(alloc.next)) <==> Feasible(plans[i..], fs, alloc.next)
    {
      FeasibleFrom(plans, i, fs, alloc.next);
      ghost var pos', tpos';
      ok, pos', tpos' := MapNextPage(mapper, alloc, i, plans[i], fs, old(alloc.next), pos, tpos,
                                     old(mapper.mappings), old(mapper.tables));
      if !ok {
        return;
      }
      pos, tpos := pos', tpos';
      i := i + 1;
    }
    ok := true;
  }

  /** The pages of `plans` can all be mapped from the `next`-th frame on. */
  predicate Feasible(plans: seq<Plan>, fs: seq<nat>, next: nat)
    decreases |plans|
  {
    plans == [] ||
    (&& !plans[0].refuses && next + 1 + plans[0].tables <= |fs|
     && Feasible(plans[1..], fs, next + 1 + plans[0].tables))
  }

  lemma FeasibleFrom(plans: seq<Plan>, i: nat, fs: seq<nat>, next: nat)
    requires i < |plans|
    ensures Feasible(plans[i..], fs, next)
       <==> && !plans[i].refuses && next + 1 + plans[i].tables <= |fs|
            && Feasible(plans[i + 1..], fs, next + 1 + plans[i].tables)
  {
    assert plans[i..][1..] == plans[i + 1..];
  }

  predicate Accepts(plans: seq<Plan>) {
    forall k :: 0 <= k < |plans| ==> !plans[k].refuses
  }

  /** That is: no page is refused, and there are as many frames as pages and page tables. */
  lemma {:induction false} FeasibleIff(plans: seq<Plan>, fs: seq<nat>, next: nat)
    requires next <= |fs|
    ensures Feasible(plans, fs, next) <==> Accepts(plans) && next + Demand(plans) <= |fs|
    decreases |plans|
  {
    if plans != [] {
      var after := next + 1 + plans[0].tables;
      assert Accepts(plans) ==> Accepts(plans[1..]);
      assert forall k :: 0 < k < |plans| ==> plans[k] == plans[1..][k - 1];
      if after <= |fs| {
        FeasibleIff(plans[1..], fs, after);
      }
    }
  }

  /**
   `init_heap`. It succeeds exactly when the paging code refuses no page and there
   are frames for all heap pages and page tables; then every heap page has a
   usable frame of its own, which no page table shares. Other mappings never change.
   */
  method InitHeap(mapper: Mapper, alloc: FrameAllocator, plans: seq<Plan>) returns (ok: bool)
    requires |plans| == HEAP_PAGES && SeparateSpans(alloc.regions)
    modifies mapper, alloc
    ensures ok <==> Feasible(plans, UsableFrames(alloc.regions), old(alloc.next))
    ensures forall p: nat :: !(FIRST_PAGE <= p <= LAST_PAGE) ==>
      && (p in mapper.mappings <==> p in old(mapper.mappings))
      && (p in mapper.mappings ==> mapper.mappings[p] == old(mapper.mappings)[p])
    ensures ok ==> old(mapper.tables) <= mapper.tables
    ensures ok ==> HeapReady(old(mapper.mappings), mapper.mappings, mapper.tables[|old(mapper.tables)|..],
                             UsableFrames(alloc.regions))
  {
    ghost var pos: seq<nat>, tpos: seq<nat>;
    ok, pos, tpos := MapHeapPages(mapper, alloc, plans);
    if ok {
      ghost var fs := UsableFrames(alloc.regions);
      DistinctIffSeparate(alloc.regions);
      AccountedIsReady(fs, old(alloc.next), alloc.next, pos, tpos, old(mapper.mappings), mapper.mappings);
      assert mapper.tables[|old(mapper.tables)|..] == Pick(fs, tpos);
    }
  }
}

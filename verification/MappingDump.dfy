/** The memory map dump: segments and kernel maps merged in address order, a segment taking the place of its maps. */
module MappingDump {
  import opened Common
  import SegmentOrder

  /** A segment as it is printed. */
  datatype Region = Region(va: nat, sz: nat)

  /** One entry of the map table of the kernel. */
  datatype Map = Map(va: nat, sz: nat, flags: nat)

  datatype Line = SegLine(va: nat, k: nat) | MapLine(va: nat, i: nat)

  /** Segments are not empty and do not overlap. */
  predicate AscendingRegions(rs: seq<Region>) {
    && (forall i :: 0 <= i < |rs| ==> rs[i].sz > 0)
    && (forall i, j :: 0 <= i < j < |rs| ==> rs[i].va + rs[i].sz <= rs[j].va)
  }

  predicate AscendingMaps(maps: seq<Map>) {
    && (forall i :: 0 <= i < |maps| ==> maps[i].sz > 0)
    && (forall i, j :: 0 <= i < j < |maps| ==> maps[i].va < maps[j].va)
  }

  predicate AscendingLines(lines: seq<Line>) {
    forall i, j :: 0 <= i < j < |lines| ==> lines[i].va < lines[j].va
  }

  /** Map i and its successor are the first page of a library and the rest of that segment. */
  predicate Split(r: Region, maps: seq<Map>, i: nat)
    requires i < |maps|
  {
    && i + 1 < |maps| && maps[i].sz == PAGE && maps[i].va + maps[i].sz == maps[i + 1].va
    && maps[i].sz + maps[i + 1].sz == r.sz && maps[i].flags == maps[i + 1].flags
  }

  predicate InMap(m: Map, v: nat) {
    m.va <= v < m.va + m.sz
  }

  /** The bytes of the segment are those of the two maps. */
  ghost predicate SameBytes(r: Region, a: Map, b: Map) {
    forall v: nat :: r.va <= v < r.va + r.sz <==> InMap(a, v) || InMap(b, v)
  }

  /**
   * That is, the first one is a page, they do not overlap, have the same flags, and
   * together have exactly the bytes of the segment.
   */
  lemma SplitIff(r: Region, maps: seq<Map>, i: nat)
    requires i < |maps| && maps[i].va == r.va && (i + 1 < |maps| ==> maps[i + 1].sz > 0)
    ensures Split(r, maps, i) <==>
            && i + 1 < |maps| && maps[i].sz == 0x1000 && maps[i].va + maps[i].sz <= maps[i + 1].va
            && maps[i].flags == maps[i + 1].flags
            && SameBytes(r, maps[i], maps[i + 1])
  {
    if i + 1 < |maps| && maps[i].sz == 0x1000 && maps[i].va + maps[i].sz <= maps[i + 1].va {
      UnionIff(r, maps[i], maps[i + 1]);
    }
  }

  lemma UnionIff(r: Region, a: Map, b: Map)
    requires a.va == r.va && a.sz > 0 && b.sz > 0 && a.va + a.sz <= b.va
    ensures a.va + a.sz == b.va && a.sz + b.sz == r.sz <==>
            SameBytes(r, a, b)
  {
    if SameBytes(r, a, b) {
      var last: nat, end: nat := b.va + b.sz - 1, r.va + r.sz;
      assert InMap(b, last) && !InMap(a, end) && !InMap(b, end);
      var top: nat := end - 1;
      assert InMap(a, top) || InMap(b, top);
      var first: nat := a.va + a.sz;
      assert !InMap(a, first) && r.va <= first < end;
      assert InMap(b, first);
    } else if a.va + a.sz == b.va && a.sz + b.sz == r.sz {
      assert forall v: nat :: r.va <= v < r.va + r.sz <==> InMap(a, v) || InMap(b, v);
    }
  }

  /** Map i is shown as segment k: it starts where the segment does, or is the second part of a split one. */
  predicate CoveredBy(rs: seq<Region>, maps: seq<Map>, i: nat, k: nat)
    requires i < |maps| && k < |rs|
  {
    maps[i].va == rs[k].va || (i > 0 && maps[i - 1].va == rs[k].va && Split(rs[k], maps, i - 1))
  }

  predicate Covered(rs: seq<Region>, maps: seq<Map>, i: nat)
    requires i < |maps|
  {
    exists k :: 0 <= k < |rs| && CoveredBy(rs, maps, i, k)
  }

  // ----- The inner loop -----

  /** The maps from `from` up to, but not including, `upto`. */
  function MapLines(maps: seq<Map>, from: nat, upto: nat): (lines: seq<Line>)
    requires from <= upto <= |maps|
    ensures |lines| == upto - from && forall j :: 0 <= j < |lines| ==> lines[j] == MapLine(maps[from + j].va, from + j)
  {
    seq(upto - from, j requires 0 <= j < upto - from => MapLine(maps[from + j].va, from + j))
  }

  /**
   * What the inner loop does for a segment r with maps from mapIdx on to go: it
   * prints the maps below r and passes over those that show r. `at` is the first
   * map that is not below r.
   */
  predicate Skips(r: Region, maps: seq<Map>, mapIdx: nat, at: nat, next: nat)
    requires mapIdx <= |maps|
  {
    && mapIdx <= at <= next <= |maps|
    && (forall i :: mapIdx <= i < at ==> maps[i].va < r.va)
    && (at < |maps| ==> maps[at].va >= r.va)
    && next == (if at == |maps| || maps[at].va > r.va then at else if Split(r, maps, at) then at + 2 else at + 1)
  }

  /**
   * The inner loop of ta_elf_print_mappings(); false is a failed assert: a map starts
   * where the segment does and differs in size.
   */
  method SkipMaps(r: Region, maps: seq<Map>, mapIdx: nat) returns (ok: bool, lines: seq<Line>, next: nat, ghost at: nat)
    requires AscendingMaps(maps) && mapIdx <= |maps|
    ensures ok ==> Skips(r, maps, mapIdx, at, next) && lines == MapLines(maps, mapIdx, at)
    ensures ok <==> forall i :: mapIdx <= i < |maps| && maps[i].va == r.va ==> maps[i].sz == r.sz || Split(r, maps, i)
  {
    lines, next, at := [], mapIdx, mapIdx;
    while next < |maps| && maps[next].va <= r.va
      invariant mapIdx <= at <= next <= |maps|
      invariant lines == MapLines(maps, mapIdx, at) && forall i :: mapIdx <= i < at ==> maps[i].va < r.va
      invariant at == next || Skips(r, maps, mapIdx, at, next)
      invariant at < next ==> maps[at].va == r.va && (maps[at].sz == r.sz || Split(r, maps, at))
    {
      if maps[next].va == r.va {
        if next + 1 < |maps| && maps[next].sz == PAGE {
          var nextVa := maps[next].va + maps[next].sz;
          var combSz := maps[next].sz + maps[next + 1].sz;
          if nextVa == maps[next + 1].va && combSz == r.sz && maps[next].flags == maps[next + 1].flags {
            next := next + 2;
            continue;
          }
        }
        if maps[next].sz != r.sz {
          return false, lines, next, at;
        }
      } else {
        lines := lines + [MapLine(maps[next].va, next)];
        at := at + 1;
      }
      next := next + 1;
    }
    ok := true;
  }

  // ----- The outer loop -----

  /** Where the dump stands after k segments and m maps. */
  ghost predicate Frontier(rs: seq<Region>, maps: seq<Map>, k: nat, m: nat) {
    && k <= |rs| && m <= |maps|
    && (k > 0 && m < |maps| ==> rs[k - 1].va < maps[m].va)
    && (m > 0 && k < |rs| ==> maps[m - 1].va < rs[k].va)
    && (m < |maps| ==> forall t :: 0 <= t < k ==> !CoveredBy(rs, maps, m, t))
  }

  /** A printed line is a segment before k, or a map before m that is not shown as a segment. */
  ghost predicate LineOk(rs: seq<Region>, maps: seq<Map>, k: nat, m: nat, l: Line)
    requires k <= |rs| && m <= |maps|
  {
    if l.SegLine? then l.k < k && l == SegLine(rs[l.k].va, l.k)
    else l.i < m && l == MapLine(maps[l.i].va, l.i) && !Covered(rs, maps, l.i)
  }

  /** The lines so far: ascending, below everything to come, and complete. */
  ghost predicate Dumped(rs: seq<Region>, maps: seq<Map>, k: nat, m: nat, lines: seq<Line>)
    requires k <= |rs| && m <= |maps|
  {
    && AscendingLines(lines)
    && (forall l :: l in lines ==> LineOk(rs, maps, k, m, l))
    && (forall t :: 0 <= t < k ==> SegLine(rs[t].va, t) in lines)
    && (forall i :: 0 <= i < m && !Covered(rs, maps, i) ==> MapLine(maps[i].va, i) in lines)
  }

  lemma PrintedIsUncovered(rs: seq<Region>, maps: seq<Map>, k: nat, m: nat, i: nat)
    requires AscendingRegions(rs) && AscendingMaps(maps) && Frontier(rs, maps, k, m) && m <= i < |maps|
    requires k < |rs| ==> maps[i].va < rs[k].va
    ensures !Covered(rs, maps, i)
  {
    forall t | 0 <= t < |rs| ensures !CoveredBy(rs, maps, i, t) {
      assert m < i ==> maps[m].va <= maps[i - 1].va;
    }
  }

  lemma SkippedIsCovered(rs: seq<Region>, maps: seq<Map>, k: nat, m: nat, at: nat, next: nat, i: nat)
    requires k < |rs| && m <= |maps| && Skips(rs[k], maps, m, at, next) && at <= i < next
    ensures Covered(rs, maps, i)
  {
    assert CoveredBy(rs, maps, i, k);
  }

  lemma FrontierStep(rs: seq<Region>, maps: seq<Map>, k: nat, m: nat, at: nat, next: nat)
    requires AscendingRegions(rs) && AscendingMaps(maps) && Frontier(rs, maps, k, m) && k < |rs|
    requires Skips(rs[k], maps, m, at, next)
    ensures Frontier(rs, maps, k + 1, next)
  {
    if next < |maps| {
      forall t | 0 <= t < k + 1 ensures !CoveredBy(rs, maps, next, t) {
        assert t < k ==> rs[t].va + rs[t].sz <= rs[k].va;
        if next == at && at > m {
          assert maps[m].va <= maps[next - 1].va;
        }
      }
    }
  }

  lemma NewLinesAreOk(rs: seq<Region>, maps: seq<Map>, k: nat, m: nat, at: nat, next: nat, lines: seq<Line>, l: Line)
    requires AscendingRegions(rs) && AscendingMaps(maps) && Frontier(rs, maps, k, m) && k < |rs| &&
             Dumped(rs, maps, k, m, lines)
    requires Skips(rs[k], maps, m, at, next) && l in lines + MapLines(maps, m, at) + [SegLine(rs[k].va, k)]
    ensures LineOk(rs, maps, k + 1, next, l)
  {
    if l in lines {
      assert LineOk(rs, maps, k, m, l);
    } else if l in MapLines(maps, m, at) {
      PrintedIsUncovered(rs, maps, k, m, l.i);
    }
  }

  lemma NoMapIsLost(rs: seq<Region>, maps: seq<Map>, k: nat, m: nat, at: nat, next: nat, lines: seq<Line>, i: nat)
    requires k < |rs| && m <= |maps| && Dumped(rs, maps, k, m, lines)
    requires Skips(rs[k], maps, m, at, next) && i < next && !Covered(rs, maps, i)
    ensures MapLine(maps[i].va, i) in lines + MapLines(maps, m, at)
  {
    if m <= i {
      if at <= i {
        SkippedIsCovered(rs, maps, k, m, at, next, i);
      } else {
        assert MapLines(maps, m, at)[i - m] == MapLine(maps[i].va, i);
      }
    }
  }

  lemma DumpStep(rs: seq<Region>, maps: seq<Map>, k: nat, m: nat, at: nat, next: nat, lines: seq<Line>)
    requires AscendingRegions(rs) && AscendingMaps(maps) && Frontier(rs, maps, k, m) && k < |rs| &&
             Dumped(rs, maps, k, m, lines)
    requires Skips(rs[k], maps, m, at, next)
    ensures Dumped(rs, maps, k + 1, next, lines + MapLines(maps, m, at) + [SegLine(rs[k].va, k)])
  {
    var after := lines + MapLines(maps, m, at) + [SegLine(rs[k].va, k)];
    LinesAscend(rs, maps, k, m, at, lines);
    forall l | l in after ensures LineOk(rs, maps, k + 1, next, l) {
      NewLinesAreOk(rs, maps, k, m, at, next, lines, l);
    }
    forall i | 0 <= i < next && !Covered(rs, maps, i) ensures MapLine(maps[i].va, i) in after {
      NoMapIsLost(rs, maps, k, m, at, next, lines, i);
    }
  }

  /** Old lines, maps below the segment, the segment: in ascending order. */
  lemma LinesAscend(rs: seq<Region>, maps: seq<Map>, k: nat, m: nat, at: nat, lines: seq<Line>)
    requires AscendingRegions(rs) && AscendingMaps(maps) && Frontier(rs, maps, k, m) && Dumped(rs, maps, k, m, lines)
    requires m <= at <= |maps| && forall i :: m <= i < at && k < |rs| ==> maps[i].va < rs[k].va
    ensures AscendingLines(lines + MapLines(maps, m, at))
    ensures k < |rs| ==> AscendingLines(lines + MapLines(maps, m, at) + [SegLine(rs[k].va, k)])
  {
    var all := lines + MapLines(maps, m, at);
    forall j | 0 <= j < |lines| ensures (m < |maps| ==> lines[j].va < maps[m].va) &&
        (k < |rs| ==> lines[j].va < rs[k].va) {
      assert LineOk(rs, maps, k, m, lines[j]);
    }
    assert forall j :: 0 <= j < |all| && k < |rs| ==> all[j].va < rs[k].va;
  }

  /** A map that starts where the segment does has its size or is split. */
  predicate Matches(r: Region, maps: seq<Map>) {
    forall i :: 0 <= i < |maps| && maps[i].va == r.va ==> maps[i].sz == r.sz || Split(r, maps, i)
  }

  lemma PassedMapsAreBelow(rs: seq<Region>, maps: seq<Map>, k: nat, m: nat)
    requires AscendingMaps(maps) && Frontier(rs, maps, k, m) && k < |rs|
    ensures forall i :: 0 <= i < m ==> maps[i].va < rs[k].va
  {
  }

  /** The whole dump. */
  ghost predicate Complete(rs: seq<Region>, maps: seq<Map>, lines: seq<Line>) {
    && AscendingLines(lines)
    && (forall k :: 0 <= k < |rs| ==> SegLine(rs[k].va, k) in lines)
    && (forall i :: 0 <= i < |maps| ==> (MapLine(maps[i].va, i) in lines <==> !Covered(rs, maps, i)))
    && (forall l :: l in lines ==>
          if l.SegLine? then l.k < |rs| && l.va == rs[l.k].va else l.i < |maps| && l.va == maps[l.i].va)
  }

  lemma DumpEnds(rs: seq<Region>, maps: seq<Map>, m: nat, lines: seq<Line>)
    requires AscendingRegions(rs) && AscendingMaps(maps) && Frontier(rs, maps, |rs|, m) &&
             Dumped(rs, maps, |rs|, m, lines)
    ensures Complete(rs, maps, lines + MapLines(maps, m, |maps|))
  {
    var more := MapLines(maps, m, |maps|);
    var all := lines + more;
    LinesAscend(rs, maps, |rs|, m, |maps|, lines);
    forall l | l in all ensures LineOk(rs, maps, |rs|, |maps|, l) {
      if l in lines {
        assert LineOk(rs, maps, |rs|, m, l);
      } else {
        PrintedIsUncovered(rs, maps, |rs|, m, l.i);
      }
    }
    forall i | 0 <= i < |maps| ensures MapLine(maps[i].va, i) in all <==> !Covered(rs, maps, i) {
      if m <= i {
        assert more[i - m] == MapLine(maps[i].va, i);
      }
      if MapLine(maps[i].va, i) in all {
        assert LineOk(rs, maps, |rs|, |maps|, MapLine(maps[i].va, i));
      }
    }
  }

  /** One round of the outer loop: the maps before segment k, then the segment. */
  method DumpSegment(rs: seq<Region>, maps: seq<Map>, k: nat, m: nat, lines: seq<Line>)
    returns (ok: bool, after: seq<Line>, next: nat)
    requires AscendingRegions(rs) && AscendingMaps(maps) && k < |rs| && Frontier(rs, maps, k, m) &&
             Dumped(rs, maps, k, m, lines)
    ensures ok ==> Frontier(rs, maps, k + 1, next) && Dumped(rs, maps, k + 1, next, after)
    ensures ok <==> Matches(rs[k], maps)
  {
    var more;
    ghost var at;
    ok, more, next, at := SkipMaps(rs[k], maps, m);
    PassedMapsAreBelow(rs, maps, k, m);
    if !ok {
      return false, lines, next;
    }
    FrontierStep(rs, maps, k, m, at, next);
    DumpStep(rs, maps, k, m, at, next, lines);
    after := lines + more + [SegLine(rs[k].va, k)];
  }

  /** What is left when no segment is: the other maps. */
  method DumpRest(rs: seq<Region>, maps: seq<Map>, m: nat, lines: seq<Line>, end: nat) returns (all: seq<Line>)
    requires AscendingRegions(rs) && AscendingMaps(maps) && forall i :: 0 <= i < |maps| ==> maps[i].va < end
    requires Frontier(rs, maps, |rs|, m) && Dumped(rs, maps, |rs|, m, lines)
    ensures Complete(rs, maps, all)
  {
    var ok, rest, next;
    ghost var at;
    ok, rest, next, at := SkipMaps(Region(end, 0), maps, m);
    assert ok && at == |maps|;
    DumpEnds(rs, maps, m, lines);
    all := lines + rest;
  }

  /**
   * The merge of ta_elf_print_mappings(), for segments in ascending order. It
   * fails exactly when a map starts where a segment does and neither has its size
   * nor is split; otherwise the dump is ascending, shows every segment, and every
   * map that is not shown as one. `end` is the address used when no segment is left.
   */
  method MergeMappings(rs: seq<Region>, maps: seq<Map>, end: nat) returns (ok: bool, lines: seq<Line>)
    requires AscendingRegions(rs) && AscendingMaps(maps) && forall i :: 0 <= i < |maps| ==> maps[i].va < end
    ensures ok ==> Complete(rs, maps, lines)
    ensures ok <==> forall k :: 0 <= k < |rs| ==> Matches(rs[k], maps)
  {
    lines := [];
    var m := 0;
    for k := 0 to |rs|
      invariant Frontier(rs, maps, k, m) && Dumped(rs, maps, k, m, lines)
      invariant forall t :: 0 <= t < k ==> Matches(rs[t], maps)
    {
      ok, lines, m := DumpSegment(rs, maps, k, m, lines);
      if !ok {
        return;
      }
    }
    lines := DumpRest(rs, maps, m, lines, end);
    ok := true;
  }

  // ----- From the queue of ELFs -----

  function Roundup(v: nat): (r: nat)
    ensures v <= r < v + PAGE && r % PAGE == 0
  {
    v + (PAGE - v % PAGE) % PAGE
  }

  function RegionOf(queue: seq<SegmentOrder.Elf>, p: SegmentOrder.Pos): (r: Region)
    requires SegmentOrder.ValidPos(queue, p)
  {
    var seg := queue[p.elf].segs[p.seg];
    Region(SegmentOrder.Va(queue, p), Roundup(seg.vaddr + seg.memsz) - (seg.vaddr - seg.vaddr % PAGE))
  }

  /** What is loaded does not overlap: the segments of an ELF, and the ELFs in the order of their load addresses. */
  ghost predicate Separate(queue: seq<SegmentOrder.Elf>) {
    && (forall p :: SegmentOrder.ValidPos(queue, p) ==> RegionOf(queue, p).sz > 0)
    && (forall p, q ::
          SegmentOrder.ValidPos(queue, p) && SegmentOrder.ValidPos(queue, q) && SegmentOrder.Before(queue, p, q) ==>
          RegionOf(queue, p).va + RegionOf(queue, p).sz <= RegionOf(queue, q).va)
  }

  function Regions(queue: seq<SegmentOrder.Elf>, ps: seq<SegmentOrder.Pos>): (rs: seq<Region>)
    requires SegmentOrder.AllValid(queue, ps)
    ensures |rs| == |ps| && forall k :: 0 <= k < |ps| ==> rs[k] == RegionOf(queue, ps[k])
  {
    seq(|ps|, k requires 0 <= k < |ps| && SegmentOrder.ValidPos(queue, ps[k]) => RegionOf(queue, ps[k]))
  }

  /** ta_elf_print_mappings(): the listing of the segments merged with the maps. */
  method PrintMappings(queue: seq<SegmentOrder.Elf>, maps: seq<Map>, end: nat)
    returns (ok: bool, lines: seq<Line>, ps: seq<SegmentOrder.Pos>)
    requires SegmentOrder.NonEmpty(queue) && Separate(queue)
    requires AscendingMaps(maps) && forall i :: 0 <= i < |maps| ==> maps[i].va < end
    ensures forall p :: p in ps <==> SegmentOrder.ValidPos(queue, p) && SegmentOrder.Listed(queue, p.elf)
    ensures SegmentOrder.AllValid(queue, ps) && SegmentOrder.Ascending(queue, ps)
    ensures ok ==> Complete(Regions(queue, ps), maps, lines)
    ensures ok <==> forall k :: 0 <= k < |ps| ==> Matches(Regions(queue, ps)[k], maps)
  {
    ps := SegmentOrder.ListSegments(queue);
    var rs := Regions(queue, ps);
    assert forall i, j :: 0 <= i < j < |ps| ==> SegmentOrder.Before(queue, ps[i], ps[j]);
    ok, lines := MergeMappings(rs, maps, end);
  }
}

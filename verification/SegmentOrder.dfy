/**
 * Listing the segments of all loaded ELFs in address order, without sorting
 * anything: the next ELF is always searched for by load address.
 */
module SegmentOrder {
  import opened Common

  datatype Seg = Seg(vaddr: nat, memsz: nat)

  datatype Elf = Elf(loadAddr: nat, segs: seq<Seg>)

  /** Segment `seg` of the ELF at position `elf` of the queue. */
  datatype Pos = Pos(elf: nat, seg: nat)

  datatype Cursor = Start | At(pos: Pos)

  predicate ValidPos(queue: seq<Elf>, p: Pos) {
    p.elf < |queue| && p.seg < |queue[p.elf].segs|
  }

  predicate ValidCursor(queue: seq<Elf>, c: Cursor) {
    c.At? ==> ValidPos(queue, c.pos)
  }

  /** Every loaded ELF has a segment. */
  predicate NonEmpty(queue: seq<Elf>) {
    forall i :: 0 <= i < |queue| ==> queue[i].segs != []
  }

  // ----- One step -----

  /** ELF i is the one to visit after load address va: the lowest above it, the first among equals. */
  predicate IsNext(queue: seq<Elf>, va: nat, i: nat) {
    && i < |queue| && queue[i].loadAddr > va
    && forall j :: 0 <= j < |queue| && queue[j].loadAddr > va ==>
         queue[i].loadAddr < queue[j].loadAddr || (queue[i].loadAddr == queue[j].loadAddr && i <= j)
  }

  function Base(queue: seq<Elf>, c: Cursor): (va: nat)
    requires ValidCursor(queue, c)
  {
    if c.Start? then 0 else queue[c.pos.elf].loadAddr
  }

  /** What a step from c must yield. */
  predicate Follows(queue: seq<Elf>, c: Cursor, next: Option<Pos>)
    requires ValidCursor(queue, c)
  {
    if c.At? && c.pos.seg + 1 < |queue[c.pos.elf].segs| then next == Some(Pos(c.pos.elf, c.pos.seg + 1))
    else
      match next
      case None => forall j :: 0 <= j < |queue| ==> queue[j].loadAddr <= Base(queue, c)
      case Some(p) => p.seg == 0 && IsNext(queue, Base(queue, c), p.elf)
  }

  /** get_next_in_order() */
  method GetNextInOrder(queue: seq<Elf>, c: Cursor) returns (next: Option<Pos>)
    requires ValidCursor(queue, c)
    ensures Follows(queue, c, next)
  {
    if c.At? {
      var s := c.pos.seg + 1;
      if s < |queue[c.pos.elf].segs| {
        return Some(Pos(c.pos.elf, s));
      }
    }
    var va := Base(queue, c);
    next := None;
    for i := 0 to |queue|
      invariant next.None? ==> forall j :: 0 <= j < i ==> queue[j].loadAddr <= va
      invariant next.Some? ==> next.value.seg == 0 && next.value.elf < i && queue[next.value.elf].loadAddr > va
      invariant next.Some? ==> forall j :: 0 <= j < i && queue[j].loadAddr > va ==>
                  queue[next.value.elf].loadAddr < queue[j].loadAddr ||
                  (queue[next.value.elf].loadAddr == queue[j].loadAddr && next.value.elf <= j)
    {
      if queue[i].loadAddr > va && (next.None? || queue[i].loadAddr < queue[next.value.elf].loadAddr) {
        next := Some(Pos(i, 0));
      }
    }
  }

  // ----- The whole listing -----

  /** Position p comes before q: by load address of the ELF, then by segment. */
  predicate Before(queue: seq<Elf>, p: Pos, q: Pos)
    requires ValidPos(queue, p) && ValidPos(queue, q)
  {
    queue[p.elf].loadAddr < queue[q.elf].loadAddr || (p.elf == q.elf && p.seg < q.seg)
  }

  /**
   * The listing can get to ELF i: it is loaded at a nonzero address, and no ELF before it
   * in the queue at the same one.
   */
  predicate Listed(queue: seq<Elf>, i: nat)
    requires i < |queue|
  {
    queue[i].loadAddr > 0 && forall j :: 0 <= j < i ==> queue[j].loadAddr != queue[i].loadAddr
  }

  predicate AllValid(queue: seq<Elf>, ps: seq<Pos>) {
    forall k :: 0 <= k < |ps| ==> ValidPos(queue, ps[k]) && Listed(queue, ps[k].elf)
  }

  predicate Ascending(queue: seq<Elf>, ps: seq<Pos>)
    requires AllValid(queue, ps)
  {
    forall i, j :: 0 <= i < j < |ps| ==> Before(queue, ps[i], ps[j])
  }

  /** Everything listed that is not after the cursor is in ps. */
  ghost predicate Caught(queue: seq<Elf>, ps: seq<Pos>, c: Cursor)
    requires ValidCursor(queue, c)
  {
    forall p :: ValidPos(queue, p) && Listed(queue, p.elf) && c.At? && !Before(queue, c.pos, p) ==> p in ps
  }

  lemma NextIsListed(queue: seq<Elf>, c: Cursor, p: Pos)
    requires NonEmpty(queue) && ValidCursor(queue, c) && Follows(queue, c, Some(p)) &&
             (c.At? ==> Listed(queue, c.pos.elf))
    ensures ValidPos(queue, p) && Listed(queue, p.elf)
    ensures c.At? ==> Before(queue, c.pos, p)
  {
  }

  /** No listed position lies between the cursor and the next position. */
  lemma NothingBetween(queue: seq<Elf>, c: Cursor, p: Pos, q: Pos)
    requires NonEmpty(queue) && ValidCursor(queue, c) && Follows(queue, c, Some(p)) &&
             (c.At? ==> Listed(queue, c.pos.elf))
    requires ValidPos(queue, p) && ValidPos(queue, q) && Listed(queue, q.elf) && (c.At? ==> Before(queue, c.pos, q))
    ensures p == q || Before(queue, p, q)
  {
    if c.At? && c.pos.elf == p.elf {
      SameElf(queue, p.elf, q.elf);
    } else {
      SameElf(queue, p.elf, q.elf);
      assert queue[q.elf].loadAddr > Base(queue, c);
    }
  }

  /** Listed ELFs with the same load address are the same. */
  lemma SameElf(queue: seq<Elf>, i: nat, j: nat)
    requires i < |queue| && j < |queue| && Listed(queue, j)
    ensures queue[i].loadAddr == queue[j].loadAddr && i <= j ==> i == j
    ensures Listed(queue, i) && queue[i].loadAddr == queue[j].loadAddr ==> i == j
  {
  }

  function Highest(queue: seq<Elf>): (h: nat)
    ensures forall i :: 0 <= i < |queue| ==> queue[i].loadAddr <= h
  {
    if queue == [] then 0
    else
      var h := Highest(queue[..|queue| - 1]);
      var last := queue[|queue| - 1].loadAddr;
      assert forall i :: 0 <= i < |queue| - 1 ==> queue[i] == queue[..|queue| - 1][i];
      if last > h then last else h
  }

  /**
   * Stepping from the start to the end: the listing is strictly ascending and
   * consists of exactly the segments of the ELFs it can get to.
   */
  method ListSegments(queue: seq<Elf>) returns (ps: seq<Pos>)
    requires NonEmpty(queue)
    ensures AllValid(queue, ps) && Ascending(queue, ps)
    ensures forall p :: p in ps <==> ValidPos(queue, p) && Listed(queue, p.elf)
  {
    ps := [];
    var c := Start;
    var next := GetNextInOrder(queue, c);
    while next.Some?
      invariant ValidCursor(queue, c) && (c.At? <==> ps != []) && (c.At? ==> ps[|ps| - 1] == c.pos)
      invariant AllValid(queue, ps) && Ascending(queue, ps)
      invariant Caught(queue, ps, c)
      invariant Follows(queue, c, next)
      decreases Highest(queue) - Base(queue, c), if c.At? then |queue[c.pos.elf].segs| - c.pos.seg else 0, next.Some?
    {
      var p := next.value;
      NextIsListed(queue, c, p);
      CatchNext(queue, ps, c, p);
      ps := ps + [p];
      c := At(p);
      next := GetNextInOrder(queue, c);
    }
    NothingLeft(queue, ps, c);
  }

  lemma CatchNext(queue: seq<Elf>, ps: seq<Pos>, c: Cursor, p: Pos)
    requires NonEmpty(queue) && ValidCursor(queue, c) && Follows(queue, c, Some(p)) && ValidPos(queue, p) &&
             Listed(queue, p.elf)
    requires (c.At? <==> ps != []) && (c.At? ==> ps[|ps| - 1] == c.pos)
    requires AllValid(queue, ps) && Ascending(queue, ps) && Caught(queue, ps, c)
    ensures AllValid(queue, ps + [p]) && Ascending(queue, ps + [p]) && Caught(queue, ps + [p], At(p))
  {
    forall q | ValidPos(queue, q) && Listed(queue, q.elf) && !Before(queue, p, q) ensures q in ps + [p] {
      if !(c.At? && !Before(queue, c.pos, q)) {
        NothingBetween(queue, c, p, q);
      }
    }
    var after := ps + [p];
    forall i, j | 0 <= i < j < |after| ensures Before(queue, after[i], after[j]) {
      if j == |ps| {
        NextIsListed(queue, c, p);
        assert i < |ps| - 1 ==> Before(queue, ps[i], ps[|ps| - 1]);
      }
    }
  }

  lemma NothingLeft(queue: seq<Elf>, ps: seq<Pos>, c: Cursor)
    requires NonEmpty(queue) && ValidCursor(queue, c) && Follows(queue, c, None) && AllValid(queue, ps) &&
             Caught(queue, ps, c)
    requires c.At? ==> Listed(queue, c.pos.elf)
    ensures forall p :: p in ps <==> ValidPos(queue, p) && Listed(queue, p.elf)
  {
    forall p | ValidPos(queue, p) && Listed(queue, p.elf) ensures p in ps {
      assert queue[p.elf].loadAddr <= Base(queue, c);
      if c.At? {
        SameElf(queue, c.pos.elf, p.elf);
      }
    }
  }

  /** Every segment of every ELF is listed exactly when the load addresses are distinct and nonzero. */
  lemma AllListedIff(queue: seq<Elf>)
    ensures (forall i :: 0 <= i < |queue| ==> Listed(queue, i)) <==>
            (forall i :: 0 <= i < |queue| ==> queue[i].loadAddr > 0) &&
            (forall i, j :: 0 <= i < j < |queue| ==> queue[i].loadAddr != queue[j].loadAddr)
  {
    if forall i :: 0 <= i < |queue| ==> Listed(queue, i) {
      forall i | 0 <= i < |queue| ensures queue[i].loadAddr > 0 {
        assert Listed(queue, i);
      }
      forall i, j | 0 <= i < j < |queue| ensures queue[i].loadAddr != queue[j].loadAddr {
        assert Listed(queue, j);
      }
    }
  }

  // ----- Addresses -----

  function Va(queue: seq<Elf>, p: Pos): (va: nat)
    requires ValidPos(queue, p)
  {
    var a := queue[p.elf].segs[p.seg].vaddr + queue[p.elf].loadAddr;
    a - a % PAGE
  }

  /**
   * Segments of an ELF are sorted and page-disjoint, and ELFs do not reach into the pages
   * of ELFs loaded above them.
   */
  predicate NotInterleaved(queue: seq<Elf>) {
    && (forall i, s, t :: 0 <= i < |queue| && 0 <= s < t < |queue[i].segs| ==>
       Va(queue, Pos(i, s)) < Va(queue, Pos(i, t)))
    && (forall i, j, s, t ::
          (0 <= i < |queue| && 0 <= j < |queue| && queue[i].loadAddr < queue[j].loadAddr
           && 0 <= s < |queue[i].segs| && 0 <= t < |queue[j].segs|)
          ==> Va(queue, Pos(i, s)) < Va(queue, Pos(j, t)))
  }

  /** Then the listing is in ascending order of addresses. */
  lemma ListingAscends(queue: seq<Elf>, ps: seq<Pos>, i: nat, j: nat)
    requires NotInterleaved(queue) && AllValid(queue, ps) && Ascending(queue, ps) && i < j < |ps|
    ensures Va(queue, ps[i]) < Va(queue, ps[j])
  {
    assert Before(queue, ps[i], ps[j]);
    var p, q := ps[i], ps[j];
    assert p == Pos(p.elf, p.seg) && q == Pos(q.elf, q.seg);
  }
}

/**
 * Normalising the load segments of an ELF: segments that meet in a page are
 * merged, the others are aligned down to page boundaries. The result is proved
 * to map the bytes of the original segments unchanged.
 */
module Segments {
  import opened Common

  const PF_W := 1  // bit number of the write permission
  const WORDS := 0x1_0000_0000  // number of size_t values with 32 bits

  /** `flags` is the set of the bits that are set in p_flags. */
  datatype Segment = Segment(offset: nat, vaddr: nat, filesz: nat, memsz: nat, flags: set<nat>, align: nat,
      remapped: bool) {
    function End(): (e: nat) { vaddr + memsz }

    /** Where the file-backed part ends, as an address. */
    function FileEnd(): (e: nat) { vaddr + filesz }

    /** Address minus file offset: a byte at address v is at offset v - Bias() of the file. */
    function Bias(): (b: int) { vaddr - offset }
  }

  function Rounddown(v: nat): (r: nat)
    ensures r <= v < r + PAGE && r % PAGE == 0
  {
    v - v % PAGE
  }

  /** The segment reaches into the last page of the segment before it. */
  predicate Meets(prev: Segment, seg: Segment) {
    Rounddown(seg.vaddr) < prev.End()
  }

  /** x & (align - 1) for a power of two; all bits of x for 0. */
  function Masked(x: nat, align: nat): (r: nat) {
    if align == 0 then x else x % align
  }

  /** The test for a file page that is mapped twice; `size` is the number of size_t values. */
  predicate SharesFilePage(prev: Segment, seg: Segment, size: nat)
    requires size > 0
  {
    Masked(seg.offset, seg.align) != 0 && Rounddown(seg.offset) < (prev.offset + prev.filesz) % size
  }

  function Merge(prev: Segment, seg: Segment, size: nat): (r: Segment)
    requires size > 0
  {
    prev.(filesz := (seg.vaddr + seg.filesz - prev.vaddr) % size,
          memsz := (seg.vaddr + seg.memsz - prev.vaddr) % size,
          flags := prev.flags + seg.flags)
  }

  function Align(seg: Segment, remap: bool): (r: Segment) {
    var slack := seg.vaddr - Rounddown(seg.vaddr);
    seg.(filesz := seg.filesz + slack, memsz := seg.memsz + slack, vaddr := Rounddown(seg.vaddr),
         offset := Rounddown(seg.offset), remapped := seg.remapped || remap)
  }

  // ----- The asserted input -----

  predicate SegmentSane(seg: Segment, size: nat) {
    && seg.align >= PAGE && seg.End() < size && seg.filesz <= seg.memsz
    && seg.offset % PAGE == seg.vaddr % PAGE
  }

  predicate PairSane(prev: Segment, seg: Segment, size: nat)
    requires size > 0
  {
    seg.vaddr >= prev.End() && seg.offset >= (prev.offset + prev.filesz) % size && seg.align == prev.align
  }

  predicate Sane(segs: seq<Segment>, size: nat)
    requires size > 0
  {
    && (forall i :: 0 <= i < |segs| ==> SegmentSane(segs[i], size))
    && (forall i :: 0 < i < |segs| ==> PairSane(segs[i - 1], segs[i], size))
  }

  /** What the asserts in front of the walk amount to. */
  lemma SaneIff(segs: seq<Segment>, size: nat)
    requires size > 0
    ensures Sane(segs, size) <==>
            && (forall i :: 0 <= i < |segs| ==>
                  && segs[i].align >= 0x1000 && segs[i].vaddr + segs[i].memsz < size && segs[i].filesz <= segs[i].memsz
                  && (segs[i].vaddr - segs[i].offset) % 0x1000 == 0)
            && (forall i :: 0 < i < |segs| ==>
                  && segs[i - 1].vaddr + segs[i - 1].memsz <= segs[i].vaddr
                  && (segs[i - 1].offset + segs[i - 1].filesz) % size <= segs[i].offset
                  && segs[i].align == segs[i - 1].align)
  {
    forall i | 0 <= i < |segs|
      ensures segs[i].offset % PAGE == segs[i].vaddr % PAGE <==> (segs[i].vaddr - segs[i].offset) % 0x1000 == 0
    {
      SameRemainder(segs[i].vaddr, segs[i].offset);
    }
  }

  lemma SameRemainder(a: nat, b: nat)
    ensures a % PAGE == b % PAGE <==> (a - b) % 0x1000 == 0
  {
  }

  // ----- The walk over the list -----

  datatype Result = AssertFailed | Adjusted(segs: seq<Segment>)

  /** One round of the loop: `done` is the list before the current segment, in its final form but for merges. */
  function Step(done: seq<Segment>, seg: Segment, size: nat): (r: Result)
    requires size > 0 && done != []
    ensures r.Adjusted? ==> r.segs != []
  {
    var last := |done| - 1;
    var prev := done[last];
    if Meets(prev, seg) then
      if Masked(seg.vaddr, seg.align) != Masked(seg.offset, seg.align) || prev.memsz != prev.filesz then AssertFailed
      else Adjusted(done[..last] + [Merge(prev, seg, size)])
    else
      var shares := SharesFilePage(prev, seg, size);
      if shares && PF_W !in seg.flags then AssertFailed else Adjusted(done + [Align(seg, shares)])
  }

  /** The rest of the walk, with the segments `rest` to go. */
  function Walk(done: seq<Segment>, rest: seq<Segment>, size: nat): (r: Result)
    requires size > 0 && done != []
    decreases |rest|
  {
    if rest == [] then Adjusted(done)
    else
      match Step(done, rest[0], size)
      case AssertFailed => AssertFailed
      case Adjusted(after) => Walk(after, rest[1..], size)
  }

  function Adjust(segs: seq<Segment>, size: nat): (r: Result)
    requires size > 0
  {
    if !Sane(segs, size) then AssertFailed
    else if segs == [] then Adjusted(segs)
    else Walk(segs[..1], segs[1..], size)
  }

  class TaElf {
    var segs: seq<Segment>

    /**
     * adjust_segments(). `size` is the number of size_t values. A failed assert
     * is the result false. Masking with align - 1 is the remainder by align for
     * the powers of two that p_align holds.
     */
    method AdjustSegments(size: nat) returns (ok: bool)
      requires size > 0
      modifies this
      ensures ok <==> Adjust(old(segs), size).Adjusted?
      ensures ok ==> Adjust(old(segs), size) == Adjusted(segs)
    {
      var i := 0;
      while i < |segs|
        invariant 0 <= i <= |segs| && segs == old(segs)
        invariant forall j :: 0 <= j < i ==> SegmentSane(segs[j], size)
        invariant forall j :: 0 < j < i ==> PairSane(segs[j - 1], segs[j], size)
      {
        if !SegmentSane(segs[i], size) || (i > 0 && !PairSane(segs[i - 1], segs[i], size)) {
          return false;
        }
        i := i + 1;
      }
      if segs == [] {
        return true;
      }
      i := 1;
      while i < |segs|
        invariant 0 < i <= |segs|
        invariant Walk(segs[..i], segs[i..], size) == Adjust(old(segs), size)
        decreases |segs| - i
      {
        var prev, seg := segs[i - 1], segs[i];
        assert segs[..i][|segs[..i]| - 1] == prev && segs[..i][..i - 1] == segs[..i - 1];
        assert segs[i..][1..] == segs[i + 1..];
        if Meets(prev, seg) {
          if Masked(seg.vaddr, seg.align) != Masked(seg.offset, seg.align) || prev.memsz != prev.filesz {
            return false;
          }
          ghost var merged := segs[..i - 1] + [Merge(prev, seg, size)];
          segs := segs[..i - 1] + [Merge(prev, seg, size)] + segs[i + 1..];
          assert segs[..i] == merged;
          continue;
        }
        var shares := SharesFilePage(prev, seg, size);
        if shares && PF_W !in seg.flags {
          return false;
        }
        ghost var aligned := segs[..i] + [Align(seg, shares)];
        segs := segs[i := Align(seg, shares)];
        assert segs[..i + 1] == aligned;
        i := i + 1;
      }
      assert segs[..i] == segs;
      return true;
    }
  }

  // ----- Groups of segments that are merged -----

  /** The number of the final segment that original segment i ends up in. */
  function Group(segs: seq<Segment>, i: nat): (g: nat)
    requires i < |segs|
  {
    if i == 0 then 0 else Group(segs, i - 1) + (if Meets(segs[i - 1], segs[i]) then 0 else 1)
  }

  /** The first original segment of the group of segment i. */
  function First(segs: seq<Segment>, i: nat): (f: nat)
    requires i < |segs|
    ensures f <= i
  {
    if i == 0 || !Meets(segs[i - 1], segs[i]) then i else First(segs, i - 1)
  }

  /** All flags of the first `upto` segments that belong to group g. */
  function GroupFlags(segs: seq<Segment>, g: nat, upto: nat): (flags: set<nat>)
    requires upto <= |segs|
  {
    if upto == 0 then {}
    else GroupFlags(segs, g, upto - 1) + (if Group(segs, upto - 1) == g then segs[upto - 1].flags else {})
  }

  predicate HasByte(s: Segment, v: nat) {
    s.vaddr <= v < s.End()
  }

  predicate FileBacked(s: Segment, v: nat) {
    v < s.FileEnd()
  }

  /** The bytes of s lie in t, and are file-backed in t exactly when they are in s. */
  ghost predicate Contains(t: Segment, s: Segment) {
    forall v :: HasByte(s, v) ==> HasByte(t, v) && (FileBacked(s, v) <==> FileBacked(t, v))
  }

  /** Later segments start on a page that no earlier segment reaches. */
  predicate PageDisjoint(segs: seq<Segment>) {
    forall j :: 0 < j < |segs| ==> segs[j].vaddr % PAGE == 0 && segs[j - 1].End() <= segs[j].vaddr
  }

  /** What holds of the adjusted list once the first k original segments are in it. */
  ghost predicate Inv(segs: seq<Segment>, k: nat, done: seq<Segment>)
    requires 0 < k <= |segs|
  {
    && |done| == Group(segs, k - 1) + 1
    && PageDisjoint(done)
    && LastIs(done[|done| - 1], segs[k - 1])
    && (forall i :: 0 <= i < k ==> Placed(segs, i, done))
    && (forall j :: 0 <= j < |done| ==> done[j].flags == GroupFlags(segs, j, k))
  }

  predicate LastIs(t: Segment, s: Segment) {
    t.End() == s.End() && t.FileEnd() == s.FileEnd() && t.vaddr <= s.vaddr && t.align == s.align
  }

  ghost predicate Placed(segs: seq<Segment>, i: nat, done: seq<Segment>)
    requires i < |segs|
  {
    && Group(segs, i) < |done|
    && Contains(done[Group(segs, i)], segs[i])
    && done[Group(segs, i)].Bias() == segs[First(segs, i)].Bias()
  }

  // ----- One step keeps the invariant -----

  lemma SmallMod(x: nat, m: nat)
    requires x < m
    ensures x % m == x
  {
  }

  /** All but the last original of a group are fully file-backed, so extending the group keeps their bytes. */
  lemma MergeKeepsBytes(prev: Segment, seg: Segment, s: Segment, size: nat)
    requires size > seg.End() && seg.filesz <= seg.memsz && prev.vaddr <= prev.End() <= seg.vaddr
    requires prev.memsz == prev.filesz && Contains(prev, s)
    ensures Contains(Merge(prev, seg, size), s)
    ensures Merge(prev, seg, size).End() == seg.End() && Merge(prev, seg, size).FileEnd() == seg.FileEnd()
  {
    var t := Merge(prev, seg, size);
    SmallMod(seg.vaddr + seg.filesz - prev.vaddr, size);
    SmallMod(seg.vaddr + seg.memsz - prev.vaddr, size);
    assert t.End() == seg.End() && t.FileEnd() == seg.FileEnd();
    forall v | HasByte(s, v) ensures HasByte(t, v) && (FileBacked(s, v) <==> FileBacked(t, v)) {
      assert HasByte(prev, v) && FileBacked(prev, v);
    }
  }

  /** A group has flags only once it has members. */
  lemma {:induction false} NoFlagsYet(segs: seq<Segment>, g: nat, upto: nat)
    requires upto <= |segs| && (upto > 0 ==> Group(segs, upto - 1) < g)
    ensures GroupFlags(segs, g, upto) == {}
  {
    if upto > 1 {
      NoFlagsYet(segs, g, upto - 1);
    }
  }

  lemma MergeStep(segs: seq<Segment>, k: nat, done: seq<Segment>, size: nat)
    requires size > 0 && Sane(segs, size) && 0 < k < |segs| && Inv(segs, k, done)
    requires Meets(segs[k - 1], segs[k]) && done[|done| - 1].memsz == done[|done| - 1].filesz
    ensures Inv(segs, k + 1, done[..|done| - 1] + [Merge(done[|done| - 1], segs[k], size)])
  {
    var last := |done| - 1;
    var prev, seg := done[last], segs[k];
    assert PairSane(segs[k - 1], segs[k], size) && SegmentSane(segs[k], size);
    var after := done[..last] + [Merge(prev, seg, size)];
    MergeKeepsBytes(prev, seg, prev, size);
    forall i | 0 <= i < k + 1 ensures Placed(segs, i, after) {
      if i < k {
        assert Placed(segs, i, done);
        if Group(segs, i) == last {
          MergeKeepsBytes(prev, seg, segs[i], size);
        }
      } else {
        assert Placed(segs, k - 1, done);
      }
    }
  }

  lemma AlignStep(segs: seq<Segment>, k: nat, done: seq<Segment>, remap: bool, size: nat)
    requires size > 0 && Sane(segs, size) && 0 < k < |segs| && Inv(segs, k, done)
    requires !Meets(segs[k - 1], segs[k])
    ensures Inv(segs, k + 1, done + [Align(segs[k], remap)])
  {
    var seg := segs[k];
    assert SegmentSane(segs[k], size);
    var after := done + [Align(seg, remap)];
    forall i | 0 <= i < k + 1 ensures Placed(segs, i, after) {
      if i < k {
        assert Placed(segs, i, done);
      }
    }
    NoFlagsYet(segs, |done|, k);
  }

  lemma StepKeeps(segs: seq<Segment>, k: nat, done: seq<Segment>, size: nat)
    requires size > 0 && Sane(segs, size) && 0 < k < |segs| && Inv(segs, k, done) && Step(done, segs[k], size).Adjusted?
    ensures Inv(segs, k + 1, Step(done, segs[k], size).segs)
  {
    if Meets(done[|done| - 1], segs[k]) {
      MergeStep(segs, k, done, size);
    } else {
      AlignStep(segs, k, done, SharesFilePage(done[|done| - 1], segs[k], size), size);
    }
  }

  /** The walk keeps the invariant to its end. */
  lemma {:induction false} WalkKeeps(segs: seq<Segment>, k: nat, done: seq<Segment>, size: nat)
    requires size > 0 && Sane(segs, size) && 0 < k <= |segs| && Inv(segs, k, done)
    requires Walk(done, segs[k..], size).Adjusted?
    ensures Inv(segs, |segs|, Walk(done, segs[k..], size).segs)
    decreases |segs| - k
  {
    if k < |segs| {
      assert segs[k..][1..] == segs[k + 1..];
      StepKeeps(segs, k, done, size);
      WalkKeeps(segs, k + 1, Step(done, segs[k], size).segs, size);
    }
  }

  lemma InitialInv(segs: seq<Segment>)
    requires segs != []
    ensures Inv(segs, 1, segs[..1])
  {
    assert GroupFlags(segs, 0, 1) == GroupFlags(segs, 0, 0) + segs[0].flags;
    assert Placed(segs, 0, segs[..1]);
  }

  // ----- What the adjusted list means -----

  lemma {:induction false} DisjointFrom(segs: seq<Segment>, i: nat, j: nat)
    requires PageDisjoint(segs) && i < j < |segs|
    ensures segs[i].End() <= segs[j].vaddr
    decreases j
  {
    if i < j - 1 {
      DisjointFrom(segs, i, j - 1);
    }
  }

  /**
   * After adjusting, no two segments touch the same page, and every byte of an
   * original segment is in exactly one segment, that of its group, with its
   * file-backed status unchanged. The flags of a segment are those of its group.
   */
  lemma BytesArePreserved(segs: seq<Segment>, size: nat)
    requires size > 0 && Adjust(segs, size).Adjusted?
    ensures var final := Adjust(segs, size).segs;
            && |final| == (if segs == [] then 0 else Group(segs, |segs| - 1) + 1)
            && PageDisjoint(final)
            && (forall i :: 0 <= i < |segs| ==> Group(segs, i) < |final| && Contains(final[Group(segs, i)], segs[i]))
            && (forall i, j, v :: 0 <= i < |segs| && 0 <= j < |final| && HasByte(segs[i], v) && HasByte(final[j], v) ==>
               j == Group(segs, i))
            && (forall j :: 0 <= j < |final| ==> final[j].flags == GroupFlags(segs, j, |segs|))
  {
    if segs != [] {
      InitialInv(segs);
      WalkKeeps(segs, 1, segs[..1], size);
      var final := Adjust(segs, size).segs;
      forall i | 0 <= i < |segs| ensures Group(segs, i) < |final| && Contains(final[Group(segs, i)], segs[i]) {
        assert Placed(segs, i, final);
      }
      forall i, j, v | 0 <= i < |segs| && 0 <= j < |final| && HasByte(segs[i], v) && HasByte(final[j], v)
        ensures j == Group(segs, i)
      {
        var g := Group(segs, i);
        assert HasByte(final[g], v);
        if j < g {
          DisjointFrom(final, j, g);
        } else if g < j {
          DisjointFrom(final, g, j);
        }
      }
    }
  }

  /** A byte of the one segment and a byte of the other lie in one page. */
  ghost predicate SharePage(s: Segment, t: Segment) {
    exists v: nat, w: nat :: HasByte(s, v) && HasByte(t, w) && v / PAGE == w / PAGE
  }

  lemma PageOrder(v: nat, w: nat)
    ensures v < w ==> v / PAGE <= w / PAGE
    ensures v / PAGE == w / PAGE <==> Rounddown(v) == Rounddown(w)
    ensures v / PAGE == w / PAGE && v <= w ==> Rounddown(w) <= v
    ensures Rounddown(w) <= v <= w ==> v / PAGE == w / PAGE
  {
  }

  /**
   * For segments in order: there is such a pair of bytes if the last byte of the one and
   * the first of the other are.
   */
  lemma MeetsIff(prev: Segment, seg: Segment)
    requires prev.memsz > 0 && seg.memsz > 0 && prev.End() <= seg.vaddr
    ensures Meets(prev, seg) <==> SharePage(prev, seg)
  {
    if Meets(prev, seg) {
      var v, w := prev.End() - 1, seg.vaddr;
      PageOrder(v, w);
      assert HasByte(prev, v) && HasByte(seg, w);
    }
    if SharePage(prev, seg) {
      var v: nat, w: nat :| HasByte(prev, v) && HasByte(seg, w) && v / PAGE == w / PAGE;
      PageOrder(v, seg.vaddr);
      PageOrder(seg.vaddr, w);
    }
  }

  /**
   * Exactly the neighbours that share a page are merged: segments i - 1 and i end up
   * in one segment if and only if a byte of the one and a byte of the other lie in
   * one page.
   */
  lemma MergedIffPageShared(segs: seq<Segment>, size: nat, i: nat)
    requires size > 0 && Adjust(segs, size).Adjusted? && 0 < i < |segs| && segs[i - 1].memsz > 0 && segs[i].memsz > 0
    ensures Group(segs, i) == Group(segs, i - 1) <==> SharePage(segs[i - 1], segs[i])
    ensures Group(segs, i) == Group(segs, i - 1) + 1 <==> !SharePage(segs[i - 1], segs[i])
  {
    assert PairSane(segs[i - 1], segs[i], size);
    MeetsIff(segs[i - 1], segs[i]);
  }

  /** The segment starts at a page boundary, and in the file at a multiple of its alignment. */
  predicate Settled(seg: Segment) {
    seg.vaddr % PAGE == 0 && seg.offset % PAGE == 0 && Masked(seg.offset, seg.align) == 0
  }

  lemma SettledStep(done: seq<Segment>, seg: Segment, size: nat)
    requires size > 0 && done != [] && done[|done| - 1].End() <= seg.vaddr && Settled(seg)
    ensures Step(done, seg, size) == Adjusted(done + [seg])
  {
    assert Rounddown(seg.vaddr) == seg.vaddr && Rounddown(seg.offset) == seg.offset;
    assert Align(seg, false) == seg;
  }

  lemma {:induction false} SettledWalk(segs: seq<Segment>, size: nat, k: nat)
    requires size > 0 && Sane(segs, size) && 0 < k <= |segs|
    requires forall i :: 0 < i < |segs| ==> Settled(segs[i])
    ensures Walk(segs[..k], segs[k..], size) == Adjusted(segs)
    decreases |segs| - k
  {
    if k < |segs| {
      assert PairSane(segs[k - 1], segs[k], size);
      SettledStep(segs[..k], segs[k], size);
      assert segs[..k] + [segs[k]] == segs[..k + 1] && segs[k..][1..] == segs[k + 1..];
      SettledWalk(segs, size, k + 1);
    } else {
      assert segs[..k] == segs;
    }
  }

  /**
   * Segments that start at page boundaries are left as they are, also where one ends
   * at the address at which the next one starts: permissions stay apart.
   */
  lemma SettledListStays(segs: seq<Segment>, size: nat)
    requires size > 0 && Sane(segs, size) && forall i :: 0 < i < |segs| ==> Settled(segs[i])
    ensures Adjust(segs, size) == Adjusted(segs)
  {
    if segs != [] {
      SettledWalk(segs, size, 1);
    }
  }

  /** Text and data in neighbouring pages. */
  lemma TextAndData()
    ensures var text := Segment(0, 0, 0x1000, 0x1000, {0, 2}, PAGE, false);
            var data := Segment(0x1000, 0x1000, 0x800, 0x900, {1, 2}, PAGE, false);
            Adjust([text, data], WORDS) == Adjusted([text, data])
  {
    var text := Segment(0, 0, 0x1000, 0x1000, {0, 2}, PAGE, false);
    var data := Segment(0x1000, 0x1000, 0x800, 0x900, {1, 2}, PAGE, false);
    SaneIff([text, data], WORDS);
    SettledListStays([text, data], WORDS);
  }

  /** The file offset that a segment gives to address v. */
  function FileOffset(s: Segment, v: nat): (o: int) {
    v - s.Bias()
  }

  /**
   * The bytes of segment i keep their place in the file exactly when its bias is
   * that of the first segment of its group. The asserts of the code only demand
   * that they agree modulo the alignment.
   */
  lemma OffsetsArePreservedIff(segs: seq<Segment>, size: nat, i: nat)
    requires size > 0 && Adjust(segs, size).Adjusted? && i < |segs| && segs[i].memsz > 0
    ensures var final := Adjust(segs, size).segs;
            Group(segs, i) < |final| &&
            ((forall v :: HasByte(segs[i], v) ==> FileOffset(final[Group(segs, i)], v) == FileOffset(segs[i], v)) <==>
             segs[i].Bias() == segs[First(segs, i)].Bias())
  {
    InitialInv(segs);
    WalkKeeps(segs, 1, segs[..1], size);
    var final := Adjust(segs, size).segs;
    assert Placed(segs, i, final);
    assert HasByte(segs[i], segs[i].vaddr);
  }

  /**
   * Two segments in one page whose offsets agree modulo the alignment pass every assert
   * and are merged all the same.
   */
  lemma AgreeingModuloAlignmentIsNotEnough() returns (segs: seq<Segment>)
    ensures Adjust(segs, 0x1_0000_0000).Adjusted? && |segs| == 2 && segs[1].memsz > 0
    ensures segs[1].Bias() != segs[First(segs, 1)].Bias()
  {
    var s0 := Segment(0x1000, 0x1000, 0x800, 0x800, {2}, PAGE, false);
    var s1 := Segment(0x5900, 0x1900, 0x100, 0x100, {2}, PAGE, false);
    segs := [s0, s1];
    assert segs[..1] == [s0] && segs[1..] == [s1] && segs[1..][1..] == [];
    assert Meets(s0, s1) && Step([s0], s1, 0x1_0000_0000).Adjusted?;
    assert Walk([s0], [s1], 0x1_0000_0000).Adjusted?;
  }

  // ----- Segments that share a file page -----

  /** Segments that meet have the same bias, and file ranges do not wrap; p_align is a multiple of the page size. */
  predicate Regular(segs: seq<Segment>, size: nat) {
    && (forall i :: 0 < i < |segs| && Meets(segs[i - 1], segs[i]) ==> segs[i].Bias() == segs[i - 1].Bias())
    && (forall i :: 0 <= i < |segs| ==> segs[i].offset + segs[i].filesz < size && !segs[i].remapped)
    && (forall i :: 0 <= i < |segs| ==> segs[i].align % PAGE == 0)
  }

  lemma {:induction false} GroupBias(segs: seq<Segment>, size: nat, i: nat)
    requires Regular(segs, size) && i < |segs|
    ensures segs[First(segs, i)].Bias() == segs[i].Bias()
  {
    if i > 0 && Meets(segs[i - 1], segs[i]) {
      GroupBias(segs, size, i - 1);
    }
  }

  lemma AlignedOffset(offset: nat, align: nat)
    requires align > 0 && align % PAGE == 0 && offset % align == 0
    ensures offset % PAGE == 0
  {
    var m, q := align / PAGE, offset / align;
    assert align == PAGE * m && offset == align * q;
    assert offset == PAGE * (m * q);
  }

  /** A file page holds the end of the earlier segment and the start of the later one. */
  predicate SamePage(prev: Segment, seg: Segment) {
    Rounddown(seg.offset) < prev.offset + prev.filesz
  }

  /** That is, the page of the file in which the later segment starts has a byte of the earlier one. */
  lemma SamePageIff(prev: Segment, seg: Segment)
    requires prev.filesz > 0 && prev.offset + prev.filesz <= seg.offset
    ensures SamePage(prev, seg) <==>
            exists o: nat :: prev.offset <= o < prev.offset + prev.filesz && o / PAGE == seg.offset / PAGE
  {
    var last: nat := prev.offset + prev.filesz - 1;
    if SamePage(prev, seg) {
      PageOrder(last, seg.offset);
      assert last / PAGE == seg.offset / PAGE;
    } else {
      forall o: nat | prev.offset <= o < prev.offset + prev.filesz ensures o / PAGE != seg.offset / PAGE {
        PageOrder(o, seg.offset);
      }
    }
  }

  /** Segment i is the first of its group. */
  predicate Starts(segs: seq<Segment>, i: nat)
    requires i < |segs|
  {
    i == 0 || !Meets(segs[i - 1], segs[i])
  }

  /** The marks of the first k original segments: one per segment that starts a group. */
  predicate Marked(segs: seq<Segment>, k: nat, done: seq<Segment>)
    requires k <= |segs|
  {
    forall i :: 0 <= i < k && Starts(segs, i) ==> MarkOk(segs, i, done)
  }

  predicate MarkOk(segs: seq<Segment>, i: nat, done: seq<Segment>)
    requires i < |segs|
  {
    && Group(segs, i) < |done|
    && (done[Group(segs, i)].remapped <==> i > 0 && SamePage(segs[i - 1], segs[i]))
    && (done[Group(segs, i)].remapped ==> PF_W in segs[i].flags)
  }

  lemma PlainTest(seg: Segment, fileEnd: nat, size: nat)
    requires fileEnd < size && fileEnd <= seg.offset && seg.align > 0 && seg.align % PAGE == 0
    ensures Masked(seg.offset, seg.align) != 0 && Rounddown(seg.offset) < fileEnd % size <==>
            Rounddown(seg.offset) < fileEnd
  {
    SmallMod(fileEnd, size);
    if seg.offset % seg.align == 0 {
      AlignedOffset(seg.offset, seg.align);
    }
  }

  /** In a regular list the test of the code is the test on the original neighbours. */
  lemma TestIsSamePage(segs: seq<Segment>, k: nat, done: seq<Segment>, size: nat)
    requires size > 0 && Sane(segs, size) && Regular(segs, size) && 0 < k < |segs| && Inv(segs, k, done)
    ensures SharesFilePage(done[|done| - 1], segs[k], size) <==> SamePage(segs[k - 1], segs[k])
  {
    var fileEnd := segs[k - 1].offset + segs[k - 1].filesz;
    assert done[|done| - 1].offset + done[|done| - 1].filesz == fileEnd by {
      assert Placed(segs, k - 1, done);
      GroupBias(segs, size, k - 1);
    }
    assert PairSane(segs[k - 1], segs[k], size) && SegmentSane(segs[k], size);
    SmallMod(fileEnd, size);
    PlainTest(segs[k], fileEnd, size);
  }

  lemma MergeKeepsMarks(segs: seq<Segment>, k: nat, done: seq<Segment>, size: nat)
    requires size > 0 && 0 < k < |segs| && done != [] && Marked(segs, k, done) && Meets(segs[k - 1], segs[k])
    ensures Marked(segs, k + 1, done[..|done| - 1] + [Merge(done[|done| - 1], segs[k], size)])
  {
    var after := done[..|done| - 1] + [Merge(done[|done| - 1], segs[k], size)];
    forall i | 0 <= i < k + 1 && Starts(segs, i) ensures MarkOk(segs, i, after) {
      assert MarkOk(segs, i, done);
    }
  }

  lemma AlignMarks(segs: seq<Segment>, k: nat, done: seq<Segment>, shares: bool)
    requires 0 < k < |segs| && |done| == Group(segs, k - 1) + 1 && Marked(segs, k, done) && !Meets(segs[k - 1], segs[k])
    requires shares == SamePage(segs[k - 1], segs[k]) && (shares ==> PF_W in segs[k].flags) && !segs[k].remapped
    ensures Marked(segs, k + 1, done + [Align(segs[k], shares)])
  {
    var after := done + [Align(segs[k], shares)];
    forall i | 0 <= i < k + 1 && Starts(segs, i) ensures MarkOk(segs, i, after) {
      if i < k {
        assert MarkOk(segs, i, done);
      }
    }
  }

  lemma StepMarks(segs: seq<Segment>, k: nat, done: seq<Segment>, size: nat)
    requires size > 0 && Sane(segs, size) && Regular(segs, size) && 0 < k < |segs| && Inv(segs, k, done)
    requires Marked(segs, k, done) && Step(done, segs[k], size).Adjusted?
    ensures Marked(segs, k + 1, Step(done, segs[k], size).segs)
  {
    if Meets(done[|done| - 1], segs[k]) {
      MergeKeepsMarks(segs, k, done, size);
    } else {
      TestIsSamePage(segs, k, done, size);
      AlignMarks(segs, k, done, SharesFilePage(done[|done| - 1], segs[k], size));
    }
  }

  lemma {:induction false} WalkMarks(segs: seq<Segment>, k: nat, done: seq<Segment>, size: nat)
    requires size > 0 && Sane(segs, size) && Regular(segs, size) && 0 < k <= |segs| && Inv(segs, k, done)
    requires Marked(segs, k, done) && Walk(done, segs[k..], size).Adjusted?
    ensures Marked(segs, |segs|, Walk(done, segs[k..], size).segs)
    decreases |segs| - k
  {
    if k < |segs| {
      assert segs[k..][1..] == segs[k + 1..];
      StepKeeps(segs, k, done, size);
      StepMarks(segs, k, done, size);
      WalkMarks(segs, k + 1, Step(done, segs[k], size).segs, size);
    }
  }

  /**
   * In a regular list, exactly the segments whose first file page also holds the
   * end of their predecessor are marked for remapping, and those are writable.
   */
  lemma MarksAreExact(segs: seq<Segment>, size: nat)
    requires size > 0 && Adjust(segs, size).Adjusted? && Regular(segs, size)
    ensures Marked(segs, |segs|, Adjust(segs, size).segs)
  {
    if segs != [] {
      InitialInv(segs);
      assert MarkOk(segs, 0, segs[..1]);
      WalkMarks(segs, 1, segs[..1], size);
    }
  }

  /**
   * A segment that starts a group is marked exactly when the page of the file in which
   * it starts has a byte of the segment before it.
   */
  lemma MarkedIffFilePageShared(segs: seq<Segment>, size: nat, i: nat)
    requires size > 0 && Adjust(segs, size).Adjusted? && Regular(segs, size)
    requires 0 < i < |segs| && segs[i - 1].filesz > 0 && Group(segs, i) != Group(segs, i - 1)
    ensures var final, prev := Adjust(segs, size).segs, segs[i - 1];
            && Group(segs, i) < |final|
            && (final[Group(segs, i)].remapped <==>
                  exists o: nat :: prev.offset <= o < prev.offset + prev.filesz && o / PAGE == segs[i].offset / PAGE)
  {
    MarksAreExact(segs, size);
    assert MarkOk(segs, i, Adjust(segs, size).segs);
    assert PairSane(segs[i - 1], segs[i], size);
    SmallMod(segs[i - 1].offset + segs[i - 1].filesz, size);
    SamePageIff(segs[i - 1], segs[i]);
  }
}

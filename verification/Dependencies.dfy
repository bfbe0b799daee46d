/**
 * Loading an ELF and everything it needs: the queue of ELFs is walked while
 * loading its members extends it. The walk is proved to end with the closure of
 * the dependencies, each loaded once, in breadth-first order.
 */
module Dependencies {

  type Uuid = nat

  /** What the loader learns from a binary: its width and its DT_NEEDED entries in order. */
  datatype File = File(is32bit: bool, needed: seq<Uuid>)

  type Store = map<Uuid, File>

  function Needed(files: Store, u: Uuid): (ns: seq<Uuid>) {
    if u in files then files[u].needed else []
  }

  /** u is reached from root through at most k DT_NEEDED entries. */
  ghost predicate Within(files: Store, root: Uuid, u: Uuid, k: nat)
    decreases k
  {
    u == root || (k > 0 && exists v :: Within(files, root, v, k - 1) && u in Needed(files, v))
  }

  ghost predicate Reaches(files: Store, root: Uuid, u: Uuid) {
    exists k: nat :: Within(files, root, u, k)
  }

  predicate Differ(q: seq<Uuid>, i: nat, j: nat)
    requires i < |q| && j < |q|
  {
    q[i] != q[j]
  }

  predicate NoDuplicates(q: seq<Uuid>) {
    forall i, j :: 0 <= i < j < |q| ==> Differ(q, i, j)
  }

  /** u is in the list, and v is not, or only behind it. */
  predicate EarlierIn(us: seq<Uuid>, u: Uuid, v: Uuid) {
    exists i :: 0 <= i < |us| && us[i] == u && v !in us[..i + 1]
  }

  /** p is the first member of q that needs member j. */
  predicate FirstNeeds(files: Store, q: seq<Uuid>, p: nat, j: nat) {
    p < |q| && j < |q| && q[j] in Needed(files, q[p]) && forall a :: 0 <= a < p ==> q[j] !in Needed(files, q[a])
  }

  /**
   * The members behind `base` come in the order of those that need them first, and
   * where that is the same one, in the order of its DT_NEEDED entries.
   */
  ghost predicate InNeededOrder(files: Store, q: seq<Uuid>, base: nat) {
    forall j: nat, k: nat, o: nat, p: nat ::
      base < j < k && FirstNeeds(files, q, o, j) && FirstNeeds(files, q, p, k) ==>
        o < p || (o == p && EarlierIn(Needed(files, q[p]), q[j], q[k]))
  }

  /** Every member can be loaded and everything it needs is a member. */
  predicate ClosedUnder(files: Store, q: seq<Uuid>) {
    forall i :: 0 <= i < |q| ==> q[i] in files && forall n :: n in files[q[i]].needed ==> n in q
  }

  // ----- The walk -----

  /**
   * The queue while it is walked. The members before `base` are loaded and closed,
   * the walk started with the root at `base`, and those before `i` are loaded.
   * Member j was queued by its parent, the first loaded member that needs it.
   */
  datatype Walk = Walk(files: Store, base: nat, queue: seq<Uuid>, parents: seq<nat>, i: nat) {

    predicate Shape() {
      && base < |queue| == |parents| && base <= i <= |queue| && NoDuplicates(queue)
      && (forall j :: 0 <= j < i ==> LoadedMember(j))
      && (forall j :: 0 <= j < base ==> StaysBefore(j))
    }

    predicate StaysBefore(j: nat)
      requires j < |queue| && base <= |queue|
    {
      forall n :: n in Needed(files, queue[j]) ==> n in queue[..base]
    }

    predicate LoadedMember(j: nat)
      requires j < |queue|
    {
      queue[j] in files && forall n :: n in Needed(files, queue[j]) ==> n in queue
    }

    predicate HasParent(j: nat)
      requires j < |queue| == |parents|
    {
      var p := parents[j];
      && base <= p < i && p < j && queue[j] in Needed(files, queue[p])
      && (forall a :: base <= a < p ==> queue[j] !in Needed(files, queue[a]))
    }

    predicate Inv() {
      && Shape()
      && (forall j :: base < j < |queue| ==> HasParent(j))
      && (forall j, k :: base < j < k < |queue| ==> InOrder(j, k))
    }

    predicate InOrder(j: nat, k: nat)
      requires j < |queue| == |parents| && k < |queue|
    {
      parents[j] < parents[k] ||
      (parents[j] == parents[k] < |queue| && EarlierIn(Needed(files, queue[parents[j]]), queue[j], queue[k]))
    }
  }

  /** Everything queued by the walk is reached from its root. */
  lemma {:induction false} QueuedIsReached(w: Walk, j: nat) returns (k: nat)
    requires w.Inv() && w.base <= j < |w.queue|
    ensures Within(w.files, w.queue[w.base], w.queue[j], k)
    decreases j
  {
    if j == w.base {
      k := 0;
    } else {
      assert w.HasParent(j);
      var d := QueuedIsReached(w, w.parents[j]);
      k := d + 1;
    }
  }

  /** After the walk, everything reached from the root is in the queue behind `base`, unless it was there before. */
  lemma {:induction false} ReachedIsQueued(w: Walk, u: Uuid, k: nat)
    requires w.Inv() && w.i == |w.queue| && Within(w.files, w.queue[w.base], u, k)
    ensures u in w.queue
    decreases k
  {
    if u != w.queue[w.base] {
      var v :| Within(w.files, w.queue[w.base], v, k - 1) && u in Needed(w.files, v);
      ReachedIsQueued(w, v, k - 1);
      var a :| 0 <= a < |w.queue| && w.queue[a] == v;
      assert w.LoadedMember(a);
    }
  }

  /** The queue is in breadth-first order: an earlier member is never farther from the root than a later one. */
  lemma {:induction false} BreadthFirst(w: Walk, j1: nat, j2: nat, k: nat)
    requires w.Inv() && w.i == |w.queue| && w.base <= j1 < j2 < |w.queue|
    requires Within(w.files, w.queue[w.base], w.queue[j2], k)
    ensures Within(w.files, w.queue[w.base], w.queue[j1], k)
    decreases k
  {
    if j1 > w.base {
      assert Differ(w.queue, w.base, j2);
      var v :| Within(w.files, w.queue[w.base], v, k - 1) && w.queue[j2] in Needed(w.files, v);
      ReachedIsQueued(w, v, k - 1);
      var a :| 0 <= a < |w.queue| && w.queue[a] == v;
      var p := w.parents[j1];
      ParentComesFirst(w, j1, j2, a);
      if p < a {
        BreadthFirst(w, p, a, k - 1);
      }
      assert w.HasParent(j1);
    }
  }

  /** The parent of an earlier member comes no later than any member that needs a later one. */
  lemma ParentComesFirst(w: Walk, j1: nat, j2: nat, a: nat)
    requires w.Inv() && w.i == |w.queue| && w.base < j1 < j2 < |w.queue|
    requires a < |w.queue| && w.queue[j2] in Needed(w.files, w.queue[a])
    ensures w.base <= w.parents[j1] <= a
  {
    assert w.HasParent(j1) && w.HasParent(j2) && w.InOrder(j1, j2);
    NotBefore(w, j2);
    assert a < w.base ==> w.StaysBefore(a);
  }

  lemma NotBefore(w: Walk, j: nat)
    requires w.Inv() && w.base <= j < |w.queue|
    ensures w.queue[j] !in w.queue[..w.base]
  {
    forall i | 0 <= i < w.base ensures w.queue[i] != w.queue[j] {
      assert Differ(w.queue, i, j);
    }
  }

  /** q lists what `root` reaches, in breadth-first order. */
  ghost predicate BreadthFirstFrom(files: Store, root: Uuid, q: seq<Uuid>) {
    forall i, j, k: nat :: 0 <= i < j < |q| && Within(files, root, q[j], k) ==> Within(files, root, q[i], k)
  }

  lemma WalkIsInNeededOrder(w: Walk)
    requires w.Inv()
    ensures InNeededOrder(w.files, w.queue, w.base)
  {
    forall j: nat, k: nat, o: nat, p: nat |
      w.base < j < k && FirstNeeds(w.files, w.queue, o, j) && FirstNeeds(w.files, w.queue, p, k)
      ensures o < p || (o == p && EarlierIn(Needed(w.files, w.queue[p]), w.queue[j], w.queue[k]))
    {
      ParentIsFirst(w, j, o);
      ParentIsFirst(w, k, p);
      assert w.InOrder(j, k);
    }
  }

  lemma ParentIsFirst(w: Walk, j: nat, p: nat)
    requires w.Inv() && w.base < j < |w.queue| && FirstNeeds(w.files, w.queue, p, j)
    ensures p == w.parents[j]
  {
    assert w.HasParent(j);
    NotBefore(w, j);
    forall a | 0 <= a < w.base ensures w.queue[j] !in Needed(w.files, w.queue[a]) {
      assert w.StaysBefore(a);
    }
  }

  lemma EndOfWalk(w: Walk)
    requires w.Inv() && w.i == |w.queue|
    ensures InNeededOrder(w.files, w.queue, w.base)
    ensures forall u :: Reaches(w.files, w.queue[w.base], u) ==> u in w.queue
    ensures forall u :: u in w.queue[w.base..] ==> Reaches(w.files, w.queue[w.base], u)
    ensures BreadthFirstFrom(w.files, w.queue[w.base], w.queue[w.base..])
    ensures ClosedUnder(w.files, w.queue)
  {
    WalkIsInNeededOrder(w);
    var root, tail := w.queue[w.base], w.queue[w.base..];
    forall u | Reaches(w.files, root, u) ensures u in w.queue {
      var k: nat :| Within(w.files, root, u, k);
      ReachedIsQueued(w, u, k);
    }
    forall u | u in tail ensures Reaches(w.files, root, u) {
      var j :| 0 <= j < |tail| && tail[j] == u;
      var k := QueuedIsReached(w, w.base + j);
    }
    forall i, j, k: nat | 0 <= i < j < |tail| && Within(w.files, root, tail[j], k) ensures Within(w.files, root,
        tail[i], k) {
      BreadthFirst(w, w.base + i, w.base + j, k);
    }
    forall i | 0 <= i < |w.queue| ensures w.queue[i] in w.files && forall n :: n in w.files[w.queue[i]].needed ==>
        n in w.queue {
      assert w.LoadedMember(i);
    }
  }

  /** Nothing leads out of a closed queue. */
  lemma {:induction false} ClosedKeeps(files: Store, q: seq<Uuid>, root: Uuid, u: Uuid, k: nat)
    requires ClosedUnder(files, q) && root in q && Within(files, root, u, k)
    ensures u in q
    decreases k
  {
    if u != root {
      var v :| Within(files, root, v, k - 1) && u in Needed(files, v);
      ClosedKeeps(files, q, root, v, k - 1);
    }
  }

  // ----- Queueing -----

  function Enqueue(q: seq<Uuid>, u: Uuid): (r: seq<Uuid>) {
    if u in q then q else q + [u]
  }

  /** The queue after queueing the first n of `needed`. */
  function EnqueueAll(q: seq<Uuid>, needed: seq<Uuid>): (r: seq<Uuid>)
  {
    if needed == [] then q else Enqueue(EnqueueAll(q, needed[..|needed| - 1]), needed[|needed| - 1])
  }

  lemma KeepsDifferent(q: seq<Uuid>, u: Uuid)
    requires NoDuplicates(q)
    ensures NoDuplicates(Enqueue(q, u))
  {
    var r := Enqueue(q, u);
    forall i, j | 0 <= i < j < |r| ensures Differ(r, i, j) {
      assert j < |q| ==> Differ(q, i, j);
    }
  }

  lemma {:induction false} EnqueueAllMeans(q: seq<Uuid>, needed: seq<Uuid>)
    ensures var r := EnqueueAll(q, needed);
            && q <= r
            && (forall u :: u in r <==> u in q || u in needed)
            && (NoDuplicates(q) ==> NoDuplicates(r))
            && (forall j :: |q| <= j < |r| ==> r[j] in needed && r[j] !in q)
            && (forall j, k :: |q| <= j < k < |r| ==> EarlierIn(needed, r[j], r[k]))
  {
    if needed != [] {
      var front := needed[..|needed| - 1];
      EnqueueAllMeans(q, front);
      var before := EnqueueAll(q, front);
      if NoDuplicates(q) {
        KeepsDifferent(before, needed[|needed| - 1]);
      }
      var r := EnqueueAll(q, needed);
      forall j, k | |q| <= j < k < |r| ensures EarlierIn(needed, r[j], r[k]) {
        if k < |before| {
          assert EarlierIn(front, before[j], before[k]);
          EarlierInMore(front, needed, before[j], before[k]);
        } else {
          EarlierThanLast(needed, r[j]);
        }
      }
    }
  }

  lemma EarlierInMore(us: seq<Uuid>, more: seq<Uuid>, u: Uuid, v: Uuid)
    requires EarlierIn(us, u, v) && us <= more
    ensures EarlierIn(more, u, v)
  {
    var i :| 0 <= i < |us| && us[i] == u && v !in us[..i + 1];
    assert more[..i + 1] == us[..i + 1];
  }

  lemma EarlierThanLast(us: seq<Uuid>, u: Uuid)
    requires us != [] && u in us[..|us| - 1] && us[|us| - 1] !in us[..|us| - 1]
    ensures EarlierIn(us, u, us[|us| - 1])
  {
    var front := us[..|us| - 1];
    var i :| 0 <= i < |front| && front[i] == u;
    assert us[..i + 1] <= front;
    assert us[i] == u && us[|us| - 1] !in us[..i + 1];
  }

  /** Queueing what is already queued changes nothing. */
  lemma {:induction false} EnqueueKnown(q: seq<Uuid>, needed: seq<Uuid>)
    requires forall n :: n in needed ==> n in q
    ensures EnqueueAll(q, needed) == q
  {
    if needed != [] {
      EnqueueKnown(q, needed[..|needed| - 1]);
    }
  }

  /** The walk after loading member i, which has queued what is new in q. */
  function Loaded(w: Walk, q: seq<Uuid>): (r: Walk)
    requires |w.queue| <= |q|
  {
    Walk(w.files, w.base, q, w.parents + seq(|q| - |w.queue|, _ => w.i), w.i + 1)
  }

  /** q is the queue with what member i needs and was not in it, in the order in which it needs it. */
  predicate Extends(w: Walk, q: seq<Uuid>)
    requires w.i < |w.queue|
  {
    && w.queue <= q && NoDuplicates(q)
    && (forall u :: u in Needed(w.files, w.queue[w.i]) ==> u in q)
    && (forall j :: |w.queue| <= j < |q| ==> q[j] in Needed(w.files, w.queue[w.i]) && q[j] !in w.queue)
    && (forall j, k :: |w.queue| <= j < k < |q| ==> EarlierIn(Needed(w.files, w.queue[w.i]), q[j], q[k]))
  }

  lemma OrderStep(w: Walk, q: seq<Uuid>, j: nat, k: nat)
    requires w.Inv() && w.i < |w.queue| && Extends(w, q) && w.base < j < k < |q|
    ensures Loaded(w, q).InOrder(j, k)
  {
    if k < |w.queue| {
      assert w.InOrder(j, k) && w.HasParent(j);
    } else if j < |w.queue| {
      assert w.HasParent(j);
    } else {
      assert EarlierIn(Needed(w.files, w.queue[w.i]), q[j], q[k]);
    }
  }

  lemma ParentStep(w: Walk, q: seq<Uuid>, j: nat)
    requires w.Inv() && w.i < |w.queue| && Extends(w, q) && w.base < j < |q|
    ensures Loaded(w, q).HasParent(j)
  {
    if j < |w.queue| {
      assert w.HasParent(j);
    } else {
      forall a | w.base <= a < w.i ensures q[j] !in Needed(w.files, q[a]) {
        assert w.LoadedMember(a);
      }
    }
  }

  lemma ShapeStep(w: Walk, q: seq<Uuid>)
    requires w.Inv() && w.i < |w.queue| && Extends(w, q) && w.queue[w.i] in w.files
    ensures Loaded(w, q).Shape()
  {
    var r := Loaded(w, q);
    assert q[..w.base] == w.queue[..w.base];
    forall j | 0 <= j < w.base ensures r.StaysBefore(j) {
      assert w.StaysBefore(j);
    }
    forall j | 0 <= j < r.i ensures r.LoadedMember(j) {
      assert j < w.i ==> w.LoadedMember(j);
    }
  }

  /** Loading member i keeps the invariant: what it newly queues has i as its parent. */
  lemma LoadStep(w: Walk)
    requires w.Inv() && w.i < |w.queue| && w.queue[w.i] in w.files
    ensures var q := EnqueueAll(w.queue, w.files[w.queue[w.i]].needed);
            w.queue <= q && Walk(w.files, w.base, q, w.parents + seq(|q| - |w.queue|, _ => w.i), w.i + 1).Inv()
  {
    var q := EnqueueAll(w.queue, w.files[w.queue[w.i]].needed);
    EnqueueAllMeans(w.queue, w.files[w.queue[w.i]].needed);
    InvStep(w, q);
  }

  lemma InvStep(w: Walk, q: seq<Uuid>)
    requires w.Inv() && w.i < |w.queue| && Extends(w, q) && w.queue[w.i] in w.files
    ensures Loaded(w, q).Inv()
  {
    ShapeStep(w, q);
    forall j | w.base < j < |q| ensures Loaded(w, q).HasParent(j) {
      ParentStep(w, q, j);
    }
    forall j, k | w.base < j < k < |q| ensures Loaded(w, q).InOrder(j, k) {
      OrderStep(w, q, j, k);
    }
  }

  // ----- The loader -----

  class Loader {
    const files: Store
    var queue: seq<Uuid>
    var loaded: seq<Uuid>  // what has been loaded, in order
    ghost var parents: seq<nat>

    constructor (files: Store)
      ensures queue == [] && loaded == [] && this.files == files
    {
      this.files := files;
      queue, loaded, parents := [], [], [];
    }

    /** ta_elf_find_elf() */
    method FindElf(u: Uuid) returns (found: bool)
      ensures found <==> u in queue
    {
      for i := 0 to |queue|
        invariant u !in queue[..i]
      {
        if queue[i] == u {
          return true;
        }
      }
      found := false;
    }

    /** queue_elf() */
    method QueueElf(u: Uuid)
      modifies this`queue
      ensures queue == Enqueue(old(queue), u)
    {
      var found := FindElf(u);
      if !found {
        queue := queue + [u];
      }
    }

    /** add_dependencies() */
    method AddDependencies(needed: seq<Uuid>)
      modifies this`queue
      ensures queue == EnqueueAll(old(queue), needed)
    {
      for n := 0 to |needed|
        invariant queue == EnqueueAll(old(queue), needed[..n])
      {
        assert needed[..n + 1][..n] == needed[..n];
        QueueElf(needed[n]);
      }
      assert needed[..|needed|] == needed;
    }

    /** Loads member i; false stands for err(): the binary is missing or of the wrong width. */
    method LoadDependency(i: nat, is32bit: bool) returns (ok: bool)
      requires i < |queue|
      modifies this`queue, this`loaded
      ensures ok <==> old(queue)[i] in files && files[old(queue)[i]].is32bit == is32bit
      ensures ok ==> queue == EnqueueAll(old(queue), files[old(queue)[i]].needed)
      ensures ok ==> loaded == old(loaded) + [old(queue)[i]]
      ensures !ok ==> queue == old(queue) && loaded == old(loaded)
    {
      var u := queue[i];
      if u !in files || files[u].is32bit != is32bit {
        return false;
      }
      AddDependencies(files[u].needed);
      loaded := loaded + [u];
      ok := true;
    }

    /** The walk so far, with the members before i loaded. */
    ghost function Progress(base: nat, i: nat): (w: Walk)
      reads this
    {
      Walk(files, base, queue, parents, i)
    }

    predicate Loadable(u: Uuid, is32bit: bool) {
      u in files && files[u].is32bit == is32bit
    }

    method LoadNext(base: nat, i: nat, is32bit: bool) returns (ok: bool)
      requires Progress(base, i).Inv() && loaded == queue[..i] && i < |queue|
      modifies this
      ensures ok <==> Loadable(old(queue)[i], is32bit)
      ensures ok ==> Progress(base, i + 1).Inv() && loaded == queue[..i + 1] && old(queue) <= queue
      ensures !ok ==> queue == old(queue) && loaded == old(loaded) && parents == old(parents)
    {
      ghost var w := Progress(base, i);
      ok := LoadDependency(i, is32bit);
      if ok {
        LoadStep(w);
        parents := parents + seq(|queue| - |w.queue|, _ => i);
        assert queue[..i + 1] == w.queue[..i] + [w.queue[i]];
      }
    }

    ghost predicate AllLoadable(us: seq<Uuid>, start: nat, is32bit: bool) {
      forall j :: start <= j < |us| ==> Loadable(us[j], is32bit)
    }

    /** The loading loops of ldelf() and ta_elf_add_library(), from member `start` on. */
    method LoadFrom(base: nat, start: nat, is32bit: bool) returns (ok: bool)
      requires Progress(base, start).Inv() && loaded == queue[..start]
      modifies this
      ensures old(queue) <= queue && start <= |loaded| <= |queue| && loaded == queue[..|loaded|]
      ensures Progress(base, |loaded|).Inv()
      ensures AllLoadable(loaded, start, is32bit)
      ensures ok <==> loaded == queue
      ensures !ok ==> !Loadable(queue[|loaded|], is32bit)
    {
      var i := start;
      LoadedAreFiles(Progress(base, start));
      while i < |queue|
        invariant start <= i <= |queue| && old(queue) <= queue
        invariant Progress(base, i).Inv() && loaded == queue[..i]
        invariant AllLoadable(loaded, start, is32bit)
        invariant Members(loaded) <= files.Keys
        decreases files.Keys - Members(loaded)
      {
        MembersGrow(queue, i);
        label before:
        ok := LoadNext(base, i, is32bit);
        if !ok {
          return;
        }
        assert loaded == old@before(queue)[..i + 1] == old@before(loaded) + [old@before(queue)[i]];
        i := i + 1;
      }
      ok := true;
    }

    /** ta_elf_load_main(). A legacy TA is loaded a second time, which queues its dependencies again. */
    method LoadMain(main: Uuid, legacy: bool) returns (ok: bool)
      requires queue == [] && loaded == []
      modifies this
      ensures ok <==> main in files
      ensures ok ==> Progress(0, 1).Inv() && loaded == queue[..1] && queue[0] == main
    {
      QueueElf(main);
      assert queue == [main];
      if main !in files {
        return false;
      }
      AddDependencies(files[main].needed);
      loaded := [main];
      FirstLoad(files, main);
      if legacy {
        EnqueueKnown(queue, files[main].needed);
        AddDependencies(files[main].needed);
      }
      parents := seq(|queue|, _ => 0);
      ok := true;
    }

    /**
     * ldelf(): the main ELF, then the loop over the queue, where it is skipped. It
     * succeeds exactly when everything reached from the main ELF exists and has
     * its width, and then the queue is that, without duplicates, breadth first,
     * each member loaded once.
     */
    method Ldelf(main: Uuid, legacy: bool) returns (ok: bool)
      requires queue == [] && loaded == []
      modifies this
      ensures ok <==> main in files && forall u :: Reaches(files, main, u) ==>
                                            u in files && files[u].is32bit == files[main].is32bit
      ensures ok ==> loaded == queue && NoDuplicates(queue) && ClosedUnder(files, queue)
      ensures ok ==> queue != [] && queue[0] == main
      ensures ok ==> forall u :: u in queue <==> Reaches(files, main, u)
      ensures ok ==> BreadthFirstFrom(files, main, queue) && InNeededOrder(files, queue, 0)
    {
      ok := LoadMain(main, legacy);
      if !ok {
        return;
      }
      ok := LoadFrom(0, 1, files[main].is32bit);
      assert queue[0] == main && Within(files, main, main, 0);
      if ok {
        EndOfWalk(Progress(0, |queue|));
        assert queue[0..] == queue;
        assert forall u :: u in queue ==> Loadable(u, files[main].is32bit);
      } else {
        ghost var k := QueuedIsReached(Progress(0, |loaded|), |loaded|);
      }
    }

    /**
     * ta_elf_add_library(), called by dlopen: the queue grows by what the library
     * reaches and nothing is loaded again.
     */
    method AddLibrary(lib: Uuid, is32bit: bool) returns (ok: bool)
      requires loaded == queue && NoDuplicates(queue) && ClosedUnder(files, queue)
      requires forall u :: u in queue ==> Loadable(u, is32bit)
      modifies this
      ensures old(queue) <= queue && old(loaded) <= loaded && NoDuplicates(queue)
      ensures ok <==> forall u :: Reaches(files, lib, u) ==> u in files && files[u].is32bit == is32bit
      ensures ok ==> loaded == queue && ClosedUnder(files, queue)
      ensures ok ==> forall u :: u in queue <==> u in old(queue) || Reaches(files, lib, u)
      ensures ok ==> BreadthFirstFrom(files, lib, queue[|old(queue)|..]) && InNeededOrder(files, queue, |old(queue)|)
    {
      var found := FindElf(lib);
      if found {
        ClosedReaches(files, queue, lib);
        return true;
      }
      ok := AddNewLibrary(lib, is32bit);
    }

    /** The rest of ta_elf_add_library(), for a library that is not in the queue. */
    method AddNewLibrary(lib: Uuid, is32bit: bool) returns (ok: bool)
      requires loaded == queue && NoDuplicates(queue) && ClosedUnder(files, queue) && lib !in queue
      requires forall u :: u in queue ==> Loadable(u, is32bit)
      modifies this
      ensures old(queue) <= queue && old(loaded) <= loaded && NoDuplicates(queue)
      ensures ok <==> forall u :: Reaches(files, lib, u) ==> u in files && files[u].is32bit == is32bit
      ensures ok ==> loaded == queue && ClosedUnder(files, queue)
      ensures ok ==> forall u :: u in queue <==> u in old(queue) || Reaches(files, lib, u)
      ensures ok ==> BreadthFirstFrom(files, lib, queue[|old(queue)|..]) && InNeededOrder(files, queue, |old(queue)|)
    {
      ghost var base := |queue|;
      ghost var before := queue;
      queue := queue + [lib];
      parents := seq(|queue|, _ => 0);
      assert queue[..base] == before;
      FreshWalk(files, before, lib, parents);
      ok := LoadFrom(|queue| - 1, |queue| - 1, is32bit);
      assert queue[base] == lib && queue[..base] == before;
      if ok {
        EndOfWalk(Progress(base, |queue|));
        assert queue == before + queue[base..];
        assert forall u :: u in queue ==> Loadable(u, is32bit);
      } else {
        ghost var k := QueuedIsReached(Progress(base, |loaded|), |loaded|);
      }
    }
  }

  /** A closed queue holds whatever its members reach. */
  lemma ClosedReaches(files: Store, queue: seq<Uuid>, lib: Uuid)
    requires ClosedUnder(files, queue) && lib in queue
    ensures forall u :: Reaches(files, lib, u) ==> u in queue
  {
    forall u | Reaches(files, lib, u) ensures u in queue {
      var k: nat :| Within(files, lib, u, k);
      ClosedKeeps(files, queue, lib, u, k);
    }
  }

  lemma FreshWalk(files: Store, q: seq<Uuid>, root: Uuid, parents: seq<nat>)
    requires ClosedUnder(files, q) && NoDuplicates(q) && root !in q && |parents| == |q| + 1
    ensures Walk(files, |q|, q + [root], parents, |q|).Inv()
    ensures q == [] ==> q + [root] == [root]
  {
    var w := Walk(files, |q|, q + [root], parents, |q|);
    assert w.queue[..|q|] == q;
    KeepsDifferent(q, root);
  }

  /** The walk after the main ELF is loaded. */
  lemma FirstLoad(files: Store, main: Uuid)
    requires main in files
    ensures var q := EnqueueAll([main], files[main].needed);
            && (forall parents: seq<nat> :: |parents| == |q| && (forall j :: 0 <= j < |q| ==> parents[j] == 0) ==>
               Walk(files, 0, q, parents, 1).Inv())
            && [main] <= q
            && forall n :: n in files[main].needed ==> n in q
  {
    FreshWalk(files, [], main, [0]);
    LoadStep(Walk(files, 0, [main], [0], 0));
    EnqueueAllMeans([main], files[main].needed);
    var q := EnqueueAll([main], files[main].needed);
    forall parents: seq<nat> | |parents| == |q| && (forall j :: 0 <= j < |q| ==> parents[j] == 0)
      ensures Walk(files, 0, q, parents, 1).Inv()
    {
      assert parents == [0] + seq(|q| - 1, _ => 0);
    }
  }

  ghost function Members(q: seq<Uuid>): (m: set<Uuid>) {
    set u | u in q
  }

  lemma MembersGrow(q: seq<Uuid>, i: nat)
    requires NoDuplicates(q) && i < |q|
    ensures Members(q[..i + 1]) == Members(q[..i]) + {q[i]} && q[i] !in Members(q[..i])
  {
    assert q[..i + 1] == q[..i] + [q[i]];
    forall j | 0 <= j < i ensures q[j] != q[i] {
      assert Differ(q, j, i);
    }
  }

  lemma LoadedAreFiles(w: Walk)
    requires w.Inv()
    ensures Members(w.queue[..w.i]) <= w.files.Keys
  {
    forall u | u in w.queue[..w.i] ensures u in w.files {
      var j :| 0 <= j < w.i && w.queue[j] == u;
      assert w.LoadedMember(j);
    }
  }
}

/** Symbol resolution over all loaded modules, and how it relates to its documented search order. */
module SymbolResolution {
  import opened ElfSymbols
  import GnuHash
  import SysvHash
  import opened Words

  /** A loaded module and the hash table that is used for it: DT_GNU_HASH if there is one, else DT_HASH. */
  datatype Module =
    | Gnu(table: GnuHash.Table, elf: Elf)
    | Sysv(image: SysvHash.Image)
    | NoTable(elf: Elf)

  /** Lookups in the module run to an end. */
  predicate Ready(m: Module) {
    match m
    case Gnu(t, _) => t.Usable()
    case Sysv(img) => img.Accepted() && img.Buckets() > 0 && SysvHash.Acyclic(img)
    case NoTable(_) => true
  }

  lemma SysvHalts(img: SysvHash.Image, name: Name, weakOk: bool)
    requires Ready(Sysv(img))
    ensures SysvHash.Halts(img, name, weakOk, img.Bucket(SysvHash.HashOf(name) % img.Buckets()), img.Chains())
  {
    SysvHash.EndsHalts(img, name, weakOk, img.Bucket(SysvHash.HashOf(name) % img.Buckets()), img.Chains());
  }

  function Lookup(m: Module, name: Name, weakOk: bool): (v: Verdict)
    requires Ready(m)
  {
    match m
    case Gnu(t, elf) => GnuHash.Lookup(t, elf, name, weakOk)
    case Sysv(img) =>
      SysvHalts(img, name, weakOk);
      SysvHash.Walk(img, name, weakOk, img.Bucket(SysvHash.HashOf(name) % img.Buckets()), img.Chains())
    case NoTable(_) => NoMatch
  }

  /** resolve_sym_helper() */
  method ResolveHelper(m: Module, name: Name, weakOk: bool) returns (v: Verdict)
    requires Ready(m)
    ensures v == Lookup(m, name, weakOk)
  {
    match m
    case Gnu(t, elf) =>
      v := GnuHash.Resolve(t, elf, name, weakOk);
    case Sysv(img) =>
      SysvHalts(img, name, weakOk);
      v := SysvHash.Resolve(img, name, weakOk, img.Chains());
    case NoTable(_) =>
      v := NoMatch;
  }

  // ----- What a module has, and what is taken of it -----

  /** The module with its symbols of one tier only. */
  function OnlyTier(m: Module, tier: Tier): (r: Module) {
    match m
    case Gnu(t, elf) => Gnu(t, Only(elf, tier))
    case Sysv(img) => Sysv(SysvHash.OnlyImage(img, tier))
    case NoTable(elf) => NoTable(Only(elf, tier))
  }

  lemma OnlyIsReady(m: Module, tier: Tier)
    requires Ready(m)
    ensures Ready(OnlyTier(m, tier))
  {
    if m.Sysv? {
      SysvHash.OnlyIsAcyclic(m.image, tier);
    }
  }

  /** The first symbol of a tier that the table of the module leads to. */
  function Has(m: Module, name: Name, tier: Tier): (v: Verdict)
    requires Ready(m)
  {
    OnlyIsReady(m, tier);
    Lookup(OnlyTier(m, tier), name, true)
  }

  /**
   * What a module has: a global symbol, a defined weak one, an undefined weak one; and
   * `either`, what the search finds that takes globals and weak symbols alike.
   */
  datatype Answers = Answers(globals: Verdict, either: Verdict, weak: Verdict, undefined: Verdict) {
    /** What the code takes: a global, or else the first symbol of any kind. */
    function Taken(): (v: Verdict) { if globals.NoMatch? then either else globals }

    predicate Silent() { Taken().NoMatch? }

    /** 0 to 2 for the best tier in which the module has the name, 3 for none. */
    function Rank(): (n: nat) {
      if !globals.NoMatch? then 0 else if !weak.NoMatch? then 1 else if !undefined.NoMatch? then 2 else 3
    }

    /** What the module has in its best tier. */
    function Best(): (v: Verdict) {
      if Rank() == 0 then globals else if Rank() == 1 then weak else undefined
    }

    /**
     * Without a global, the first weak symbol is undefined only if there is no
     * defined one, or one of value zero.
     */
    predicate Straight() {
      globals.NoMatch? && IsUndefined(either) ==> weak.NoMatch? || (weak.Match? && weak.val == 0)
    }

    predicate Fits() { Coherent(globals, either, weak, undefined) }
  }

  function Ask(m: Module, name: Name): (a: Answers)
    requires Ready(m)
  {
    Answers(Lookup(m, name, false), Lookup(m, name, true), Has(m, name, Weak), Has(m, name, Undefined))
  }

  lemma GnuFits(t: GnuHash.Table, elf: Elf, name: Name)
    requires t.Usable()
    ensures Ask(Gnu(t, elf), name).Fits()
  {
    var first, hash := t.Bucket(GnuHash.HashOf(name) % t.Buckets()), GnuHash.HashOf(name);
    if first >= t.SymOffset() {
      GnuHash.WalksAreCoherent(t, elf, name, hash, first - t.SymOffset());
    }
  }

  lemma SysvFits(img: SysvHash.Image, name: Name)
    requires Ready(Sysv(img))
    ensures Ask(Sysv(img), name).Fits()
  {
    var b := SysvHash.HashOf(name) % img.Buckets();
    SysvHash.OnlyIsAcyclic(img, Weak);
    SysvHash.OnlyIsAcyclic(img, Undefined);
    assert img.Ends(img.Bucket(b), img.Chains());
    SysvHash.WalksAreCoherent(img, name, img.Bucket(b), img.Chains());
  }

  /** What is taken of a module and what it has go together. */
  lemma AskFits(m: Module, name: Name)
    requires Ready(m)
    ensures Ask(m, name).Fits()
  {
    match m
    case Gnu(t, elf) => GnuFits(t, elf, name);
    case Sysv(img) => SysvFits(img, name);
    case NoTable(_) =>
  }

  /** Found and Aborted carry the position of the module in the search order. */
  datatype Resolution = NotFound | Found(val: nat, at: nat) | Aborted(error: Error, at: nat)

  function ToResolution(v: Verdict, at: nat): (r: Resolution)
    requires !v.NoMatch?
  {
    if v.Match? then Found(v.val, at) else Aborted(v.error, at)
  }

  /** The result is what is taken of the module at its position. */
  predicate IsTaken(answers: seq<Answers>, r: Resolution) {
    !r.NotFound? && r.at < |answers| && !answers[r.at].Silent() && r == ToResolution(answers[r.at].Taken(), r.at)
  }

  /** The result is what the module at its position has in its best tier. */
  predicate IsBest(answers: seq<Answers>, r: Resolution) {
    !r.NotFound? && r.at < |answers| && answers[r.at].Rank() < 3 && r == ToResolution(answers[r.at].Best(), r.at)
  }

  predicate AllSilent(answers: seq<Answers>) {
    forall i :: 0 <= i < |answers| ==> answers[i].Silent()
  }

  /** Taking the first module that is not silent, its globals before its other symbols. */
  predicate FirstAnswer(answers: seq<Answers>, r: Resolution) {
    if r.NotFound? then AllSilent(answers)
    else IsTaken(answers, r) && forall i :: 0 <= i < r.at ==> answers[i].Silent()
  }

  lemma FirstAnswerIsUnique(answers: seq<Answers>, r: Resolution, other: Resolution)
    requires FirstAnswer(answers, r) && FirstAnswer(answers, other)
    ensures r == other
  {
  }

  function AskAll(ms: seq<Module>, name: Name): (answers: seq<Answers>)
    requires forall m :: m in ms ==> Ready(m)
    ensures |answers| == |ms| && forall i :: 0 <= i < |ms| ==> answers[i] == Ask(ms[i], name)
  {
    seq(|ms|, i requires 0 <= i < |ms| => Ask(ms[i], name))
  }

  /** One module, globals first. */
  method ResolveIn(m: Module, name: Name) returns (v: Verdict)
    requires Ready(m)
    ensures v == Ask(m, name).Taken()
  {
    v := ResolveHelper(m, name, false);
    if v.NoMatch? {
      v := ResolveHelper(m, name, true);
    }
  }

  /** The first n modules are silent. */
  predicate SilentTo(answers: seq<Answers>, n: nat) {
    n <= |answers| && forall i :: 0 <= i < n ==> answers[i].Silent()
  }

  lemma FirstIsAnswer(answers: seq<Answers>, at: nat)
    requires at < |answers| && !answers[at].Silent() && SilentTo(answers, at)
    ensures FirstAnswer(answers, ToResolution(answers[at].Taken(), at))
  {
  }

  predicate AnswersOf(m: Module, name: Name, a: Answers) {
    Ready(m) && a == Ask(m, name)
  }

  /** One module of the search, of which `a` tells what it has. */
  method Resolve(m: Module, name: Name, ghost a: Answers) returns (v: Verdict)
    requires AnswersOf(m, name, a)
    ensures v == a.Taken()
  {
    v := ResolveIn(m, name);
  }

  /** The search of ta_elf_resolve_sym() through the given module and the queue. */
  method Search(name: Name, elf: seq<Module>, queue: seq<Module>, ghost answers: seq<Answers>) returns (r: Resolution)
    requires |elf| <= 1 && |answers| == |elf| + |queue|
    requires forall i :: 0 <= i < |elf| ==> AnswersOf(elf[i], name, answers[i])
    requires forall i :: 0 <= i < |queue| ==> AnswersOf(queue[i], name, answers[|elf| + i])
    ensures FirstAnswer(answers, r)
  {
    if |elf| == 1 {
      var v := Resolve(elf[0], name, answers[0]);
      if !v.NoMatch? {
        FirstIsAnswer(answers, 0);
        return ToResolution(v, 0);
      }
    }
    var i := 0;
    while i < |queue|
      invariant 0 <= i <= |queue| && SilentTo(answers, |elf| + i)
    {
      var v := Resolve(queue[i], name, answers[|elf| + i]);
      if !v.NoMatch? {
        FirstIsAnswer(answers, |elf| + i);
        return ToResolution(v, |elf| + i);
      }
      i := i + 1;
    }
    r := NotFound;
  }

  /** ta_elf_resolve_sym(); `elf` holds the caller's module or nothing, and is searched before the queue. */
  method ResolveSym(name: Name, elf: seq<Module>, queue: seq<Module>) returns (r: Resolution)
    requires |elf| <= 1
    requires forall m :: m in elf + queue ==> Ready(m)
    ensures FirstAnswer(AskAll(elf + queue, name), r)
  {
    ghost var ms := elf + queue;
    ghost var answers := AskAll(ms, name);
    assert forall i :: 0 <= i < |elf| ==> elf[i] == ms[i];
    assert forall i :: 0 <= i < |queue| ==> queue[i] == ms[|elf| + i];
    r := Search(name, elf, queue, answers);
  }

  /** For a module with a well-formed DT_GNU_HASH table, asking is scanning its symbols, tier by tier. */
  lemma AskIsScan(t: GnuHash.Table, elf: Elf, name: Name)
    requires GnuHash.WellFormed(t, elf)
    ensures var from := t.SymOffset();
            Ask(Gnu(t, elf), name) == Answers(Scan(elf, name, false, from), Scan(elf, name, true, from),
                                              Scan(Only(elf, Weak), name, true, from),
                                              Scan(Only(elf, Undefined), name, true, from))
  {
    GnuHash.LookupIsScan(t, elf, name, false);
    GnuHash.LookupIsScan(t, elf, name, true);
    GnuHash.OnlyIsWellFormed(t, elf, Weak);
    GnuHash.LookupIsScan(t, Only(elf, Weak), name, true);
    GnuHash.OnlyIsWellFormed(t, elf, Undefined);
    GnuHash.LookupIsScan(t, Only(elf, Undefined), name, true);
  }

  /** A table of a module leads to all its symbols. */
  predicate Reachable(img: SysvHash.Image) {
    Ready(Sysv(img)) && SysvHash.Complete(img)
  }

  /** The result is the verdict of a symbol, found as the scan finds one. */
  ghost predicate LikeScan(elf: Elf, name: Name, weakOk: bool, v: Verdict) {
    && (v.NoMatch? <==> Scan(elf, name, weakOk, 1).NoMatch?)
    && (!v.NoMatch? ==> exists m :: 0 < m < |elf.dynsym| && v == SymCompare(elf, elf.dynsym[m], name, weakOk))
  }

  lemma SysvLookupIsLikeScan(img: SysvHash.Image, name: Name, weakOk: bool)
    requires Reachable(img)
    ensures LikeScan(img.elf, name, weakOk, Lookup(Sysv(img), name, weakOk))
  {
    SysvHash.LookupFailsLikeScan(img, name, weakOk);
  }

  /** For a module with a complete DT_HASH table, asking is like scanning its symbols, tier by tier. */
  lemma SysvAskIsLikeScan(img: SysvHash.Image, name: Name)
    requires Reachable(img)
    ensures var a := Ask(Sysv(img), name);
            && LikeScan(img.elf, name, false, a.globals) && LikeScan(img.elf, name, true, a.either)
            && LikeScan(Only(img.elf, Weak), name, true, a.weak)
            && LikeScan(Only(img.elf, Undefined), name, true, a.undefined)
  {
    SysvLookupIsLikeScan(img, name, false);
    SysvLookupIsLikeScan(img, name, true);
    OnlyIsReachable(img, Weak);
    SysvLookupIsLikeScan(SysvHash.OnlyImage(img, Weak), name, true);
    OnlyIsReachable(img, Undefined);
    SysvLookupIsLikeScan(SysvHash.OnlyImage(img, Undefined), name, true);
  }

  lemma OnlyIsReachable(img: SysvHash.Image, tier: Tier)
    requires Reachable(img)
    ensures Reachable(SysvHash.OnlyImage(img, tier))
  {
    SysvHash.OnlyIsAcyclic(img, tier);
    SysvHash.OnlyIsComplete(img, tier);
  }

  /** An undefined weak symbol resolves to zero. */
  lemma UndefinedIsZero(m: Module, name: Name)
    requires Ready(m) && IsUndefined(Lookup(m, name, true))
    ensures Lookup(m, name, true) == Match(0, Undefined)
  {
    match m
    case Gnu(t, elf) =>
      GnuHash.WalkIsSound(t, elf, name, true, GnuHash.HashOf(name),
                          t.Bucket(GnuHash.HashOf(name) % t.Buckets()) - t.SymOffset());
    case Sysv(img) =>
      SysvHalts(img, name, true);
      SysvHash.WalkIsSound(img, name, true, img.Bucket(SysvHash.HashOf(name) % img.Buckets()), img.Chains());
    case NoTable(_) =>
  }

  // ----- The documented order -----

  /** The modules that are searched as documented: the one that is given, or else all. */
  function Documented(elf: seq<Answers>, queue: seq<Answers>): (scope: seq<Answers>) {
    if elf != [] then elf else queue
  }

  /**
   * As documented: globals of all these modules first, then weak symbols, and an
   * undefined weak symbol only when there is neither.
   */
  predicate DocumentedAnswer(scope: seq<Answers>, r: Resolution) {
    if r.NotFound? then forall i :: 0 <= i < |scope| ==> scope[i].Rank() == 3
    else
      && IsBest(scope, r)
      && (forall i :: 0 <= i < |scope| ==> scope[r.at].Rank() <= scope[i].Rank())
      && (forall i :: 0 <= i < r.at ==> scope[r.at].Rank() < scope[i].Rank())
  }

  /** Module i is the first that is not silent. */
  predicate Leads(answers: seq<Answers>, i: nat) {
    i < |answers| && !answers[i].Silent() && forall k :: 0 <= k < i ==> answers[k].Silent()
  }

  /** Module i has the name in the best tier in which any module has it, and is straight. */
  predicate LeadsWell(answers: seq<Answers>, i: nat)
    requires i < |answers|
  {
    answers[i].Straight() && forall j :: 0 <= j < |answers| ==> answers[i].Rank() <= answers[j].Rank()
  }

  /** The first module that knows the name leads well. */
  predicate FirstLeadsWell(answers: seq<Answers>) {
    forall i :: 0 <= i < |answers| && Leads(answers, i) ==> LeadsWell(answers, i)
  }

  predicate AllFit(answers: seq<Answers>) {
    forall i :: 0 <= i < |answers| ==> answers[i].Fits()
  }

  /** A module says something exactly when it has something, and says the best it has exactly when it is straight. */
  lemma TakenIsBest(a: Answers)
    requires a.Fits()
    ensures a.Silent() <==> a.Rank() == 3
    ensures !a.Silent() ==> (ToResolution(a.Taken(), 0) == ToResolution(a.Best(), 0) <==> a.Straight())
  {
  }

  lemma TakenIsBestAt(answers: seq<Answers>, r: Resolution)
    requires AllFit(answers) && IsTaken(answers, r)
    ensures IsBest(answers, r) <==> answers[r.at].Straight()
  {
    TakenIsBest(answers[r.at]);
  }

  lemma SilentAreRankless(answers: seq<Answers>)
    requires AllFit(answers)
    ensures forall i :: 0 <= i < |answers| ==> (answers[i].Silent() <==> answers[i].Rank() == 3)
  {
    forall i | 0 <= i < |answers| ensures answers[i].Silent() <==> answers[i].Rank() == 3 {
      TakenIsBest(answers[i]);
    }
  }

  lemma AmongAll(queue: seq<Answers>, r: Resolution)
    requires AllFit(queue) && FirstAnswer(queue, r)
    ensures DocumentedAnswer(queue, r) <==> FirstLeadsWell(queue)
  {
    SilentAreRankless(queue);
    if r.NotFound? {
      assert forall i :: 0 <= i < |queue| ==> !Leads(queue, i);
    } else {
      assert Leads(queue, r.at);
      OneLeads(queue, r.at);
      TakenIsBestAt(queue, r);
    }
  }

  lemma OneLeads(answers: seq<Answers>, i: nat)
    requires Leads(answers, i)
    ensures forall j :: 0 <= j < |answers| && Leads(answers, j) ==> j == i
  {
  }

  lemma WithGiven(elf: Answers, queue: seq<Answers>, r: Resolution)
    requires elf.Fits() && FirstAnswer([elf] + queue, r)
    ensures DocumentedAnswer([elf], r) <==> if elf.Silent() then AllSilent(queue) else elf.Straight()
  {
    var all := [elf] + queue;
    assert all[0] == elf;
    TakenIsBest(elf);
    if elf.Silent() {
      if AllSilent(queue) {
        assert AllSilent(all);
      } else {
        var i :| 0 <= i < |queue| && !queue[i].Silent();
        assert !all[i + 1].Silent();
      }
    } else {
      assert r == ToResolution(elf.Taken(), 0);
    }
  }

  lemma AllAskedFit(ms: seq<Module>, name: Name)
    requires forall m :: m in ms ==> Ready(m)
    ensures AllFit(AskAll(ms, name))
  {
    forall i | 0 <= i < |ms| ensures AskAll(ms, name)[i].Fits() {
      AskFits(ms[i], name);
    }
  }

  /**
   * The code does what is documented exactly when, without a given module, the first
   * module that knows the name has it in the best tier in which any module has it and
   * is straight, and, with a given module, that module is straight if it knows the
   * name, and no other module knows it if it does not.
   */
  lemma DocumentedOrderIff(name: Name, elf: seq<Module>, queue: seq<Module>, r: Resolution)
    requires |elf| <= 1 && forall m :: m in elf + queue ==> Ready(m)
    requires FirstAnswer(AskAll(elf + queue, name), r)
    ensures (forall m :: m in elf ==> Ready(m)) && (forall m :: m in queue ==> Ready(m))
    ensures DocumentedAnswer(Documented(AskAll(elf, name), AskAll(queue, name)), r) <==>
            if elf == [] then FirstLeadsWell(AskAll(queue, name))
            else if Ask(elf[0], name).Silent() then AllSilent(AskAll(queue, name))
            else Ask(elf[0], name).Straight()
  {
    forall m | m in elf || m in queue ensures Ready(m) {
      assert m in elf + queue;
    }
    AllAskedFit(queue, name);
    assert AskAll(elf + queue, name) == AskAll(elf, name) + AskAll(queue, name);
    if elf == [] {
      assert AskAll(elf, name) + AskAll(queue, name) == AskAll(queue, name);
      AmongAll(AskAll(queue, name), r);
    } else {
      assert AskAll(elf, name) == [Ask(elf[0], name)];
      AskFits(elf[0], name);
      WithGiven(Ask(elf[0], name), AskAll(queue, name), r);
    }
  }

  // ----- Where the order is not kept -----

  /** The name "a". */
  const A: Name := [97]

  const ONE_ENTRY := GnuHash.Table(true, [1, 1, 1, 0, 0xFFFF_FFFF, 1, 177671, 0], 28)

  const TWO_ENTRIES := GnuHash.Table(true, [1, 1, 1, 0, 0xFFFF_FFFF, 1, 177670, 177671, 0], 32)

  function ElfOf(syms: seq<Sym>): (e: Elf) {
    Elf(0, 0x1000, [Sym(0, 0, 0, 0, 0)] + syms, [0, 97, 0], 3)
  }

  /** A function of that name. */
  function Function(bind: nat, shndx: nat, value: nat): (s: Sym) {
    Sym(bind, STT_FUNC, shndx, 1, value)
  }

  lemma HashOfA()
    ensures GnuHash.HashOf(A) == 177670 && GnuHash.Pow2(0) == 1 && GnuHash.Pow2(6) == 64
  {
    assert A[..0] == [];
    assert GnuHash.HashOf([]) == 5381;
    assert GnuHash.Pow2(2) == 4;
    assert GnuHash.Pow2(4) == 16;
  }

  lemma OneEntryLeadsToOne(elf: Elf, weakOk: bool)
    requires |elf.dynsym| == 2
    ensures Ready(Gnu(ONE_ENTRY, elf))
    ensures Lookup(Gnu(ONE_ENTRY, elf), A, weakOk) == SymCompare(elf, elf.dynsym[1], A, weakOk)
  {
    var t := ONE_ENTRY;
    HashOfA();
    assert t.FilterWord(0) == 0xFFFF_FFFF;
    assert t.Admits(177670);
    assert t.Chain(0) == 177671 && t.Bucket(0) == 1;
  }

  lemma TwoEntriesLeadToTwo(elf: Elf, weakOk: bool)
    requires |elf.dynsym| == 3
    ensures Ready(Gnu(TWO_ENTRIES, elf))
    ensures var v := SymCompare(elf, elf.dynsym[1], A, weakOk);
            Lookup(Gnu(TWO_ENTRIES, elf), A, weakOk) == if v.NoMatch? then SymCompare(elf, elf.dynsym[2], A, weakOk)
                else v
  {
    HashOfA();
    TwoEntriesAreFound();
    WalkOfTwo(elf, weakOk);
  }

  lemma TwoEntriesAreFound()
    ensures var t := TWO_ENTRIES;
            t.Usable() && t.Admits(177670) && t.Buckets() == 1 && t.Bucket(0) == 1 && t.SymOffset() == 1
  {
    HashOfA();
    assert TWO_ENTRIES.FilterWord(0) == 0xFFFF_FFFF;
  }

  lemma WalkOfTwo(elf: Elf, weakOk: bool)
    requires |elf.dynsym| == 3
    ensures TWO_ENTRIES.Usable()
    ensures var v := SymCompare(elf, elf.dynsym[1], A, weakOk);
            GnuHash.Walk(TWO_ENTRIES, elf, A, weakOk, 177670, 0) ==
            if v.NoMatch? then SymCompare(elf, elf.dynsym[2], A, weakOk) else v
  {
    var t := TWO_ENTRIES;
    assert t.Chain(0) == 177670 && t.Chain(1) == 177671;
    assert GnuHash.Walk(t, elf, A, weakOk, 177670, 1) == SymCompare(elf, elf.dynsym[2], A, weakOk);
  }

  /** A module with one function of that name. */
  function OneSymbol(bind: nat, shndx: nat, value: nat): (m: Module) {
    Gnu(ONE_ENTRY, ElfOf([Function(bind, shndx, value)]))
  }

  /** What the symbols are compared to. */
  lemma NameIsA(elf: Elf)
    requires elf.dynstr == [0, 97, 0]
    ensures CStringAt(elf.dynstr, 1) == A
  {
    assert CStringAt(elf.dynstr, 2) == [];
  }

  /** What a module with one symbol has. */
  lemma AskOne(bind: nat, shndx: nat, value: nat)
    requires bind in {STB_GLOBAL, STB_WEAK} && shndx in {SHN_UNDEF, 1} && value <= 0x1000
    requires bind == STB_GLOBAL ==> shndx == 1
    ensures var m := OneSymbol(bind, shndx, value);
            && Ready(m)
            && Ask(m, A) == if bind == STB_GLOBAL then Answers(Match(value, Global), Match(value, Global), NoMatch,
               NoMatch)
                            else if shndx == SHN_UNDEF then Answers(NoMatch, Match(0, Undefined), NoMatch,
                                Match(0, Undefined))
                            else Answers(NoMatch, Match(value, Weak), Match(value, Weak), NoMatch)
  {
    var elf := OneSymbol(bind, shndx, value).elf;
    NameIsA(elf);
    OneEntryLeadsToOne(elf, false);
    OneEntryLeadsToOne(elf, true);
    OneEntryLeadsToOne(Only(elf, Weak), true);
    OneEntryLeadsToOne(Only(elf, Undefined), true);
  }

  /** An earlier module that knows the name hides a later one that has it in a better tier. */
  lemma Hides(m: Module, n: Module)
    requires Ready(m) && Ready(n) && !Ask(m, A).Silent() && Ask(n, A).Rank() < Ask(m, A).Rank()
    ensures (forall k :: k in [m, n] ==> Ready(k))
    ensures var answers := AskAll([m, n], A);
            var r, s := ToResolution(Ask(m, A).Taken(), 0), ToResolution(Ask(n, A).Best(), 1);
            FirstAnswer(answers, r) && !DocumentedAnswer(answers, r) && DocumentedAnswer(answers, s)
  {
    assert AskAll([m, n], A) == [Ask(m, A), Ask(n, A)];
    HidesAnswers(Ask(m, A), Ask(n, A));
  }

  lemma HidesAnswers(a: Answers, b: Answers)
    requires !a.Silent() && b.Rank() < a.Rank()
    ensures var r, s := ToResolution(a.Taken(), 0), ToResolution(b.Best(), 1);
            FirstAnswer([a, b], r) && !DocumentedAnswer([a, b], r) && DocumentedAnswer([a, b], s)
  {
    assert [a, b][1] == b;
  }

  /** A weak symbol of an earlier module hides the global of a later one. */
  lemma WeakHidesGlobal()
    ensures var ms := [OneSymbol(STB_WEAK, 1, 0x10), OneSymbol(STB_GLOBAL, 1, 0x20)];
            && (forall m :: m in ms ==> Ready(m))
            && FirstAnswer(AskAll(ms, A), Found(0x10, 0)) && !DocumentedAnswer(AskAll(ms, A), Found(0x10, 0))
            && DocumentedAnswer(AskAll(ms, A), Found(0x20, 1))
  {
    AskOne(STB_WEAK, 1, 0x10);
    AskOne(STB_GLOBAL, 1, 0x20);
    Hides(OneSymbol(STB_WEAK, 1, 0x10), OneSymbol(STB_GLOBAL, 1, 0x20));
  }

  /** An undefined weak symbol of an earlier module hides the weak symbol of a later one. */
  lemma UndefinedHidesWeak()
    ensures var ms := [OneSymbol(STB_WEAK, SHN_UNDEF, 0), OneSymbol(STB_WEAK, 1, 0x20)];
            && (forall m :: m in ms ==> Ready(m))
            && FirstAnswer(AskAll(ms, A), Found(0, 0)) && !DocumentedAnswer(AskAll(ms, A), Found(0, 0))
            && DocumentedAnswer(AskAll(ms, A), Found(0x20, 1))
  {
    AskOne(STB_WEAK, SHN_UNDEF, 0);
    AskOne(STB_WEAK, 1, 0x20);
    Hides(OneSymbol(STB_WEAK, SHN_UNDEF, 0), OneSymbol(STB_WEAK, 1, 0x20));
  }

  /** A module with an undefined weak symbol in front of a defined one of the same name. */
  const TWO_SYMBOLS := Gnu(TWO_ENTRIES, ElfOf([Function(STB_WEAK, SHN_UNDEF, 0), Function(STB_WEAK, 1, 0x20)]))

  lemma AskTwo()
    ensures Ready(TWO_SYMBOLS)
    ensures Ask(TWO_SYMBOLS, A) == Answers(NoMatch, Match(0, Undefined), Match(0x20, Weak), Match(0, Undefined))
  {
    var elf := TWO_SYMBOLS.elf;
    NameIsA(elf);
    TwoEntriesLeadToTwo(elf, false);
    TwoEntriesLeadToTwo(elf, true);
    TwoEntriesLeadToTwo(Only(elf, Weak), true);
    TwoEntriesLeadToTwo(Only(elf, Undefined), true);
  }

  /** In one module, an undefined weak symbol hides a defined one, whether or not the module is given. */
  lemma UndefinedHidesWeakBesideIt(queue: seq<Module>)
    requires forall m :: m in queue ==> Ready(m)
    ensures Ready(TWO_SYMBOLS) && (forall m :: m in [TWO_SYMBOLS] + queue ==> Ready(m))
    ensures var scope := [Ask(TWO_SYMBOLS, A)];
            && FirstAnswer(AskAll([TWO_SYMBOLS] + queue, A), Found(0, 0))
            && !DocumentedAnswer(scope, Found(0, 0)) && DocumentedAnswer(scope, Found(0x20, 0))
  {
    AskTwo();
    var ms := [TWO_SYMBOLS] + queue;
    forall m | m in ms ensures Ready(m) {
      assert m == TWO_SYMBOLS || m in queue;
    }
    assert AskAll(ms, A)[0] == Ask(TWO_SYMBOLS, A);
  }

  /** An ELF with DT_HASH behind `front`, in which the second of three buckets leads to a global of that name. */
  function SysvModule(front: seq<u32>): (m: Module) {
    var elf := ElfOf([Function(STB_GLOBAL, 1, 0x20)]);
    Sysv(SysvHash.Laid(elf, front, [0, 1, 0], [0, 0], []))
  }

  lemma SysvHashOfA()
    ensures SysvHash.HashOf(A) == 97
  {
    assert A[..0] == [];
    assert SysvHash.HashBits([]) == 0;
    assert SysvHash.Round(0, 97) == 97;
  }

  lemma SysvModuleIsReady(front: seq<u32>)
    ensures Ready(SysvModule(front))
  {
    var img := SysvModule(front).image;
    SysvHash.PartsAreRead(ElfOf([Function(STB_GLOBAL, 1, 0x20)]), front, [0, 1, 0], [0, 0], []);
    forall b | 0 <= b < 3 ensures img.Ends(img.Bucket(b), 2) {
      assert img.Next(1) == 0;
      assert img.Ends(0, 1);
    }
  }

  /** A name is found in a module that has only DT_HASH. */
  lemma SysvModuleResolves(front: seq<u32>)
    requires |front| >= 8
    ensures Ready(SysvModule(front)) && Ask(SysvModule(front), A).Taken() == Match(0x20, Global)
    ensures FirstAnswer([Ask(SysvModule(front), A)], Found(0x20, 0))
  {
    SysvModuleIsReady(front);
    var img := SysvModule(front).image;
    SysvHash.PartsAreRead(ElfOf([Function(STB_GLOBAL, 1, 0x20)]), front, [0, 1, 0], [0, 0], []);
    SysvHashOfA();
    NameIsA(img.elf);
    assert img.Bucket(97 % 3) == 1;
    assert CheckFound(img.elf, A, false, 1) == Match(0x20, Global);
  }

  /** A name that the given module does not know is found in another one. */
  lemma SearchGoesOn()
    ensures var elf, queue := NoTable(ElfOf([])), OneSymbol(STB_GLOBAL, 1, 0x20);
            && Ready(elf) && Ready(queue)
            && FirstAnswer([Ask(elf, A)] + [Ask(queue, A)], Found(0x20, 1))
            && !DocumentedAnswer(Documented([Ask(elf, A)], [Ask(queue, A)]), Found(0x20, 1))
            && DocumentedAnswer(Documented([Ask(elf, A)], [Ask(queue, A)]), NotFound)
  {
    AskOne(STB_GLOBAL, 1, 0x20);
    GoesOn(Ask(NoTable(ElfOf([])), A), Ask(OneSymbol(STB_GLOBAL, 1, 0x20), A));
  }

  lemma GoesOn(elf: Answers, other: Answers)
    requires elf.Silent() && elf.Rank() == 3 && !other.Silent()
    ensures var r := ToResolution(other.Taken(), 1);
            && FirstAnswer([elf] + [other], r) && !DocumentedAnswer(Documented([elf], [other]), r)
            && DocumentedAnswer(Documented([elf], [other]), NotFound)
  {
  }
}

/**
 * Dynamic symbols of a loaded ELF: the match of one symbol against a name, and
 * the plain scan of the symbol table that the hash tables stand in for.
 */
module ElfSymbols {

  import opened Words

  /** A C string without its terminating NUL. */
  type Name = seq<u8>

  const STB_LOCAL := 0
  const STB_GLOBAL := 1
  const STB_WEAK := 2
  const SHN_UNDEF := 0
  const SHN_XINDEX := 0xffff
  const STT_NOTYPE := 0
  const STT_OBJECT := 1
  const STT_FUNC := 2
  const STT_TLS := 6

  datatype Sym = Sym(bind: nat, kind: nat, shndx: nat, name: nat, value: nat)

  /** `dynstr` is the mapped memory from the string table to the end of the ELF. */
  datatype Elf = Elf(loadAddr: nat, maxAddr: nat, dynsym: seq<Sym>, dynstr: seq<u8>, dynstrSize: nat)

  datatype Error = BadFormat | NotSupported

  /** The three kinds of symbol that can match. */
  datatype Tier = Global | Weak | Undefined

  /** The value of a match and what matched; Fatal is a call of err(), which ends the loader. */
  datatype Verdict = NoMatch | Match(val: nat, tier: Tier) | Fatal(error: Error)

  /** The C string at an offset: up to the first NUL. */
  function CStringAt(mem: seq<u8>, at: nat): (s: Name)
    decreases |mem| - at
  {
    if at >= |mem| || mem[at] == 0 then [] else [mem[at]] + CStringAt(mem, at + 1)
  }

  /** That is all bytes from there on in front of the first NUL. */
  lemma {:induction false} CStringIs(mem: seq<u8>, at: nat)
    requires at <= |mem|
    ensures var s := CStringAt(mem, at);
            && at + |s| <= |mem| && s == mem[at..at + |s|] && 0 !in s
            && (at + |s| == |mem| || mem[at + |s|] == 0)
    decreases |mem| - at
  {
    if at < |mem| && mem[at] != 0 {
      CStringIs(mem, at + 1);
      var rest := CStringAt(mem, at + 1);
      assert mem[at..at + 1 + |rest|] == [mem[at]] + mem[at + 1..at + 1 + |rest|];
    }
  }

  function SymName(elf: Elf, n: nat): (s: Name)
    requires n < |elf.dynsym|
  {
    CStringAt(elf.dynstr, elf.dynsym[n].name)
  }

  /** The kind of a defined symbol. */
  function TierOf(sym: Sym): (t: Tier) {
    if sym.bind == STB_GLOBAL then Global else Weak
  }

  /** sym_compare() */
  function SymCompare(elf: Elf, sym: Sym, name: Name, weakOk: bool): (v: Verdict)
    ensures v.Match? || v.Fatal? ==> sym.name != 0
    ensures v.Match? ==> CStringAt(elf.dynstr, sym.name) == name
    ensures v.Fatal? ==> sym.name > elf.dynstrSize || CStringAt(elf.dynstr, sym.name) == name
    ensures v.Match? ==> (v.tier == Global <==> sym.bind == STB_GLOBAL)
    ensures v.Match? ==> (v.tier == Undefined <==> sym.shndx == SHN_UNDEF)
    ensures v.Match? && v.tier != Global ==> weakOk && sym.bind == STB_WEAK
    ensures v.Match? && v.tier == Undefined ==> v.val == 0
    ensures v.Match? && v.tier != Undefined && sym.kind == STT_TLS ==> v.val == sym.value
    ensures v.Match? && v.tier != Undefined && sym.kind != STT_TLS ==> v.val == elf.loadAddr + sym.value <= elf.maxAddr
    ensures v == Fatal(BadFormat) ==> sym.name > elf.dynstrSize || elf.loadAddr + sym.value > elf.maxAddr
    ensures v == Fatal(NotSupported) ==> sym.kind !in {STT_NOTYPE, STT_OBJECT, STT_FUNC, STT_TLS}
  {
    if sym.name == 0 then NoMatch
    else if sym.name > elf.dynstrSize then Fatal(BadFormat)
    else if CStringAt(elf.dynstr, sym.name) != name then NoMatch
    else if sym.bind != STB_GLOBAL && !(weakOk && sym.bind == STB_WEAK) then NoMatch
    else if sym.bind == STB_WEAK && sym.shndx == SHN_UNDEF then Match(0, Undefined)
    else if sym.shndx == SHN_UNDEF || sym.shndx == SHN_XINDEX then NoMatch
    else if sym.kind in {STT_NOTYPE, STT_OBJECT, STT_FUNC} then
      if sym.value > elf.maxAddr - elf.loadAddr then Fatal(BadFormat) else Match(sym.value + elf.loadAddr, TierOf(sym))
    else if sym.kind == STT_TLS then Match(sym.value, TierOf(sym))
    else Fatal(NotSupported)
  }

  /** The symbol has the name. */
  predicate Bears(elf: Elf, sym: Sym, name: Name) {
    0 < sym.name <= elf.dynstrSize && CStringAt(elf.dynstr, sym.name) == name
  }

  /** The symbol has the name and a binding that is asked for. */
  predicate Asked(elf: Elf, sym: Sym, name: Name, weakOk: bool) {
    Bears(elf, sym, name) && (sym.bind == 1 || (weakOk && sym.bind == 2))
  }

  /** It is in a section. */
  predicate Placed(sym: Sym) {
    sym.shndx != 0 && sym.shndx != 0xffff
  }

  /** Its value can be used: data and code have to be inside the ELF, offsets of thread-local data need not. */
  predicate Usable(elf: Elf, sym: Sym) {
    sym.kind == 6 || (sym.kind in {0, 1, 2} && sym.value <= elf.maxAddr - elf.loadAddr)
  }

  /** Exactly when a symbol matches, and exactly when it is an error. */
  lemma SymCompareIff(elf: Elf, sym: Sym, name: Name, weakOk: bool)
    ensures var v := SymCompare(elf, sym, name, weakOk);
            && (IsUndefined(v) <==> Asked(elf, sym, name, weakOk) && sym.bind == 2 && sym.shndx == 0)
            && (v.Match? && !IsUndefined(v) <==> Asked(elf, sym, name, weakOk) && Placed(sym) && Usable(elf, sym))
            && (v.Fatal? <==> sym.name > elf.dynstrSize ||
                              (Asked(elf, sym, name, weakOk) && Placed(sym) && !Usable(elf, sym)))
  {
  }

  /** check_found_sym() */
  function CheckFound(elf: Elf, name: Name, weakOk: bool, n: nat): (v: Verdict)
    ensures v.Match? ==> n < |elf.dynsym| && SymName(elf, n) == name
  {
    if n >= |elf.dynsym| then Fatal(BadFormat) else SymCompare(elf, elf.dynsym[n], name, weakOk)
  }

  /** The reference: the verdict of the first symbol from index `from` on that does not fail to match. */
  function Scan(elf: Elf, name: Name, weakOk: bool, from: nat): (v: Verdict)
    decreases |elf.dynsym| - from
  {
    if from >= |elf.dynsym| then NoMatch
    else
      var v := SymCompare(elf, elf.dynsym[from], name, weakOk);
      if v.NoMatch? then Scan(elf, name, weakOk, from + 1) else v
  }

  /** Names start inside the string table. */
  predicate NamesInRange(elf: Elf) {
    forall i :: 0 <= i < |elf.dynsym| ==> elf.dynsym[i].name <= elf.dynstrSize
  }

  /** Only a symbol with the name can decide the scan. */
  lemma OnlyTheNameDecides(elf: Elf, name: Name, weakOk: bool, n: nat)
    requires n < |elf.dynsym| && NamesInRange(elf)
    ensures SymName(elf, n) != name ==> SymCompare(elf, elf.dynsym[n], name, weakOk) == NoMatch
  {
  }

  /** A stretch of symbols that do not match does not change the scan. */
  lemma {:induction false} ScanSkips(elf: Elf, name: Name, weakOk: bool, from: nat, upto: nat)
    requires from <= upto <= |elf.dynsym|
    requires forall i :: from <= i < upto ==> SymCompare(elf, elf.dynsym[i], name, weakOk) == NoMatch
    ensures Scan(elf, name, weakOk, from) == Scan(elf, name, weakOk, upto)
    decreases upto - from
  {
    if from < upto {
      ScanSkips(elf, name, weakOk, from + 1, upto);
    }
  }

  /** The scan fails exactly when no symbol matches, and otherwise reports one that does. */
  lemma {:induction false} ScanMeans(elf: Elf, name: Name, weakOk: bool, from: nat)
    ensures Scan(elf, name, weakOk, from).NoMatch? <==>
            forall i :: from <= i < |elf.dynsym| ==> SymCompare(elf, elf.dynsym[i], name, weakOk) == NoMatch
    ensures !Scan(elf, name, weakOk, from).NoMatch? ==>
            exists i :: from <= i < |elf.dynsym| && Scan(elf, name, weakOk, from) ==
                SymCompare(elf, elf.dynsym[i], name, weakOk)
    decreases |elf.dynsym| - from
  {
    if from < |elf.dynsym| {
      ScanMeans(elf, name, weakOk, from + 1);
    }
  }

  // ----- The symbols of one tier -----

  predicate InTier(sym: Sym, tier: Tier) {
    match tier
    case Global => sym.bind == STB_GLOBAL
    case Weak => sym.bind == STB_WEAK && sym.shndx != SHN_UNDEF
    case Undefined => sym.bind == STB_WEAK && sym.shndx == SHN_UNDEF
  }

  /** The symbol, made local unless it is of the tier. */
  function OnlySym(sym: Sym, tier: Tier): (s: Sym) {
    if InTier(sym, tier) then sym else sym.(bind := STB_LOCAL)
  }

  /** The ELF with the symbols of one tier only; the others keep their place and their name. */
  function Only(elf: Elf, tier: Tier): (e: Elf)
    ensures |e.dynsym| == |elf.dynsym| && e == elf.(dynsym := e.dynsym)
    ensures forall i :: 0 <= i < |elf.dynsym| ==> e.dynsym[i] == OnlySym(elf.dynsym[i], tier)
  {
    elf.(dynsym := seq(|elf.dynsym|, i requires 0 <= i < |elf.dynsym| => OnlySym(elf.dynsym[i], tier)))
  }

  predicate IsUndefined(v: Verdict) {
    v.Match? && v.tier == Undefined
  }

  /**
   * How the searches for globals, for globals and weak symbols, for defined weak
   * symbols and for undefined ones go together where there is no global.
   */
  predicate Coherent(globals: Verdict, either: Verdict, weak: Verdict, undefined: Verdict) {
    globals.NoMatch? ==>
      if either.NoMatch? then weak.NoMatch? && undefined.NoMatch?
      else if IsUndefined(either) then undefined == either && either.val == 0
      else weak == either
  }

  lemma OneSymbolIsCoherent(elf: Elf, name: Name, n: nat)
    ensures Coherent(CheckFound(elf, name, false, n), CheckFound(elf, name, true, n),
                     CheckFound(Only(elf, Weak), name, true, n), CheckFound(Only(elf, Undefined), name, true, n))
  {
  }
}

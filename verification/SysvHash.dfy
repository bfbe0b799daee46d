/**
 * DT_HASH lookup (System V gABI, chapter 5, "Hash Table"): bounds checks at load
 * time, and chains of symbol indexes walked at lookup time.
 */
module SysvHash {
  import opened ElfSymbols
  import opened Words

  /** One round of elf_hash() on the hash so far. */
  function Round(h: bv32, c: u8): (r: bv32) {
    var shifted := (h << 4) + (c as bv32);
    var g := shifted & 0xf000_0000;
    (if g != 0 then shifted ^ (g >> 24) else shifted) & !g
  }

  function HashBits(name: Name): (h: bv32)
  {
    if name == [] then 0 else Round(HashBits(name[..|name| - 1]), name[|name| - 1])
  }

  lemma RoundClearsTopNibble(h: bv32, c: bv32)
    ensures var shifted := (h << 4) + c;
            var g := shifted & 0xf000_0000;
            (shifted ^ (g >> 24)) & !g & 0xf000_0000 == 0 && shifted & !g & 0xf000_0000 == 0
  {
  }

  /** elf_hash(); the top four bits of the result are clear. */
  method ComputeHash(name: Name) returns (h: bv32)
    ensures h == HashBits(name)
    ensures h & 0xf000_0000 == 0
  {
    h := 0;
    for i := 0 to |name|
      invariant h == HashBits(name[..i])
      invariant h & 0xf000_0000 == 0
    {
      assert name[..i + 1][..i] == name[..i];
      RoundClearsTopNibble(h, name[i] as bv32);
      h := Round(h, name[i]);
    }
    assert name[..|name|] == name;
  }

  function HashOf(name: Name): (h: u32) {
    HashBits(name) as int
  }

  /** The hash of "mainmain", whose last two bytes push bits out at the top. */
  lemma HashOfMainMain()
    ensures HashBits([109, 97, 105, 110, 109, 97, 105, 110]) == 0x080530ce
  {
    var name: Name := [109, 97, 105, 110, 109, 97, 105, 110];
    Main(name, 0, 0, 0x6d, 0x731, 0x7379, 0x737fe);
    Main(name, 4, 0x737fe, 0x73804d, 0x7380531, 0x3805309, 0x80530ce);
    assert name[..8] == name;
  }

  /** Four rounds, for the bytes of "main". */
  lemma Main(name: Name, k: nat, h: bv32, h1: bv32, h2: bv32, h3: bv32, h4: bv32)
    requires k + 4 <= |name| && HashBits(name[..k]) == h
    requires name[k] == 109 && name[k + 1] == 97 && name[k + 2] == 105 && name[k + 3] == 110
    requires Round(h, 109) == h1 && Round(h1, 97) == h2 && Round(h2, 105) == h3 && Round(h3, 110) == h4
    ensures HashBits(name[..k + 4]) == h4
  {
    HashOfPrefix(name, k, h, h1);
    HashOfPrefix(name, k + 1, h1, h2);
    HashOfPrefix(name, k + 2, h2, h3);
    HashOfPrefix(name, k + 3, h3, h4);
  }

  lemma HashOfPrefix(name: Name, k: nat, h: bv32, next: bv32)
    requires k < |name| && HashBits(name[..k]) == h && Round(h, name[k]) == next
    ensures HashBits(name[..k + 1]) == next
  {
    assert name[..k + 1][..k] == name[..k];
  }

  // ----- Bounds checks -----

  /** The loaded ELF: the mapped words from loadAddr to maxAddr, and where DT_HASH points. */
  datatype Image = Image(elf: Elf, mem: seq<u32>, hashAddr: nat) {

    predicate Valid() {
      elf.loadAddr % 4 == 0 && elf.loadAddr + 4 * |mem| == elf.maxAddr
    }

    /** num_words words from hashAddr on lie in the mapped ELF. */
    predicate Covers(words: nat) {
      hashAddr % 4 == 0 && elf.loadAddr <= hashAddr && hashAddr + 4 * words <= elf.maxAddr
    }

    function Word(k: nat): (w: u32)
      requires Valid() && Covers(k + 1)
    {
      mem[(hashAddr - elf.loadAddr) / 4 + k]
    }

    /** Both calls of check_hashtab() have accepted. */
    predicate Accepted() {
      Valid() && Covers(2) && Covers(2 + Word(0) + Word(1))
    }

    function Buckets(): (n: nat) requires Accepted() { Word(0) }

    function Chains(): (n: nat) requires Accepted() { Word(1) }

    function Bucket(b: nat): (n: nat)
      requires Accepted() && b < Buckets()
    {
      Word(2 + b)
    }

    function Next(n: nat): (m: nat)
      requires Accepted() && n < Chains()
    {
      Word(2 + Buckets() + n)
    }

    /** A chain walk stops at index 0 and at indexes that do not exist. */
    predicate AtEnd(n: nat)
      requires Accepted()
    {
      n == 0 || n >= Chains()
    }

    /** The chain from n ends after at most k links. */
    predicate Ends(n: nat, k: nat)
      requires Accepted()
      decreases k
    {
      AtEnd(n) || (k > 0 && Ends(Next(n), k - 1))
    }
  }

  /** An ELF that holds, behind `front`, a table with its parts: counts, buckets and chains. */
  function Laid(elf: Elf, front: seq<u32>, buckets: seq<u32>, chains: seq<u32>, behind: seq<u32>): (img: Image)
    requires |buckets| < WORD && |chains| < WORD
  {
    var mem := front + [|buckets|, |chains|] + buckets + chains + behind;
    Image(elf.(maxAddr := elf.loadAddr + 4 * |mem|), mem, elf.loadAddr + 4 * |front|)
  }

  /** Such a table is accepted, and what the lookup reads of it are its parts. */
  lemma PartsAreRead(elf: Elf, front: seq<u32>, buckets: seq<u32>, chains: seq<u32>, behind: seq<u32>)
    requires |buckets| < WORD && |chains| < WORD && elf.loadAddr % 4 == 0
    ensures var img := Laid(elf, front, buckets, chains, behind);
            && img.Accepted() && img.Buckets() == |buckets| && img.Chains() == |chains|
            && (forall b :: 0 <= b < |buckets| ==> img.Bucket(b) == buckets[b])
            && (forall n :: 0 <= n < |chains| ==> img.Next(n) == chains[n])
  {
    var img := Laid(elf, front, buckets, chains, behind);
    assert (img.hashAddr - img.elf.loadAddr) / 4 == |front|;
    assert img.Word(0) == |buckets| && img.Word(1) == |chains|;
  }

  /** check_hashtab(); SIZE_MAX is the largest size_t. It accepts exactly the tables that are mapped. */
  method CheckHashtab(img: Image, numBuckets: u32, numChains: u32, SIZE_MAX: nat) returns (ok: bool)
    requires img.Valid() && img.elf.maxAddr <= SIZE_MAX && img.hashAddr <= SIZE_MAX && WORD <= SIZE_MAX + 1
    ensures ok <==> img.Covers(2 + numBuckets + numChains)
  {
    if img.hashAddr % 4 != 0 {
      return false;
    }
    var numWords := 2;
    if numWords + numBuckets > SIZE_MAX {
      return false;
    }
    numWords := numWords + numBuckets;
    if numWords + numChains > SIZE_MAX {
      return false;
    }
    numWords := numWords + numChains;
    if numWords * 4 > SIZE_MAX {
      return false;
    }
    var sz := numWords * 4;
    if img.hashAddr < img.elf.loadAddr || img.hashAddr + sz > SIZE_MAX {
      return false;
    }
    ok := img.hashAddr + sz <= img.elf.maxAddr;
  }

  /** save_hashtab(), the DT_HASH part: the table's own counts are read only once they are known to be mapped. */
  method SaveHashtab(img: Image, SIZE_MAX: nat) returns (ok: bool)
    requires img.Valid() && img.elf.maxAddr <= SIZE_MAX && img.hashAddr <= SIZE_MAX && WORD <= SIZE_MAX + 1
    ensures ok <==> img.Accepted()
  {
    ok := CheckHashtab(img, 0, 0, SIZE_MAX);
    if ok {
      ok := CheckHashtab(img, img.Word(0), img.Word(1), SIZE_MAX);
    }
  }

  // ----- Lookup -----

  /** The lookup stops within k links: by a verdict or at the end of the chain. */
  predicate Halts(img: Image, name: Name, weakOk: bool, n: nat, k: nat)
    requires img.Accepted()
    decreases k
  {
    img.AtEnd(n) || !CheckFound(img.elf, name, weakOk, n).NoMatch? ||
        (k > 0 && Halts(img, name, weakOk, img.Next(n), k - 1))
  }

  function Walk(img: Image, name: Name, weakOk: bool, n: nat, k: nat): (v: Verdict)
    requires img.Accepted() && Halts(img, name, weakOk, n, k)
    decreases k
  {
    if n == 0 then NoMatch
    else if n >= img.Chains() then Fatal(BadFormat)
    else
      var v := CheckFound(img.elf, name, weakOk, n);
      if !v.NoMatch? then v else Walk(img, name, weakOk, img.Next(n), k - 1)
  }

  /**
   * resolve_sym_helper(), the DT_HASH half. Every read is inside the accepted
   * table. `bound` witnesses that the chain does not run in a circle.
   */
  method Resolve(img: Image, name: Name, weakOk: bool, ghost bound: nat) returns (v: Verdict)
    requires img.Accepted() && img.Buckets() > 0
    requires Halts(img, name, weakOk, img.Bucket(HashOf(name) % img.Buckets()), bound)
    ensures v == Walk(img, name, weakOk, img.Bucket(HashOf(name) % img.Buckets()), bound)
  {
    var bits := ComputeHash(name);
    var hash: u32 := bits as int;
    var n: nat := img.Bucket(hash % img.Buckets());
    ghost var k := bound;
    while n != 0
      invariant Halts(img, name, weakOk, n, k)
      invariant Walk(img, name, weakOk, n, k) == Walk(img, name, weakOk, img.Bucket(HashOf(name) % img.Buckets()),
                bound)
      decreases k
    {
      if n >= img.Chains() {
        return Fatal(BadFormat);
      }
      v := CheckFound(img.elf, name, weakOk, n);
      if !v.NoMatch? {
        return;
      }
      n := img.Next(n);
      k := k - 1;
    }
    v := NoMatch;
  }

  // ----- What ends, ends soon -----

  /** From n, the end of the chain or an index at which to stop is met within k links. */
  ghost predicate Until(img: Image, stop: nat -> bool, n: nat, k: nat)
    requires img.Accepted()
    decreases k
  {
    img.AtEnd(n) || stop(n) || (k > 0 && Until(img, stop, img.Next(n), k - 1))
  }

  /** The k-th index on the way from n. */
  ghost function Hop(img: Image, stop: nat -> bool, n: nat, k: nat): (m: nat)
    requires img.Accepted() && (k == 0 || !Until(img, stop, n, k - 1))
    decreases k
  {
    if k == 0 then n else Hop(img, stop, img.Next(n), k - 1)
  }

  lemma {:induction false} UntilAtHop(img: Image, stop: nat -> bool, n: nat, j: nat, k: nat)
    requires img.Accepted() && (j == 0 || !Until(img, stop, n, j - 1))
    ensures Until(img, stop, n, j + k) <==> Until(img, stop, Hop(img, stop, n, j), k)
    decreases j
  {
    if j > 0 {
      UntilAtHop(img, stop, img.Next(n), j - 1, k);
    }
  }

  lemma {:induction false} UntilIsMonotone(img: Image, stop: nat -> bool, n: nat, j: nat, k: nat)
    requires img.Accepted() && j <= k && Until(img, stop, n, j)
    ensures Until(img, stop, n, k)
    decreases j
  {
    if !img.AtEnd(n) && !stop(n) {
      UntilIsMonotone(img, stop, img.Next(n), j - 1, k - 1);
    }
  }

  /** Indexes visited on the way are distinct. */
  lemma HopsDiffer(img: Image, stop: nat -> bool, n: nat, last: nat, i: nat, j: nat)
    requires img.Accepted() && Until(img, stop, n, last) && i < j <= last
    requires forall k :: 0 <= k < last ==> !Until(img, stop, n, k)
    ensures Hop(img, stop, n, i) != Hop(img, stop, n, j)
  {
    UntilAtHop(img, stop, n, j, last - j);
    UntilAtHop(img, stop, n, i, last - j);
  }

  lemma {:induction false} DistinctBelow(s: seq<nat>, n: nat)
    requires forall i :: 0 <= i < |s| ==> s[i] < n
    requires forall i, j :: 0 <= i < j < |s| ==> s[i] != s[j]
    ensures |s| <= n
    decreases n
  {
    if s != [] {
      assert s[0] < n;
      if exists i :: 0 <= i < |s| && s[i] == n - 1 {
        var i :| 0 <= i < |s| && s[i] == n - 1;
        DistinctBelow(s[..i] + s[i + 1..], n - 1);
      } else {
        DistinctBelow(s, n - 1);
      }
    }
  }

  /** What is met at all is met within nchains links. */
  lemma SoonOrNever(img: Image, stop: nat -> bool, n: nat, k: nat)
    requires img.Accepted() && Until(img, stop, n, k)
    ensures Until(img, stop, n, img.Chains())
  {
    var last := 0;
    while !Until(img, stop, n, last)
      invariant last <= k
      invariant forall j :: 0 <= j < last ==> !Until(img, stop, n, j)
      decreases k - last
    {
      last := last + 1;
    }
    var visited: seq<nat> := seq(last, i requires 0 <= i < last => Hop(img, stop, n, i));
    forall i | 0 <= i < last ensures visited[i] < img.Chains() {
      UntilAtHop(img, stop, n, i, 0);
    }
    forall i, j | 0 <= i < j < last ensures visited[i] != visited[j] {
      HopsDiffer(img, stop, n, last, i, j);
    }
    DistinctBelow(visited, img.Chains());
    UntilIsMonotone(img, stop, n, last, img.Chains());
  }

  lemma {:induction false} EndsIsUntil(img: Image, stop: nat -> bool, n: nat, k: nat)
    requires img.Accepted() && forall m :: !stop(m)
    ensures img.Ends(n, k) <==> Until(img, stop, n, k)
    decreases k
  {
    if !img.AtEnd(n) && k > 0 {
      EndsIsUntil(img, stop, img.Next(n), k - 1);
    }
  }

  lemma {:induction false} HaltsIsUntil(img: Image, name: Name, weakOk: bool, stop: nat -> bool, n: nat, k: nat)
    requires img.Accepted() && forall m :: stop(m) == !CheckFound(img.elf, name, weakOk, m).NoMatch?
    ensures Halts(img, name, weakOk, n, k) <==> Until(img, stop, n, k)
    decreases k
  {
    if !img.AtEnd(n) && !stop(n) && k > 0 {
      HaltsIsUntil(img, name, weakOk, stop, img.Next(n), k - 1);
    }
  }

  /** A chain either ends within nchains links or never: the bound in Acyclic loses nothing. */
  lemma ChainsEndSoonOrNever(img: Image, n: nat, k: nat)
    requires img.Accepted() && img.Ends(n, k)
    ensures img.Ends(n, img.Chains())
  {
    var stop: nat -> bool := (m: nat) => false;
    EndsIsUntil(img, stop, n, k);
    SoonOrNever(img, stop, n, k);
    EndsIsUntil(img, stop, n, img.Chains());
  }

  /** A lookup either ends within nchains links or never. */
  lemma LookupEndsSoonOrNever(img: Image, name: Name, weakOk: bool, n: nat, k: nat)
    requires img.Accepted() && Halts(img, name, weakOk, n, k)
    ensures Halts(img, name, weakOk, n, img.Chains())
  {
    var stop: nat -> bool := (m: nat) => !CheckFound(img.elf, name, weakOk, m).NoMatch?;
    HaltsIsUntil(img, name, weakOk, stop, n, k);
    SoonOrNever(img, stop, n, k);
    HaltsIsUntil(img, name, weakOk, stop, n, img.Chains());
  }

  /** An accepted table with one bucket, whose chain is symbol 1 over and over. */
  const CIRCLE := Image(Elf(0, 20, [Sym(0, 0, 0, 0, 0), Sym(0, 0, 0, 0, 0)], [0], 1), [1, 2, 1, 0, 1], 0)

  lemma CircleIsAccepted()
    ensures CIRCLE.Accepted() && CIRCLE.Buckets() == 1 && CIRCLE.Chains() == 2 && CIRCLE.Bucket(0) == 1 &&
            CIRCLE.Next(1) == 1
  {
    assert CIRCLE.Covers(2);
    assert CIRCLE.Word(0) == 1 && CIRCLE.Word(1) == 2;
  }

  /** No lookup in it ends. */
  lemma {:induction false} CircleNeverEnds(name: Name, weakOk: bool, k: nat)
    ensures CIRCLE.Accepted() && CIRCLE.Buckets() == 1
    ensures !Halts(CIRCLE, name, weakOk, CIRCLE.Bucket(HashOf(name) % CIRCLE.Buckets()), k)
  {
    CircleIsAccepted();
    assert HashOf(name) % 1 == 0;
    OneNeverEnds(name, weakOk, k);
  }

  lemma {:induction false} OneNeverEnds(name: Name, weakOk: bool, k: nat)
    ensures CIRCLE.Accepted() && !Halts(CIRCLE, name, weakOk, 1, k)
  {
    CircleIsAccepted();
    if k > 0 {
      OneNeverEnds(name, weakOk, k - 1);
    }
  }

  // ----- Agreement with the scan -----

  predicate Acyclic(img: Image)
    requires img.Accepted()
  {
    forall b :: 0 <= b < img.Buckets() ==> img.Ends(img.Bucket(b), img.Chains())
  }

  /** Index m is met on the chain from n within k links. */
  predicate OnChain(img: Image, n: nat, m: nat, k: nat)
    requires img.Accepted()
    decreases k
  {
    !img.AtEnd(n) && (n == m || (k > 0 && OnChain(img, img.Next(n), m, k - 1)))
  }

  /** The chain consists of existing symbols up to its end marker 0. */
  predicate Closed(img: Image, n: nat, k: nat)
    requires img.Accepted()
    decreases k
  {
    n == 0 || (n < img.Chains() && (k > 0 ==> Closed(img, img.Next(n), k - 1)))
  }

  /** One chain entry per symbol, every symbol on the chain of its hash, no index out of range. */
  predicate Complete(img: Image)
    requires img.Accepted()
  {
    && img.Buckets() > 0 && img.Chains() == |img.elf.dynsym| && NamesInRange(img.elf)
    && (forall n :: 0 < n < |img.elf.dynsym| ==>
         OnChain(img, img.Bucket(HashOf(SymName(img.elf, n)) % img.Buckets()), n, img.Chains()))
    && (forall b :: 0 <= b < img.Buckets() ==> Closed(img, img.Bucket(b), img.Chains()))
  }

  lemma {:induction false} EndsHalts(img: Image, name: Name, weakOk: bool, n: nat, k: nat)
    requires img.Accepted() && img.Ends(n, k)
    ensures Halts(img, name, weakOk, n, k)
    decreases k
  {
    if !img.AtEnd(n) {
      EndsHalts(img, name, weakOk, img.Next(n), k - 1);
    }
  }

  /** The verdict of the walk is that of a symbol of the chain; a failed walk has tried them all. */
  lemma {:induction false} WalkMeans(img: Image, name: Name, weakOk: bool, n: nat, k: nat)
    requires img.Accepted() && img.Ends(n, k) && Closed(img, n, k) && img.Chains() == |img.elf.dynsym|
    ensures Halts(img, name, weakOk, n, k)
    ensures var v := Walk(img, name, weakOk, n, k);
            if v.NoMatch? then forall m: nat, j: nat :: j <= k && OnChain(img, n, m, j) ==>
                CheckFound(img.elf, name, weakOk, m).NoMatch?
            else exists m :: 0 < m < |img.elf.dynsym| && v == SymCompare(img.elf, img.elf.dynsym[m], name, weakOk)
    decreases k
  {
    EndsHalts(img, name, weakOk, n, k);
    if !img.AtEnd(n) && CheckFound(img.elf, name, weakOk, n).NoMatch? {
      WalkMeans(img, name, weakOk, img.Next(n), k - 1);
    } else if !img.AtEnd(n) {
      assert Walk(img, name, weakOk, n, k) == SymCompare(img.elf, img.elf.dynsym[n], name, weakOk);
    }
  }

  /**
   * On a complete table with acyclic chains the lookup ends, fails exactly when
   * the scan of the symbols from index 1 fails, and otherwise reports the verdict
   * of one of the symbols with that name; so it succeeds exactly when the scan
   * does, unless a symbol of that name is one that err() rejects.
   */
  lemma LookupFailsLikeScan(img: Image, name: Name, weakOk: bool)
    requires img.Accepted() && Complete(img) && Acyclic(img)
    ensures var first := img.Bucket(HashOf(name) % img.Buckets());
            && Halts(img, name, weakOk, first, img.Chains())
            && var v := Walk(img, name, weakOk, first, img.Chains());
            && (v.NoMatch? <==> Scan(img.elf, name, weakOk, 1).NoMatch?)
            && (!v.NoMatch? ==>
                 exists m :: 0 < m < |img.elf.dynsym| && v == SymCompare(img.elf, img.elf.dynsym[m], name, weakOk))
            && ((forall m :: 0 < m < |img.elf.dynsym| ==>
                   !SymCompare(img.elf, img.elf.dynsym[m], name, weakOk).Fatal?) ==>
                 (v.Match? <==> Scan(img.elf, name, weakOk, 1).Match?))
  {
    var first := img.Bucket(HashOf(name) % img.Buckets());
    WalkMeans(img, name, weakOk, first, img.Chains());
    var v := Walk(img, name, weakOk, first, img.Chains());
    ScanMeans(img.elf, name, weakOk, 1);
    if v.NoMatch? {
      forall i | 1 <= i < |img.elf.dynsym| ensures SymCompare(img.elf, img.elf.dynsym[i], name, weakOk) == NoMatch {
        OnlyTheNameDecides(img.elf, name, weakOk, i);
        if SymName(img.elf, i) == name {
          assert OnChain(img, first, i, img.Chains());
        }
      }
    }
  }

  /** Whatever the table, a hit is the verdict of a symbol. */
  lemma {:induction false} WalkIsSound(img: Image, name: Name, weakOk: bool, n: nat, k: nat)
    requires img.Accepted() && Halts(img, name, weakOk, n, k) && Walk(img, name, weakOk, n, k).Match?
    ensures exists m :: 0 <= m < |img.elf.dynsym| &&
              Walk(img, name, weakOk, n, k) == SymCompare(img.elf, img.elf.dynsym[m], name, weakOk)
    decreases k
  {
    if n < img.Chains() {
      var v := CheckFound(img.elf, name, weakOk, n);
      if v.NoMatch? {
        WalkIsSound(img, name, weakOk, img.Next(n), k - 1);
      } else {
        assert v == SymCompare(img.elf, img.elf.dynsym[n], name, weakOk);
      }
    }
  }

  // ----- The symbols of one tier -----

  function OnlyImage(img: Image, tier: Tier): (r: Image) {
    img.(elf := Only(img.elf, tier))
  }

  lemma {:induction false} OnlyEnds(img: Image, tier: Tier, n: nat, k: nat)
    requires img.Accepted() && img.Ends(n, k)
    ensures OnlyImage(img, tier).Accepted() && OnlyImage(img, tier).Ends(n, k)
    decreases k
  {
    var o := OnlyImage(img, tier);
    assert o.Accepted() && o.Chains() == img.Chains() && o.Buckets() == img.Buckets();
    if !img.AtEnd(n) {
      assert o.Next(n) == img.Next(n);
      OnlyEnds(img, tier, img.Next(n), k - 1);
    }
  }

  lemma OnlyIsAcyclic(img: Image, tier: Tier)
    requires img.Accepted() && Acyclic(img)
    ensures var o := OnlyImage(img, tier);
            o.Accepted() && o.Buckets() == img.Buckets() && o.Chains() == img.Chains() && Acyclic(o)
  {
    var o := OnlyImage(img, tier);
    assert o.Accepted() && o.Chains() == img.Chains() && o.Buckets() == img.Buckets();
    forall b | 0 <= b < o.Buckets() ensures o.Ends(o.Bucket(b), o.Chains()) {
      assert o.Bucket(b) == img.Bucket(b);
      OnlyEnds(img, tier, img.Bucket(b), img.Chains());
    }
  }

  lemma {:induction false} OnlyKeepsChains(img: Image, tier: Tier, n: nat, m: nat, k: nat)
    requires img.Accepted()
    ensures OnlyImage(img, tier).Accepted()
    ensures OnChain(img, n, m, k) ==> OnChain(OnlyImage(img, tier), n, m, k)
    ensures Closed(img, n, k) ==> Closed(OnlyImage(img, tier), n, k)
    decreases k
  {
    var o := OnlyImage(img, tier);
    assert o.Accepted() && o.Chains() == img.Chains() && o.Buckets() == img.Buckets();
    if !img.AtEnd(n) && k > 0 {
      assert o.Next(n) == img.Next(n);
      OnlyKeepsChains(img, tier, img.Next(n), m, k - 1);
    }
  }

  lemma OnlyIsComplete(img: Image, tier: Tier)
    requires img.Accepted() && Complete(img)
    ensures OnlyImage(img, tier).Accepted() && Complete(OnlyImage(img, tier))
  {
    var o := OnlyImage(img, tier);
    assert o.Accepted() && o.Chains() == img.Chains() && o.Buckets() == img.Buckets();
    forall n | 0 < n < |o.elf.dynsym|
      ensures OnChain(o, o.Bucket(HashOf(SymName(o.elf, n)) % o.Buckets()), n, o.Chains())
    {
      var b := HashOf(SymName(img.elf, n)) % img.Buckets();
      assert o.Bucket(b) == img.Bucket(b);
      OnlyKeepsChains(img, tier, img.Bucket(b), n, img.Chains());
    }
    forall b | 0 <= b < o.Buckets() ensures Closed(o, o.Bucket(b), o.Chains()) {
      assert o.Bucket(b) == img.Bucket(b);
      OnlyKeepsChains(img, tier, img.Bucket(b), 0, img.Chains());
    }
  }

  /** The walk of the lookup, on chains that end. */
  function Verdicts(img: Image, name: Name, weakOk: bool, n: nat, k: nat): (v: Verdict)
    requires img.Accepted() && img.Ends(n, k)
  {
    EndsHalts(img, name, weakOk, n, k);
    Walk(img, name, weakOk, n, k)
  }

  /** The four searches go together along every chain. */
  lemma {:induction false} WalksAreCoherent(img: Image, name: Name, n: nat, k: nat)
    requires img.Accepted() && img.Ends(n, k)
    ensures OnlyImage(img, Weak).Accepted() && OnlyImage(img, Weak).Ends(n, k)
    ensures OnlyImage(img, Undefined).Accepted() && OnlyImage(img, Undefined).Ends(n, k)
    ensures Coherent(Verdicts(img, name, false, n, k), Verdicts(img, name, true, n, k),
                     Verdicts(OnlyImage(img, Weak), name, true, n, k),
                         Verdicts(OnlyImage(img, Undefined), name, true, n, k))
    decreases k
  {
    OnlyEnds(img, Weak, n, k);
    OnlyEnds(img, Undefined, n, k);
    var w, u := OnlyImage(img, Weak), OnlyImage(img, Undefined);
    assert w.Chains() == img.Chains() == u.Chains() && w.Buckets() == img.Buckets() == u.Buckets();
    if !img.AtEnd(n) {
      assert w.Next(n) == img.Next(n) == u.Next(n);
      OneSymbolIsCoherent(img.elf, name, n);
      WalksAreCoherent(img, name, img.Next(n), k - 1);
    }
  }
}

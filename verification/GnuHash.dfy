/**
 * DT_GNU_HASH lookup: a Bloom filter, buckets, and chains of hash values whose
 * low bit ends a chain. The lookup is proved to return what the scan of the
 * symbol table returns, on every table that is laid out as a linker does it.
 */
module GnuHash {
  import opened ElfSymbols
  import opened Words

  /** h * 33 + c for every byte, starting from 5381, in 32 bits. */
  function HashOf(name: Name): (h: u32)
  {
    if name == [] then 5381 else (33 * HashOf(name[..|name| - 1]) + name[|name| - 1]) % WORD
  }

  lemma ShiftAndAdd(h: u32, c: u8)
    ensures (h * 32 % WORD + h + c) % WORD == (33 * h + c) % WORD
  {
    var q := h * 32 / WORD;
    assert h * 32 == WORD * q + h * 32 % WORD;
    assert 33 * h + c == WORD * q + (h * 32 % WORD + h + c);
  }

  /** gnu_hash(), which multiplies by shifting and adding. */
  method ComputeHash(name: Name) returns (h: u32)
    ensures h == HashOf(name)
  {
    h := 5381;
    for i := 0 to |name|
      invariant h == HashOf(name[..i])
    {
      assert name[..i + 1][..i] == name[..i];
      ShiftAndAdd(h, name[i]);
      h := (h * 32 % WORD + h + name[i]) % WORD;
    }
    assert name[..|name|] == name;
  }

  /** x | 1 */
  function Odd(x: u32): (r: u32)
    ensures r == x || r == x + 1
    ensures r % 2 == 1
  {
    x - x % 2 + 1
  }

  function Pow2(n: nat): (p: nat)
    ensures p > 0
  {
    if n == 0 then 1 else 2 * Pow2(n - 1)
  }

  /** Bit n of a word: (word >> n) & 1. */
  predicate Bit(word: nat, n: nat) {
    word / Pow2(n) % 2 == 1
  }

  lemma StretchInside(n: nat, k: nat, bits: nat)
    requires k < n
    ensures bits * k + bits <= bits * n
  {
    assert bits * (k + 1) <= bits * n;
  }

  /**
   * The table as it lies in memory. `mem` holds the mapped 32-bit words from the
   * start of the table, `size` is the section size in bytes.
   */
  datatype Table = Table(is32bit: bool, mem: seq<u32>, size: nat) {

    predicate HasHeader() { 4 <= |mem| }

    function Buckets(): (n: nat) requires HasHeader() { mem[0] }

    function SymOffset(): (n: nat) requires HasHeader() { mem[1] }

    function BloomSize(): (n: nat) requires HasHeader() { mem[2] }

    function BloomShift(): (n: nat) requires HasHeader() { mem[3] }

    function BloomWords(): (n: nat) requires HasHeader() { if is32bit then BloomSize() else 2 * BloomSize() }

    function BucketAt(): (n: nat) requires HasHeader() { 4 + BloomWords() }

    function ChainAt(): (n: nat) requires HasHeader() { BucketAt() + Buckets() }

    /**
     * What the lookup needs to run: no division by zero, no oversized shift, the
     * filter and the buckets inside the section, the section mapped up to and
     * including the word at its end.
     */
    predicate Usable() {
      && HasHeader() && Buckets() > 0 && BloomSize() > 0 && BloomShift() < 32
      && 4 * ChainAt() <= size && size / 4 < |mem| && size / 4 < WORD
    }

    function Bucket(b: nat): (n: nat)
      requires Usable() && b < Buckets()
    {
      mem[BucketAt() + b]
    }

    /** The bounds test before a chain entry is read. */
    predicate InSection(idx: nat)
      requires HasHeader()
    {
      4 * (ChainAt() + idx) <= size
    }

    function Chain(idx: nat): (h: u32)
      requires Usable() && InSection(idx)
    {
      mem[ChainAt() + idx]
    }

    /** (word & mask) == mask: both bits of the hash are set in its filter word. */
    predicate Admits(hash: u32)
      requires Usable()
    {
      var bits := if is32bit then 32 else 64;
      var word := FilterWord(hash / bits % BloomSize());
      Bit(word, hash % bits) && Bit(word, hash / Pow2(BloomShift()) % bits)
    }

    /** The filter as linkers see it, an array of bits in words of 32. */
    predicate FilterBit(i: nat)
      requires Usable() && i < 32 * BloomWords()
    {
      Bit(mem[4 + i / 32], i % 32)
    }

    /**
     * The filter has the hash: in the stretch of 32 or 64 bits that hash / 32 or hash / 64
     * selects, the bits of the hash and of the shifted hash are set.
     */
    predicate InFilter(hash: u32)
      requires Usable()
    {
      var bits := if is32bit then 32 else 64;
      var from := bits * (hash / bits % BloomSize());
      StretchInside(BloomSize(), hash / bits % BloomSize(), bits);
      FilterBit(from + hash % bits) && FilterBit(from + hash / Pow2(BloomShift()) % bits)
    }

    /** A 64-bit filter word lies low word first. */
    function FilterWord(k: nat): (w: nat)
      requires Usable() && k < BloomSize()
    {
      if is32bit then mem[4 + k] else mem[4 + 2 * k] + WORD * mem[4 + 2 * k + 1]
    }
  }

  /** What check_gnu_hashtab() lets through; twice the filter size is taken in 32 bits. */
  predicate Checked(t: Table, addr: nat)
    requires t.size >= 16 ==> t.HasHeader()
  {
    addr % 4 == 0 && t.size >= 16 &&
    4 * (4 + t.Buckets() + (if t.is32bit then t.BloomSize() else 2 * t.BloomSize() % WORD)) <= t.size
  }

  /** check_gnu_hashtab() of a table at `addr`; `SIZE_MAX` is the largest size_t. */
  method CheckTable(t: Table, addr: nat, SIZE_MAX: nat) returns (ok: bool)
    requires t.size <= SIZE_MAX && WORD <= SIZE_MAX + 1
    requires t.size >= 16 ==> t.HasHeader()
    ensures ok <==> Checked(t, addr)
  {
    if addr % 4 != 0 {
      return false;
    }
    if t.size < 16 {
      return false;
    }
    var numWords := 4;
    var bloomWords := if t.is32bit then t.BloomSize() else 2 * t.BloomSize() % WORD;
    if numWords + t.Buckets() > SIZE_MAX {
      return false;
    }
    numWords := numWords + t.Buckets();
    if numWords + bloomWords > SIZE_MAX {
      return false;
    }
    numWords := numWords + bloomWords;
    if numWords * 4 > SIZE_MAX || numWords * 4 > t.size {
      return false;
    }
    ok := true;
  }

  /**
   * The chains of a table that was let through start inside it exactly when twice
   * the filter size does not wrap around, or the table is so large that the whole
   * filter has room in it.
   */
  lemma ChainsStartInsideIff(t: Table, addr: nat)
    requires t.size >= 16 && t.HasHeader() && Checked(t, addr)
    ensures 4 * t.ChainAt() <= t.size <==>
            t.is32bit || t.BloomSize() < WORD / 2 || t.size >= 4 * (4 + t.Buckets() + 2 * t.BloomSize())
    ensures t.size < 4 * WORD ==> (4 * t.ChainAt() <= t.size <==> t.is32bit || t.BloomSize() < WORD / 2)
  {
    if !t.is32bit && t.BloomSize() >= WORD / 2 {
      assert 2 * t.BloomSize() >= WORD;
    }
  }

  /** A 64-bit table of 20 bytes with a filter of 2^31 words is let through. */
  lemma FilterSizeWraps()
    ensures var t := Table(false, [1, 1, WORD / 2, 0, 1, 1], 20);
            Checked(t, 0) && 4 * t.ChainAt() > t.size && !t.Usable()
  {
    var t := Table(false, [1, 1, WORD / 2, 0, 1, 1], 20);
    assert t.Buckets() == 1 && t.BloomSize() == WORD / 2;
    assert 2 * t.BloomSize() == WORD;
    assert 2 * t.BloomSize() % WORD == 0;
  }

  // ----- The filter, bit by bit -----

  lemma {:induction false} Pow2Add(a: nat, b: nat)
    ensures Pow2(a + b) == Pow2(a) * Pow2(b)
  {
    if b > 0 {
      Pow2Add(a, b - 1);
      assert Pow2(a + b) == 2 * (Pow2(a) * Pow2(b - 1));
    }
  }

  lemma Pow2Word()
    ensures Pow2(32) == WORD
  {
    assert Pow2(4) == 16;
    Pow2Add(4, 4);
    Pow2Add(8, 8);
    Pow2Add(16, 16);
  }

  lemma MulOrder(m: nat, a: nat, b: nat)
    requires a <= b
    ensures m * a <= m * b
  {
  }

  lemma Quotient(x: nat, m: nat, q: nat, r: nat)
    requires m > 0 && x == m * q + r && r < m
    ensures x / m == q
  {
    var d := x / m;
    if d > q {
      MulOrder(m, q + 1, d);
    } else if d < q {
      MulOrder(m, d + 1, q);
    }
  }

  lemma DivSum(x: nat, m: nat, k: nat)
    requires m > 0
    ensures (x + m * k) / m == x / m + k
  {
    Quotient(x + m * k, m, x / m + k, x % m);
  }

  lemma Assoc(a: nat, b: nat, c: nat)
    ensures a * (b * c) == a * b * c
  {
  }

  lemma Regroup(a: nat, b: nat, m: nat, q: nat, r: nat, s: nat)
    requires m == a * b && r < b && s < a
    ensures a * (b * q + r) + s == m * q + (a * r + s) && a * r + s < m
  {
    MulOrder(a, r + 1, b);
    Assoc(a, b, q);
  }

  lemma Euclid(x: nat, m: nat)
    requires m > 0
    ensures x == m * (x / m) + x % m && x % m < m
  {
  }

  lemma QuotientTwice(x: nat, a: nat, b: nat, m: nat, q: nat, r: nat, q2: nat, r2: nat)
    requires m == a * b && m > 0 && x == a * q + r && r < a && q == b * q2 + r2 && r2 < b
    ensures x / m == q2
  {
    Regroup(a, b, m, q2, r2, r);
    Quotient(x, m, q2, a * r2 + r);
  }

  lemma DivDiv(x: nat, a: nat, b: nat, m: nat)
    requires a > 0 && b > 0 && m == a * b && m > 0
    ensures x / a / b == x / m
  {
    Euclid(x, a);
    Euclid(x / a, b);
    QuotientTwice(x, a, b, m, x / a, x % a, x / a / b, x / a % b);
  }

  lemma LowBit(low: nat, high: nat, p: nat, rest: nat)
    requires p > 0 && WORD == p * (2 * rest)
    ensures (low + WORD * high) / p % 2 == low / p % 2
  {
    Assoc(p, 2 * rest, high);
    Assoc(2, rest, high);
    var k := rest * high;
    DivSum(low, p, 2 * k);
    TwiceMore(low / p, k);
  }

  lemma TwiceMore(x: nat, k: nat)
    ensures (x + 2 * k) % 2 == x % 2
  {
  }

  lemma HighBit(low: u32, high: nat, p: nat)
    requires p > 0
    ensures (low + WORD * high) / (WORD * p) == high / p
  {
    DivDiv(low + WORD * high, WORD, p, WORD * p);
    DivSum(low, WORD, high);
  }

  /** A bit of a double word is a bit of its low or of its high word. */
  lemma DoubleWordBit(low: u32, high: u32, n: nat)
    requires n < 64
    ensures Bit(low + WORD * high, n) <==> if n < 32 then Bit(low, n) else Bit(high, n - 32)
  {
    Pow2Word();
    if n < 32 {
      Pow2Add(n, 32 - n);
      LowBit(low, high, Pow2(n), Pow2(31 - n));
    } else {
      Pow2Add(32, n - 32);
      HighBit(low, high, Pow2(n - 32));
    }
  }

  lemma WordOfBit(k: nat, n: nat)
    ensures n < 32 ==> (32 * k + n) / 32 == k && (32 * k + n) % 32 == n
    ensures n < 64 ==> (64 * k + n) / 32 == 2 * k + n / 32 && (64 * k + n) % 32 == n % 32
  {
  }

  lemma FilterBitIs(t: Table, k: nat, n: nat)
    requires t.Usable() && k < t.BloomSize() && n < (if t.is32bit then 32 else 64)
    ensures var i := (if t.is32bit then 32 else 64) * k + n;
            i < 32 * t.BloomWords() && (t.FilterBit(i) <==> Bit(t.FilterWord(k), n))
  {
    WordOfBit(k, n);
    if !t.is32bit {
      DoubleWordBit(t.mem[4 + 2 * k], t.mem[4 + 2 * k + 1], n);
    }
  }

  /** The test of the code is that the filter has the hash. */
  lemma AdmitsIff(t: Table, hash: u32)
    requires t.Usable()
    ensures t.Admits(hash) <==> t.InFilter(hash)
  {
    var bits := if t.is32bit then 32 else 64;
    var k := hash / bits % t.BloomSize();
    FilterBitIs(t, k, hash % bits);
    FilterBitIs(t, k, hash / Pow2(t.BloomShift()) % bits);
  }

  /** The chain walk from chain entry `idx` on; the symbol index wraps at 32 bits. */
  function Walk(t: Table, elf: Elf, name: Name, weakOk: bool, hash: u32, idx: nat): (v: Verdict)
    requires t.Usable()
    decreases t.size - idx
  {
    if !t.InSection(idx) then NoMatch
    else
      var h := t.Chain(idx);
      var v := if Odd(h) == Odd(hash) then CheckFound(elf, name, weakOk, (t.SymOffset() + idx) % WORD) else NoMatch;
      if !v.NoMatch? then v
      else if h % 2 == 1 then NoMatch
      else Walk(t, elf, name, weakOk, hash, idx + 1)
  }

  function Lookup(t: Table, elf: Elf, name: Name, weakOk: bool): (v: Verdict)
    requires t.Usable()
  {
    var hash := HashOf(name);
    var first := t.Bucket(hash % t.Buckets());
    if !t.Admits(hash) || first < t.SymOffset() then NoMatch
    else Walk(t, elf, name, weakOk, hash, first - t.SymOffset())
  }

  /** The 32-bit symbol index and the chain index advance together. */
  lemma IndexStep(offset: u32, idx: nat)
    requires idx + 1 < WORD
    ensures var n := ((offset + idx) % WORD + 1) % WORD;
            n == (offset + idx + 1) % WORD && (n - offset) % WORD == idx + 1
  {
  }

  /** The do-while loop of resolve_sym_helper(). It ends on every usable table. */
  method WalkChain(t: Table, elf: Elf, name: Name, weakOk: bool, hash: u32, first: u32) returns (v: Verdict)
    requires t.Usable() && t.SymOffset() <= first
    ensures v == Walk(t, elf, name, weakOk, hash, first - t.SymOffset())
  {
    var wanted := Odd(hash);
    var n: u32 := first;
    var idx: nat := n - t.SymOffset();
    while true
      invariant n == (t.SymOffset() + idx) % WORD && idx < WORD
      invariant Walk(t, elf, name, weakOk, hash, first - t.SymOffset()) == Walk(t, elf, name, weakOk, hash, idx)
      decreases t.size - idx
    {
      if !t.InSection(idx) {
        return NoMatch;
      }
      var hashval := t.Chain(idx);
      if Odd(hashval) == wanted {
        v := CheckFound(elf, name, weakOk, n);
        if !v.NoMatch? {
          return;
        }
      }
      if hashval % 2 != 0 {
        return NoMatch;
      }
      IndexStep(t.SymOffset(), idx);
      n := (n + 1) % WORD;
      idx := (n - t.SymOffset()) % WORD;
    }
  }

  /** resolve_sym_helper(), the DT_GNU_HASH half. */
  method Resolve(t: Table, elf: Elf, name: Name, weakOk: bool) returns (v: Verdict)
    requires t.Usable()
    ensures v == Lookup(t, elf, name, weakOk)
  {
    var hash := ComputeHash(name);
    if !t.Admits(hash) {
      return NoMatch;
    }
    var n := t.Bucket(hash % t.Buckets());
    if n < t.SymOffset() {
      return NoMatch;
    }
    v := WalkChain(t, elf, name, weakOk, hash, n);
  }

  // ----- Tables as linkers lay them out -----

  /** A table, part by part: header, filter, buckets, chains, and what is mapped behind them. */
  function Laid(is32bit: bool, symOffset: u32, shift: u32, filter: seq<u32>, buckets: seq<u32>, chains: seq<u32>,
                behind: seq<u32>): (t: Table)
    requires |buckets| < WORD && |filter| < WORD && (is32bit || |filter| % 2 == 0)
  {
    var header := [|buckets|, symOffset, if is32bit then |filter| else |filter| / 2, shift];
    var words := header + filter + buckets + chains;
    Table(is32bit, words + behind, 4 * |words|)
  }

  /** What the lookup reads of such a table are its parts. */
  lemma PartsAreRead(is32bit: bool, symOffset: u32, shift: u32, filter: seq<u32>, buckets: seq<u32>, chains: seq<u32>,
                     behind: seq<u32>)
    requires |buckets| < WORD && |filter| < WORD && (is32bit || |filter| % 2 == 0)
    requires buckets != [] && filter != [] && shift < 32 && behind != []
    requires 4 + |filter| + |buckets| + |chains| < WORD
    ensures var t := Laid(is32bit, symOffset, shift, filter, buckets, chains, behind);
            && t.Usable() && t.Buckets() == |buckets| && t.SymOffset() == symOffset && t.BloomShift() == shift
            && t.BloomWords() == |filter|
            && (forall b :: 0 <= b < |buckets| ==> t.Bucket(b) == buckets[b])
            && (forall i :: 0 <= i < |chains| ==> t.InSection(i) && t.Chain(i) == chains[i])
            && (forall i :: 0 <= i < 32 * |filter| ==> (t.FilterBit(i) <==> Bit(filter[i / 32], i % 32)))
  {
    var t := Laid(is32bit, symOffset, shift, filter, buckets, chains, behind);
    forall i | 0 <= i < |filter| ensures t.mem[4 + i] == filter[i] {
    }
  }

  function BucketOf(t: Table, elf: Elf, n: nat): (b: nat)
    requires t.Usable() && n < |elf.dynsym|
    ensures b < t.Buckets()
  {
    HashOf(SymName(elf, n)) % t.Buckets()
  }

  /** Chain entry of symbol n: its hash, the low bit set exactly at the end of its run. */
  predicate ChainEntryOk(t: Table, elf: Elf, n: nat)
    requires t.Usable() && t.SymOffset() <= n < |elf.dynsym|
  {
    var idx := n - t.SymOffset();
    && t.InSection(idx)
    && Odd(t.Chain(idx)) == Odd(HashOf(SymName(elf, n)))
    && (t.Chain(idx) % 2 == 1 <==> n + 1 == |elf.dynsym| || BucketOf(t, elf, n + 1) != BucketOf(t, elf, n))
  }

  /** Symbol n is reached from its bucket: the bucket starts the run that n is in. */
  predicate InRun(t: Table, elf: Elf, n: nat)
    requires t.Usable() && n < |elf.dynsym|
  {
    var b := BucketOf(t, elf, n);
    && t.SymOffset() <= t.Bucket(b) <= n
    && forall k :: t.Bucket(b) <= k <= n ==> BucketOf(t, elf, k) == b
  }

  predicate SymbolOk(t: Table, elf: Elf, n: nat)
    requires t.Usable() && t.SymOffset() <= n < |elf.dynsym|
  {
    ChainEntryOk(t, elf, n) && InRun(t, elf, n) && t.InFilter(HashOf(SymName(elf, n)))
  }

  /** A bucket without symbols holds an index below symoffset. */
  predicate BucketOk(t: Table, elf: Elf, b: nat)
    requires t.Usable() && b < t.Buckets()
  {
    t.Bucket(b) >= t.SymOffset() ==> t.Bucket(b) < |elf.dynsym| && BucketOf(t, elf, t.Bucket(b)) == b
  }

  predicate WellFormed(t: Table, elf: Elf) {
    && t.Usable() && NamesInRange(elf)
    && t.SymOffset() <= |elf.dynsym| < WORD
    && (forall n :: t.SymOffset() <= n < |elf.dynsym| ==> SymbolOk(t, elf, n))
    && (forall b :: 0 <= b < t.Buckets() ==> BucketOk(t, elf, b))
  }

  /** A symbol outside the bucket of a name does not match the name. */
  lemma OtherBucketsDoNotMatch(t: Table, elf: Elf, name: Name, weakOk: bool, n: nat)
    requires WellFormed(t, elf) && n < |elf.dynsym|
    requires BucketOf(t, elf, n) != HashOf(name) % t.Buckets()
    ensures SymCompare(elf, elf.dynsym[n], name, weakOk) == NoMatch
  {
    OnlyTheNameDecides(elf, name, weakOk, n);
  }

  /** After the last entry of a run no symbol of that bucket follows. */
  lemma RunIsOver(t: Table, elf: Elf, n: nat, later: nat)
    requires WellFormed(t, elf) && t.SymOffset() <= n < later < |elf.dynsym|
    requires SymbolOk(t, elf, n) && t.Chain(n - t.SymOffset()) % 2 == 1
    ensures BucketOf(t, elf, later) != BucketOf(t, elf, n)
  {
    assert SymbolOk(t, elf, later);
    var next := BucketOf(t, elf, n + 1);
  }

  lemma NothingAfterTheRun(t: Table, elf: Elf, name: Name, weakOk: bool, n: nat)
    requires WellFormed(t, elf) && t.SymOffset() <= n < |elf.dynsym|
    requires BucketOf(t, elf, n) == HashOf(name) % t.Buckets()
    requires SymbolOk(t, elf, n) && t.Chain(n - t.SymOffset()) % 2 == 1
    ensures Scan(elf, name, weakOk, n + 1) == NoMatch
  {
    forall i | n < i < |elf.dynsym| ensures SymCompare(elf, elf.dynsym[i], name, weakOk) == NoMatch {
      RunIsOver(t, elf, n, i);
      OtherBucketsDoNotMatch(t, elf, name, weakOk, i);
    }
    ScanSkips(elf, name, weakOk, n + 1, |elf.dynsym|);
  }

  /** A run goes on where the low bit is clear. */
  lemma RunGoesOn(t: Table, elf: Elf, n: nat)
    requires WellFormed(t, elf) && t.SymOffset() <= n < |elf.dynsym|
    ensures SymbolOk(t, elf, n)
    ensures t.Chain(n - t.SymOffset()) % 2 == 0 ==>
              n + 1 < |elf.dynsym| && BucketOf(t, elf, n + 1) == BucketOf(t, elf, n)
  {
    assert SymbolOk(t, elf, n);
  }

  lemma NoWrap(offset: u32, n: u32)
    ensures (offset + (n - offset)) % WORD == n
  {
  }

  /** What the walk sees of symbol n is what the scan sees. */
  lemma EntryIsCompare(t: Table, elf: Elf, name: Name, weakOk: bool, n: nat)
    requires WellFormed(t, elf) && t.SymOffset() <= n < |elf.dynsym|
    ensures SymbolOk(t, elf, n)
    ensures (if Odd(t.Chain(n - t.SymOffset())) == Odd(HashOf(name))
             then CheckFound(elf, name, weakOk, (t.SymOffset() + (n - t.SymOffset())) % WORD) else NoMatch)
            == SymCompare(elf, elf.dynsym[n], name, weakOk)
  {
    assert SymbolOk(t, elf, n);
    NoWrap(t.SymOffset(), n);
    if SymName(elf, n) != name {
      OnlyTheNameDecides(elf, name, weakOk, n);
    }
  }

  /** From any point of the run of its bucket, the walk is the scan. */
  lemma {:induction false} WalkIsScan(t: Table, elf: Elf, name: Name, weakOk: bool, n: nat)
    requires WellFormed(t, elf) && t.SymOffset() <= n < |elf.dynsym|
    requires BucketOf(t, elf, n) == HashOf(name) % t.Buckets()
    ensures Walk(t, elf, name, weakOk, HashOf(name), n - t.SymOffset()) == Scan(elf, name, weakOk, n)
    decreases |elf.dynsym| - n
  {
    RunGoesOn(t, elf, n);
    EntryIsCompare(t, elf, name, weakOk, n);
    if SymCompare(elf, elf.dynsym[n], name, weakOk).NoMatch? {
      if t.Chain(n - t.SymOffset()) % 2 == 1 {
        NothingAfterTheRun(t, elf, name, weakOk, n);
      } else {
        WalkIsScan(t, elf, name, weakOk, n + 1);
      }
    }
  }

  /** The lookup is the scan from symoffset on: no symbol is lost to the filter, the buckets or the chains. */
  lemma LookupIsScan(t: Table, elf: Elf, name: Name, weakOk: bool)
    requires WellFormed(t, elf)
    ensures Lookup(t, elf, name, weakOk) == Scan(elf, name, weakOk, t.SymOffset())
  {
    var b := HashOf(name) % t.Buckets();
    var first := t.Bucket(b);
    assert BucketOk(t, elf, b);
    AdmitsIff(t, HashOf(name));
    if t.Admits(HashOf(name)) && first >= t.SymOffset() {
      WalkIsScan(t, elf, name, weakOk, first);
      forall i | t.SymOffset() <= i < first ensures SymCompare(elf, elf.dynsym[i], name, weakOk) == NoMatch {
        assert SymbolOk(t, elf, i);
        OtherBucketsDoNotMatch(t, elf, name, weakOk, i);
      }
      ScanSkips(elf, name, weakOk, t.SymOffset(), first);
    } else {
      forall i | t.SymOffset() <= i < |elf.dynsym| ensures SymCompare(elf, elf.dynsym[i], name, weakOk) == NoMatch {
        assert SymbolOk(t, elf, i);
        OnlyTheNameDecides(elf, name, weakOk, i);
      }
      ScanSkips(elf, name, weakOk, t.SymOffset(), |elf.dynsym|);
    }
  }

  /**
   * A table with a filter of two words, in which only the bits for "b" are set, and three
   * buckets, of which the last one leads to it: "b" is found, in its symbol.
   */
  lemma SparseFilterLetsThrough(elf: Elf, weakOk: bool)
    requires |elf.dynsym| == 2
    ensures var t := Laid(true, 1, 5, [65664, 0], [0, 0, 1], [177671], [0]);
            t.Usable() && Lookup(t, elf, [98], weakOk) == SymCompare(elf, elf.dynsym[1], [98], weakOk)
  {
    var t := Laid(true, 1, 5, [65664, 0], [0, 0, 1], [177671], [0]);
    PartsAreRead(true, 1, 5, [65664, 0], [0, 0, 1], [177671], [0]);
    HashOfB();
    SparseBits(t);
    AdmitsIff(t, 177671);
    assert t.Bucket(2) == 1 && t.Chain(0) == 177671;
  }

  lemma HashOfB()
    ensures HashOf([98]) == 177671
  {
    var name: Name := [98];
    assert name[..0] == [];
    assert HashOf([]) == 5381;
  }

  lemma SparseBits(t: Table)
    requires t.Usable() && t.is32bit && t.BloomSize() == 2 && t.BloomShift() == 5 && t.mem[4] == 65664
    ensures t.InFilter(177671)
  {
    assert Pow2(5) == 32 && Pow2(7) == 128 by {
      assert Pow2(3) == 8;
      assert Pow2(5) == 4 * Pow2(3);
    }
    assert Pow2(16) == 65536 by {
      assert Pow2(4) == 16;
      Pow2Add(4, 4);
      Pow2Add(8, 8);
    }
  }

  /** On any usable table, however malformed, a hit is a real symbol with that name. */
  lemma {:induction false} WalkIsSound(t: Table, elf: Elf, name: Name, weakOk: bool, hash: u32, idx: nat)
    requires t.Usable() && Walk(t, elf, name, weakOk, hash, idx).Match?
    ensures exists n :: 0 <= n < |elf.dynsym| &&
              Walk(t, elf, name, weakOk, hash, idx) == SymCompare(elf, elf.dynsym[n], name, weakOk)
    decreases t.size - idx
  {
    var v := if Odd(t.Chain(idx)) == Odd(hash) then CheckFound(elf, name, weakOk, (t.SymOffset() + idx) % WORD)
        else NoMatch;
    if v.NoMatch? {
      WalkIsSound(t, elf, name, weakOk, hash, idx + 1);
    } else {
      assert v == SymCompare(elf, elf.dynsym[(t.SymOffset() + idx) % WORD], name, weakOk);
    }
  }

  // ----- The end of the section -----

  /** The last chain entry that passes the bounds test; reading it leaves the section, by one word or less. */
  function Last(t: Table): (idx: nat)
    requires t.Usable()
    ensures t.InSection(idx) && !t.InSection(idx + 1) && 4 * (t.ChainAt() + idx) + 4 > t.size
  {
    t.size / 4 - t.ChainAt()
  }

  /** The walk reads entry idx and goes on. */
  predicate GoesOn(t: Table, elf: Elf, name: Name, weakOk: bool, hash: u32, idx: nat)
    requires t.Usable() && t.InSection(idx)
  {
    && t.Chain(idx) % 2 == 0
    && (Odd(t.Chain(idx)) == Odd(hash) ==> CheckFound(elf, name, weakOk, (t.SymOffset() + idx) % WORD).NoMatch?)
  }

  /** The walk from entry idx on reads a word that is not wholly inside the section. */
  predicate Leaves(t: Table, elf: Elf, name: Name, weakOk: bool, hash: u32, idx: nat)
    requires t.Usable()
    decreases t.size - idx
  {
    t.InSection(idx) &&
    (4 * (t.ChainAt() + idx) + 4 > t.size ||
     (GoesOn(t, elf, name, weakOk, hash, idx) && Leaves(t, elf, name, weakOk, hash, idx + 1)))
  }

  /** It does exactly when no entry up to the end of the section stops it. */
  lemma {:induction false} LeavesIff(t: Table, elf: Elf, name: Name, weakOk: bool, hash: u32, idx: nat)
    requires t.Usable()
    ensures Leaves(t, elf, name, weakOk, hash, idx) <==>
            idx <= Last(t) && forall j :: idx <= j < Last(t) ==> GoesOn(t, elf, name, weakOk, hash, j)
    decreases t.size - idx
  {
    if idx < Last(t) {
      LeavesIff(t, elf, name, weakOk, hash, idx + 1);
    }
  }

  /** In a well-formed table whose chains lie inside the section, no lookup leaves it. */
  lemma {:induction false} StaysInside(t: Table, elf: Elf, name: Name, weakOk: bool, n: nat)
    requires WellFormed(t, elf) && t.SymOffset() <= n < |elf.dynsym|
    requires 4 * (t.ChainAt() + |elf.dynsym| - t.SymOffset()) <= t.size
    ensures !Leaves(t, elf, name, weakOk, HashOf(name), n - t.SymOffset())
    decreases |elf.dynsym| - n
  {
    RunGoesOn(t, elf, n);
    if t.Chain(n - t.SymOffset()) % 2 == 0 {
      StaysInside(t, elf, name, weakOk, n + 1);
    }
  }

  // ----- The symbols of one tier -----

  /** The four searches go together along every chain. */
  lemma {:induction false} WalksAreCoherent(t: Table, elf: Elf, name: Name, hash: u32, idx: nat)
    requires t.Usable()
    ensures Coherent(Walk(t, elf, name, false, hash, idx), Walk(t, elf, name, true, hash, idx),
                     Walk(t, Only(elf, Weak), name, true, hash, idx),
                         Walk(t, Only(elf, Undefined), name, true, hash, idx))
    decreases t.size - idx
  {
    if t.InSection(idx) {
      OneSymbolIsCoherent(elf, name, (t.SymOffset() + idx) % WORD);
      if t.Chain(idx) % 2 == 0 {
        WalksAreCoherent(t, elf, name, hash, idx + 1);
      }
    }
  }

  /** A table is well-formed for a tier as well: it is laid out by names. */
  lemma OnlyIsWellFormed(t: Table, elf: Elf, tier: Tier)
    requires WellFormed(t, elf)
    ensures WellFormed(t, Only(elf, tier))
  {
    var e := Only(elf, tier);
    forall n | 0 <= n < |elf.dynsym| ensures SymName(e, n) == SymName(elf, n) &&
        BucketOf(t, e, n) == BucketOf(t, elf, n) {
    }
    forall n | t.SymOffset() <= n < |e.dynsym| ensures SymbolOk(t, e, n) {
      assert SymbolOk(t, elf, n);
    }
    forall b | 0 <= b < t.Buckets() ensures BucketOk(t, e, b) {
      assert BucketOk(t, elf, b);
    }
  }
}

/**
 * Chains of subkeys: a file holds subkey images, each followed by the padded name
 * of the next image, and ends in a TA or in the last subkey. Writing such files
 * step by step, reading them back, and verifying them.
 */
module SubkeyChain {
  import opened Words
  import opened SignedImage

  // ----- parse() as it runs -----

  method FindAttrLoop(inf: Bytes, subkeyOffs: nat, count: u32, id: u32) returns (r: Result<Bytes>)
    ensures r == FindAttr(inf, subkeyOffs, count, id, 0)
  {
    var k := 0;
    while k < count
      invariant 0 <= k <= count && FindAttr(inf, subkeyOffs, count, id, 0) == FindAttr(inf, subkeyOffs, count, id, k)
    {
      var o := subkeyOffs + UUID_SIZE + SK_HDR_SIZE + k * 12;
      var ref := Slice(inf, o, o + 12);
      if |ref| != 12 {
        return Err(StructError);
      }
      if FromLe32(ref[..4]) == id {
        o := subkeyOffs + FromLe32(ref[4..8]);
        return Ok(Slice(inf, o, o + FromLe32(ref[8..])));
      }
      k := k + 1;
    }
    r := Err(NoAttribute);
  }

  method ReadTa(inf: Bytes, h: Header, digest: Bytes, sig: Bytes, start: nat) returns (r: Result<Parsed>)
    ensures r == ParseTa(inf, h, digest, sig, start)
  {
    var offs := start;
    var uuid := Slice(inf, offs, offs + UUID_SIZE);
    offs := offs + UUID_SIZE;
    var taVersion := Slice(inf, offs, offs + 4);
    offs := offs + 4;
    var img := From(inf, offs);
    if |img| != h.imgSize {
      return Err(BadImageSize);
    }
    r := Ok(Parsed(Slice(inf, 0, SHDR_SIZE), Ta(h.algo, digest, sig, uuid, taVersion, img), [], [], img));
  }

  method ReadFields(inf: Bytes, h: Header, digest: Bytes, sig: Bytes, subkeyOffs: nat, sk: SubkeyHeader, key: Key)
    returns (r: Result<Parsed>)
    ensures r == SubkeyFields(inf, h, digest, sig, subkeyOffs, sk, key)
  {
    var offs := subkeyOffs;
    var uuid := Slice(inf, offs, offs + UUID_SIZE);
    offs := offs + UUID_SIZE;
    offs := offs + SK_HDR_SIZE;
    var attr := if h.imgSize < UUID_SIZE + SK_HDR_SIZE then []
        else Slice(inf, offs, offs + h.imgSize - UUID_SIZE - SK_HDR_SIZE);
    offs := offs + |attr|;
    var nameImg := Slice(inf, offs, offs + sk.nameSize);
    offs := offs + sk.nameSize;
    var nextInf := From(inf, offs);
    var img := Slice(inf, subkeyOffs, offs - sk.nameSize);
    if |img| != h.imgSize {
      return Err(BadImageSize);
    }
    r := Ok(Parsed(Slice(inf, 0, SHDR_SIZE), Subkey(h.algo, digest, sig, uuid, sk.nameSize, sk.version, sk.maxDepth,
        key), nameImg, nextInf, img));
  }

  method ReadSubkey(inf: Bytes, h: Header, digest: Bytes, sig: Bytes, subkeyOffs: nat) returns (r: Result<Parsed>)
    ensures r == ParseSubkey(inf, h, digest, sig, subkeyOffs)
  {
    var offs := subkeyOffs + UUID_SIZE;
    var sk :- UnpackSubkeyHdr(Slice(inf, offs, offs + SK_HDR_SIZE));
    var n :- FindAttrLoop(inf, subkeyOffs, sk.attrCount, ATTR_MODULUS);
    var e :- FindAttrLoop(inf, subkeyOffs, sk.attrCount, ATTR_EXPONENT);
    r := ReadFields(inf, h, digest, sig, subkeyOffs, sk, Key(FromBytes(n), FromBytes(e)));
  }

  /** BinaryImage.parse(), with its running offset. */
  method ReadImage(inf: Bytes) returns (r: Result<Parsed>)
    ensures r == Parse(inf)
  {
    var offs := 0;
    var h :- UnpackShdr(Slice(inf, offs, offs + SHDR_SIZE));
    offs := offs + SHDR_SIZE;
    if h.magic != MAGIC {
      return Err(BadMagic);
    }
    if h.algo !in {ALG_PSS, ALG_V1_5} {
      return Err(BadAlgorithm);
    }
    if h.hashSize != HASH_SIZE {
      return Err(BadDigestLength);
    }
    var digest := Slice(inf, offs, offs + h.hashSize);
    offs := offs + h.hashSize;
    var sig := Slice(inf, offs, offs + h.sigSize);
    offs := offs + h.sigSize;
    if h.imgType == BOOTSTRAP_TA {
      r := ReadTa(inf, h, digest, sig, offs);
    } else if h.imgType == SUBKEY {
      r := ReadSubkey(inf, h, digest, sig, offs);
    } else {
      r := Err(Unsupported);
    }
  }

  /** What follows a subkey is shorter than the file, so every loop over a file ends. */
  lemma NextIsShorter(inf: Bytes)
    requires Parse(inf).Ok? && Parse(inf).value.image.Subkey?
    ensures |Parse(inf).value.nextInf| < |inf|
  {
  }

  // ----- Files -----

  /** A subkey of a chain and the name that was given with the image behind it. */
  datatype Link = Link(image: Image, name: Bytes)

  /** name.ljust(size, b'\0') */
  function Ljust(name: Bytes, size: nat): (s: Bytes) {
    if |name| >= size then name else name + Zeros(size - |name|)
  }

  predicate GoodLink(l: Link) {
    l.image.Subkey? && l.image.Fits()
  }

  predicate GoodChain(links: seq<Link>, last: Image) {
    (forall k :: 0 <= k < |links| ==> GoodLink(links[k])) && last.Fits()
  }

  /** A subkey and the padded name behind it. */
  function Head(l: Link): (s: Bytes)
    requires GoodLink(l)
  {
    l.image.Encoded() + Ljust(l.name, l.image.nameSize)
  }

  /** The file of a chain. */
  function FileOf(links: seq<Link>, last: Image): (s: Bytes)
    requires GoodChain(links, last)
  {
    if links == [] then last.Encoded()
    else Head(links[0]) + FileOf(links[1..], last)
  }

  lemma GoodGrows(links: seq<Link>, l: Link, next: Image)
    requires GoodChain(links, l.image) && l.image.Subkey? && next.Fits()
    ensures GoodChain(links + [l], next) && (links != [] ==>
            GoodChain(links[1..] + [l], next) && GoodChain(links[1..], l.image))
  {
  }

  /** write() with a subkey file: the old file, the padded name and the new image make the file of the longer chain. */
  lemma {:induction false} FileGrows(links: seq<Link>, last: Image, name: Bytes, next: Image)
    requires GoodChain(links, last) && last.Subkey? && next.Fits()
    ensures GoodChain(links + [Link(last, name)], next)
    ensures FileOf(links + [Link(last, name)], next) == FileOf(links, last) + Ljust(name, last.nameSize) +
            next.Encoded()
    decreases |links|
  {
    var l := Link(last, name);
    GoodGrows(links, l, next);
    if links == [] {
      FileOfOne(l, next);
    } else {
      FileGrows(links[1..], last, name, next);
      FileUnfolds(links, l, next);
      Push(Head(links[0]), FileOf(links[1..], last), Ljust(name, last.nameSize), next.Encoded());
    }
  }

  lemma FileOfOne(l: Link, next: Image)
    requires GoodLink(l) && next.Fits()
    ensures GoodChain([] + [l], next) && GoodChain([], l.image)
    ensures FileOf([] + [l], next) == FileOf([], l.image) + Ljust(l.name, l.image.nameSize) + next.Encoded()
  {
    var links := [] + [l];
    assert links[0] == l && links[1..] == [];
  }

  lemma FileUnfolds(links: seq<Link>, l: Link, next: Image)
    requires links != [] && GoodLink(links[0]) && GoodChain(links + [l], next) && GoodChain(links[1..] + [l], next)
    ensures FileOf(links + [l], next) == Head(links[0]) + FileOf(links[1..] + [l], next)
  {
    assert (links + [l])[0] == links[0] && (links + [l])[1..] == links[1..] + [l];
  }

  lemma Push(a: Bytes, b: Bytes, c: Bytes, d: Bytes)
    ensures a + (b + c + d) == a + b + c + d
  {
  }

  // ----- Reading a whole chain -----

  datatype ChainResult = Chain(images: seq<Parsed>) | Broken(error: Error)

  /** Parses image after image until a TA or the end of the file. */
  function ReadChain(inf: Bytes): (r: ChainResult)
    decreases |inf|
  {
    var p := Parse(inf);
    if p.Err? then Broken(p.error)
    else if p.value.image.Ta? || p.value.nextInf == [] then Chain([p.value])
    else
      NextIsShorter(inf);
      var rest := ReadChain(p.value.nextInf);
      if rest.Broken? then rest else Chain([p.value] + rest.images)
  }

  /**
   * The name that was padded starts the bytes behind the subkey, and the next image is
   * found exactly when the name fits.
   */
  lemma NameFitsIff(name: Bytes, size: nat, rest: Bytes)
    ensures |name| <= size <==> From(Ljust(name, size) + rest, size) == rest
    ensures |name| <= size ==> Slice(Ljust(name, size) + rest, 0, size) == Ljust(name, size)
  {
    var padded := Ljust(name, size);
    var tail := padded + rest;
    if |name| <= size {
      assert |padded| == size;
      SliceMiddle([], padded, rest);
      assert [] + padded + rest == tail;
    } else if size < |tail| {
      assert |From(tail, size)| == |tail| - size;
    }
  }

  predicate NamesFit(links: seq<Link>) {
    forall k :: 0 <= k < |links| ==> links[k].image.Subkey? && |links[k].name| <= links[k].image.nameSize
  }

  /** The parsed form of a subkey in a chain. */
  function ParsedLink(l: Link, rest: Bytes): (p: Parsed)
    requires GoodLink(l)
  {
    Parsed(l.image.Header(), l.image, Ljust(l.name, l.image.nameSize), rest, l.image.Body())
  }

  function ParsedLast(last: Image): (p: Parsed)
    requires last.Fits()
  {
    Parsed(last.Header(), last, [], [], last.Body())
  }

  lemma ParseLast(last: Image)
    requires last.Fits()
    ensures Parse(last.Encoded()) == Ok(ParsedLast(last))
  {
    if last.Ta? {
      TaRoundTrip(last);
    } else {
      SubkeyRoundTrip(last, []);
      assert last.Encoded() + [] == last.Encoded();
    }
  }

  lemma ParseHead(l: Link, rest: Bytes)
    requires GoodLink(l) && |l.name| <= l.image.nameSize
    ensures Parse(Head(l) + rest) == Ok(ParsedLink(l, rest))
  {
    var padded := Ljust(l.name, l.image.nameSize);
    Regroup3(l.image.Encoded(), padded, rest);
    SubkeyRoundTrip(l.image, padded + rest);
    NameFitsIff(l.name, l.image.nameSize, rest);
  }

  lemma Regroup3(a: Bytes, b: Bytes, c: Bytes)
    ensures a + b + c == a + (b + c)
  {
  }

  lemma ParseFirst(links: seq<Link>, last: Image)
    requires GoodChain(links, last) && NamesFit(links) && links != []
    ensures Parse(FileOf(links, last)) == Ok(ParsedLink(links[0], FileOf(links[1..], last)))
  {
    ParseHead(links[0], FileOf(links[1..], last));
  }

  lemma FileIsNotEmpty(links: seq<Link>, last: Image)
    requires GoodChain(links, last)
    ensures |FileOf(links, last)| > 0
  {
  }

  /** What the images of a chain are parsed to, in order. */
  function ParsedChain(links: seq<Link>, last: Image): (r: seq<Parsed>)
    requires GoodChain(links, last)
  {
    if links == [] then [ParsedLast(last)]
    else [ParsedLink(links[0], FileOf(links[1..], last))] + ParsedChain(links[1..], last)
  }

  lemma ParsedCons(links: seq<Link>, last: Image)
    requires GoodChain(links, last) && links != []
    ensures GoodChain(links[1..], last)
    ensures var r := ParsedChain(links, last);
            r != [] && r[0].image == links[0].image && r[1..] == ParsedChain(links[1..], last)
  {
  }

  /** The last image of the chain is parsed last. */
  lemma {:induction false} ParsedEnds(links: seq<Link>, last: Image)
    requires GoodChain(links, last)
    ensures var r := ParsedChain(links, last); r != [] && r[|r| - 1].image == last
    decreases |links|
  {
    if links != [] {
      ParsedCons(links, last);
      ParsedEnds(links[1..], last);
    }
  }

  lemma ReadStep(inf: Bytes, p: Parsed, rest: seq<Parsed>)
    requires Parse(inf) == Ok(p) && p.image.Subkey? && p.nextInf != [] && ReadChain(p.nextInf) == Chain(rest)
    ensures ReadChain(inf) == Chain([p] + rest)
  {
  }

  /** Reading the file of a chain recovers every image in order, when every name fits. */
  lemma {:induction false} ChainRoundTrip(links: seq<Link>, last: Image)
    requires GoodChain(links, last) && NamesFit(links)
    ensures ReadChain(FileOf(links, last)) == Chain(ParsedChain(links, last))
    decreases |links|
  {
    if links == [] {
      ParseLast(last);
    } else {
      ChainRoundTrip(links[1..], last);
      ParseFirst(links, last);
      FileIsNotEmpty(links[1..], last);
      ReadStep(FileOf(links, last), ParsedLink(links[0], FileOf(links[1..], last)), ParsedChain(links[1..], last));
    }
  }
}

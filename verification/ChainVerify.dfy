/** Signing the images of a chain, and the verifier that walks it. */
module ChainVerify {
  import opened Common
  import opened Words
  import opened SignedImage
  import opened SubkeyChain

  /** Hash, signature and naming functions. */
  datatype Crypto = Crypto(hash: Bytes -> Bytes, sign: (Key, Bytes, u32) -> Bytes,
      verify: (Key, Bytes, Bytes, u32) -> bool,
                           uuid5: (Bytes, Bytes) -> Bytes, decodes: Bytes -> bool)
  {
    /** Digests and UUIDs have their sizes, and signatures verify under the key that made them. */
    ghost predicate Sound() {
      && (forall m :: |hash(m)| == HASH_SIZE)
      && (forall u, n :: |uuid5(u, n)| == UUID_SIZE)
      && (forall k, d, a :: verify(k, sign(k, d, a), d, a))
    }
  }

  // ----- Signing -----

  function SigSize(key: Key): (n: nat) {
    (BitLength(key.n) + 7) / 8
  }

  /** The size of a signature is the least number of bytes that the modulus fits into. */
  lemma SigSizeIsLeast(key: Key, len: nat)
    ensures FromBytes(ToBytes(key.n, len)) == key.n <==> SigSize(key) <= len
  {
    if SigSize(key) <= len {
      BytesRoundTrip(key.n, len);
    } else {
      BitsOfBytes(ToBytes(key.n, len));
    }
  }

  /** Digest and signature of the image are those of the key. */
  predicate SignedBy(c: Crypto, i: Image, key: Key) {
    i.Fits() && i.digest == c.hash(i.Hashed()) && i.sig == c.sign(key, i.digest, i.algo)
  }

  /** __pack_img(), __calc_digest() and sign() on an image whose digest and signature are still open. */
  function Sign(c: Crypto, i: Image, key: Key): (r: Option<Image>)
    ensures r.Some? ==> SignedBy(c, r.value, key) && r.value == i.(digest := r.value.digest, sig := r.value.sig)
  {
    var open := i.(digest := Zeros(HASH_SIZE), sig := Zeros(SigSize(key)));
    if !open.Fits() then None
    else
      var digest := c.hash(open.Hashed());
      var sig := c.sign(key, digest, i.algo);
      if |digest| != HASH_SIZE || |sig| != SigSize(key) then None
      else
        var signed := i.(digest := digest, sig := sig);
        SameHashed(open, signed);
        Some(signed)
  }

  /** Signing succeeds exactly when the fields of the image fit and digest and signature have their sizes. */
  lemma SignsIff(c: Crypto, i: Image, key: Key)
    ensures var open := i.(digest := Zeros(HASH_SIZE), sig := Zeros(SigSize(key)));
            Sign(c, i, key).Some? <==>
            && open.Fits() && |c.hash(open.Hashed())| == HASH_SIZE
            && |c.sign(key, c.hash(open.Hashed()), i.algo)| == SigSize(key)
  {
  }

  /** The hashed part does not depend on digest and signature, only on the size of the latter. */
  lemma SameHashed(i: Image, j: Image)
    requires i.Fits() && j.Fits() && |i.sig| == |j.sig| && j == i.(digest := j.digest, sig := j.sig)
    ensures i.Hashed() == j.Hashed()
  {
    assert i.Body() == j.Body();
  }

  /** The max_depth rule of set_subkey(): below that of the subkey before it, if there is one. */
  function Depth(previous: Option<u32>, arg: Option<int>): (d: Option<u32>)
    ensures d.Some? && previous.Some? ==> d.value < previous.value
  {
    if arg.None? then
      if previous.None? then Some(0)
      else if previous.value <= 0 then None
      else Some(previous.value - 1)
    else if previous.Some? && arg.value >= previous.value then None
    else if arg.value < 0 || arg.value >= WORD then None
    else Some(arg.value)
  }

  /** Which depth a subkey gets: the one asked for if it is allowed, else one less than before, or zero. */
  lemma DepthIs(previous: Option<u32>, arg: Option<int>)
    ensures arg.None? && previous.None? ==> Depth(previous, arg) == Some(0)
    ensures arg.None? && previous.Some? && previous.value > 0 ==> Depth(previous, arg) == Some(previous.value - 1)
    ensures arg.None? && previous == Some(0) ==> Depth(previous, arg) == None
    ensures arg.Some? ==>
            if 0 <= arg.value < WORD && (previous.Some? ==> arg.value < previous.value)
            then Depth(previous, arg) == Some(arg.value) else Depth(previous, arg) == None
  {
  }

  /** add_subkey(): the depth and the name size of the last subkey of a file. */
  method LastSubkey(file: Bytes) returns (r: Option<Image>)
    ensures r == LastOf(ReadChain(file))
  {
    var inf := file;
    var p := ReadImage(inf);
    while p.Ok? && p.value.image.Subkey? && p.value.nextInf != []
      invariant p == Parse(inf) && LastOf(ReadChain(file)) == LastOf(ReadChain(inf))
      decreases |inf|
    {
      NextIsShorter(inf);
      LastOfRest(inf);
      inf := p.value.nextInf;
      p := ReadImage(inf);
    }
    if p.Err? || p.value.image.Ta? {
      return None;
    }
    r := Some(p.value.image);
  }

  /** The last image of a chain, if the chain can be read and it is a subkey. */
  function LastOf(r: ChainResult): (i: Option<Image>)
    ensures i.Some? ==> i.value.Subkey?
  {
    if r.Broken? || r.images == [] || r.images[|r.images| - 1].image.Ta? then None
        else Some(r.images[|r.images| - 1].image)
  }

  lemma LastOfRest(inf: Bytes)
    requires Parse(inf).Ok? && Parse(inf).value.image.Subkey? && Parse(inf).value.nextInf != []
    ensures LastOf(ReadChain(inf)) == LastOf(ReadChain(Parse(inf).value.nextInf))
  {
    NotEmpty(Parse(inf).value.nextInf);
    var rest := ReadChain(Parse(inf).value.nextInf);
    ReadOn(inf);
    if rest.Chain? {
      LastOfMore(Parse(inf).value, rest.images);
    }
  }

  /** One more image in front of a chain. */
  lemma ReadOn(inf: Bytes)
    requires Parse(inf).Ok? && Parse(inf).value.image.Subkey? && Parse(inf).value.nextInf != []
    ensures var rest := ReadChain(Parse(inf).value.nextInf);
            ReadChain(inf) == if rest.Broken? then rest else Chain([Parse(inf).value] + rest.images)
  {
  }

  lemma LastOfMore(p: Parsed, images: seq<Parsed>)
    requires images != []
    ensures LastOf(Chain([p] + images)) == LastOf(Chain(images))
  {
  }

  lemma NotEmpty(inf: Bytes)
    ensures ReadChain(inf).Chain? ==> ReadChain(inf).images != []
  {
  }

  /** The image a signing command makes: behind a subkey file, if one is given. */
  function SignedImageOf(c: Crypto, key: Key, parent: Option<Bytes>, open: Image,
                         maxDepth: Option<int>): (r: Option<Image>)
    ensures r.Some? ==> SignedBy(c, r.value, key) && r.value.Subkey? == open.Subkey?
  {
    var last := if parent.None? then None else LastOf(ReadChain(parent.value));
    if parent.Some? && last.None? then None
    else if open.Ta? then Sign(c, open, key)
    else
      var depth := Depth(if last.None? || last.value.Ta? then None else Some(last.value.maxDepth), maxDepth);
      if depth.None? then None else Sign(c, open.(maxDepth := depth.value), key)
  }

  /** The file a signing command writes. */
  function Written(c: Crypto, key: Key, parent: Option<Bytes>, name: Bytes, open: Image,
                   maxDepth: Option<int>): (r: Option<Bytes>) {
    var image := SignedImageOf(c, key, parent, open, maxDepth);
    if image.None? then None else Some(Front(parent, name) + image.value.Encoded())
  }

  /** What write() puts before the image: the subkey file and the padded name. */
  function Front(parent: Option<Bytes>, name: Bytes): (s: Bytes) {
    if parent.None? then []
    else
      var last := LastOf(ReadChain(parent.value));
      if last.None? || last.value.Ta? then [] else parent.value + Ljust(name, last.value.nameSize)
  }

  /** What add_subkey() leaves: the depth of the last subkey, and what goes before the image. */
  method AddSubkey(parent: Option<Bytes>, name: Bytes) returns (ok: bool, previous: Option<u32>, front: Bytes)
    ensures ok == (parent.None? || LastOf(ReadChain(parent.value)).Some?)
    ensures ok ==> front == Front(parent, name)
    ensures ok && parent.None? ==> previous == None
    ensures ok && parent.Some? ==> previous == Some(LastOf(ReadChain(parent.value)).value.maxDepth)
  {
    if parent.None? {
      return true, None, [];
    }
    var sk := LastSubkey(parent.value);
    if sk.None? {
      return false, None, [];
    }
    return true, Some(sk.value.maxDepth), parent.value + Ljust(name, sk.value.nameSize);
  }

  /** command_sign_subkey() */
  method SignSubkey(c: Crypto, key: Key, parent: Option<Bytes>, name: Bytes, open: Image, maxDepth: Option<int>)
    returns (r: Option<Bytes>)
    requires open.Subkey?
    ensures r == Written(c, key, parent, name, open, maxDepth)
  {
    var ok, previous, front := AddSubkey(parent, name);
    if !ok {
      return None;
    }
    var depth := Depth(previous, maxDepth);
    if depth.None? {
      return None;
    }
    var image := Sign(c, open.(maxDepth := depth.value), key);
    if image.None? {
      return None;
    }
    r := Some(front + image.value.Encoded());
  }

  /** command_sign_enc() without encryption; the depth of the last subkey plays no part. */
  method SignTa(c: Crypto, key: Key, parent: Option<Bytes>, name: Bytes, open: Image) returns (r: Option<Bytes>)
    requires open.Ta?
    ensures r == Written(c, key, parent, name, open, None)
  {
    var ok, _, front := AddSubkey(parent, name);
    if !ok {
      return None;
    }
    var image := Sign(c, open, key);
    if image.None? {
      return None;
    }
    r := Some(front + image.value.Encoded());
  }

  // ----- Chains as the signer makes them -----

  /** The image behind a link is signed with the key of the link, and a subkey has a smaller depth. */
  predicate Succeeds(c: Crypto, l: Link, next: Image) {
    l.image.Subkey? && SignedBy(c, next, l.image.key) && (next.Subkey? ==> next.maxDepth < l.image.maxDepth)
  }

  /** Signed from the root key down, depths decreasing, names fitting. */
  predicate SignedChain(c: Crypto, links: seq<Link>, last: Image, root: Key) {
    && GoodChain(links, last) && NamesFit(links)
    && SignedBy(c, ImageAt(links, last, 0), root) && Descends(c, links, last)
  }

  predicate Descends(c: Crypto, links: seq<Link>, last: Image) {
    forall k :: 0 <= k < |links| ==> Succeeds(c, links[k], ImageAt(links, last, k + 1))
  }

  function ImageAt(links: seq<Link>, last: Image, k: nat): (i: Image) {
    if k < |links| then links[k].image else last
  }

  /** Without a subkey file, the signing commands write a chain of one image. */
  lemma SigningStarts(c: Crypto, root: Key, name: Bytes, open: Image, maxDepth: Option<int>)
    ensures var i := SignedImageOf(c, root, None, open, maxDepth);
            i.Some? ==>
              && SignedChain(c, [], i.value, root)
              && Written(c, root, None, name, open, maxDepth) == Some(FileOf([], i.value))
  {
    var i := SignedImageOf(c, root, None, open, maxDepth);
    if i.Some? {
      assert [] + i.value.Encoded() == FileOf([], i.value);
    }
  }

  lemma LastOfFile(links: seq<Link>, last: Image)
    requires GoodChain(links, last) && NamesFit(links) && last.Subkey?
    ensures LastOf(ReadChain(FileOf(links, last))) == Some(last)
  {
    ChainRoundTrip(links, last);
    ParsedEnds(links, last);
    LastOfImages(ParsedChain(links, last), last);
  }

  lemma LastOfImages(images: seq<Parsed>, last: Image)
    requires images != [] && images[|images| - 1].image == last && last.Subkey?
    ensures LastOf(Chain(images)) == Some(last)
  {
  }

  lemma SignedSucceeds(c: Crypto, last: Image, file: Bytes, name: Bytes, open: Image, maxDepth: Option<int>)
    requires last.Subkey? && LastOf(ReadChain(file)) == Some(last)
    ensures var i := SignedImageOf(c, last.key, Some(file), open, maxDepth); i.Some? ==>
            Succeeds(c, Link(last, name), i.value)
  {
  }

  /**
   * Signing with the key of the last subkey of a signed chain, under a name that
   * fits, makes a signed chain that is one image longer, and the file written is
   * the file of that chain.
   */
  lemma SigningExtends(c: Crypto, links: seq<Link>, last: Image, root: Key, name: Bytes, open: Image,
                       maxDepth: Option<int>)
    requires SignedChain(c, links, last, root) && last.Subkey? && |name| <= last.nameSize
    ensures var parent, longer := Some(FileOf(links, last)), links + [Link(last, name)];
            var i := SignedImageOf(c, last.key, parent, open, maxDepth);
            i.Some? ==> SignedChain(c, longer, i.value, root)
                        && Written(c, last.key, parent, name, open, maxDepth) == Some(FileOf(longer, i.value))
  {
    LastOfFile(links, last);
    var file := FileOf(links, last);
    SignedSucceeds(c, last, file, name, open, maxDepth);
    var i := SignedImageOf(c, last.key, Some(file), open, maxDepth);
    if i.Some? {
      ChainGrows(c, links, last, root, name, i.value);
      FileGrows(links, last, name, i.value);
    }
  }

  lemma ChainGrows(c: Crypto, links: seq<Link>, last: Image, root: Key, name: Bytes, next: Image)
    requires SignedChain(c, links, last, root) && last.Subkey? && |name| <= last.nameSize &&
             Succeeds(c, Link(last, name), next)
    ensures SignedChain(c, links + [Link(last, name)], next, root)
  {
    FileGrows(links, last, name, next);
    DescentGrows(c, links, Link(last, name), next);
    NamesStillFit(links, Link(last, name));
    assert ImageAt(links + [Link(last, name)], next, 0) == ImageAt(links, last, 0);
  }

  lemma DescentGrows(c: Crypto, links: seq<Link>, l: Link, next: Image)
    requires Descends(c, links, l.image) && Succeeds(c, l, next)
    ensures Descends(c, links + [l], next)
  {
    var longer := links + [l];
    forall k | 0 <= k < |longer| ensures Succeeds(c, longer[k], ImageAt(longer, next, k + 1)) {
      if k < |links| {
        assert Succeeds(c, links[k], ImageAt(links, l.image, k + 1));
      }
    }
  }

  lemma NamesStillFit(links: seq<Link>, l: Link)
    requires NamesFit(links) && l.image.Subkey? && |l.name| <= l.image.nameSize
    ensures NamesFit(links + [l])
  {
  }

  // ----- Verifying -----

  /** next_uuid: unset, a UUID, or the bytes of one, which no UUID is equal to. */
  datatype NextUuid = Unset | AsUuid(bytes: Bytes) | AsBytes

  /** The string a NUL ends: name_img_to_str() of a name that can be decoded. */
  function Str(s: Bytes): (r: Bytes) {
    if s == [] || s[0] == 0 then [] else [s[0]] + Str(s[1..])
  }

  /** What one image of a file has to meet, given the key and what the image before it left. */
  predicate Passes(c: Crypto, key: Key, next: NextUuid, maxDepth: int, p: Parsed, arg: Bytes) {
    var i := p.image;
    && |i.uuid| == UUID_SIZE
    && c.verify(key, i.sig, i.digest, i.algo)
    && i.digest == c.hash(if i.Ta? then p.shdr + i.uuid + i.taVersion + p.img else p.shdr + p.img)
    && (next.Unset? || next == AsUuid(i.uuid))
    && (i.Subkey? && maxDepth >= 0 ==> i.maxDepth < maxDepth)
    && (i.Ta? ==> i.uuid == arg)
  }

  /** The UUID the image behind a subkey has to have; None for a name that cannot be decoded. */
  function NextOf(c: Crypto, p: Parsed): (r: Option<NextUuid>)
    requires p.image.Subkey?
  {
    if p.image.nameSize == 0 then Some(AsBytes)
    else if !c.decodes(p.nameImg) then None
    else Some(AsUuid(c.uuid5(p.image.uuid, Str(p.nameImg))))
  }

  /** command_verify() from one image of a file on. */
  predicate Verifies(c: Crypto, inf: Bytes, key: Key, next: NextUuid, maxDepth: int, arg: Bytes)
    decreases |inf|
  {
    var p := Parse(inf);
    && p.Ok?
    && Passes(c, key, next, maxDepth, p.value, arg)
    && (p.value.image.Ta? || p.value.nextInf == [] ||
        (NextIsShorter(inf);
         var n := NextOf(c, p.value);
         n.Some? && Verifies(c, p.value.nextInf, p.value.image.key, n.value, p.value.image.maxDepth, arg)))
  }

  /** command_verify(): checks in the order of the source, true where it returns and false where it raises. */
  method CommandVerify(c: Crypto, file: Bytes, root: Key, arg: Bytes) returns (ok: bool)
    ensures ok == Verifies(c, file, root, Unset, -1, arg)
  {
    var inf, key, next, maxDepth: int := file, root, Unset, -1;
    while true
      invariant Verifies(c, inf, key, next, maxDepth, arg) == Verifies(c, file, root, Unset, -1, arg)
      decreases |inf|
    {
      var r := ReadImage(inf);
      if r.Err? || |r.value.image.uuid| != UUID_SIZE {
        return false;
      }
      var i := r.value.image;
      if i.Subkey? {
        if !c.verify(key, i.sig, i.digest, i.algo) || i.digest != c.hash(r.value.shdr + r.value.img) {
          return false;
        }
        if next != Unset && next != AsUuid(i.uuid) {
          return false;
        }
        if maxDepth >= 0 && i.maxDepth >= maxDepth {
          return false;
        }
        maxDepth := i.maxDepth;
        if r.value.nextInf == [] {
          return true;
        }
        var n := NextOf(c, r.value);
        if n.None? {
          return false;
        }
        NextIsShorter(inf);
        next, inf, key := n.value, r.value.nextInf, i.key;
      } else {
        if next != Unset && next != AsUuid(i.uuid) {
          return false;
        }
        if !c.verify(key, i.sig, i.digest, i.algo) || i.digest != c.hash(r.value.shdr + i.uuid + i.taVersion +
            r.value.img) {
          return false;
        }
        return i.uuid == arg;
      }
    }
  }

  // ----- What an accepted file is -----

  /** Image k of a file passes, given what the image before it holds. */
  predicate PassesBehind(c: Crypto, images: seq<Parsed>, k: nat, arg: Bytes)
    requires 0 < k < |images|
  {
    var before := images[k - 1];
    && before.image.Subkey?
    && NextOf(c, before).Some?
    && Passes(c, before.image.key, NextOf(c, before).value, before.image.maxDepth, images[k], arg)
  }

  predicate Accepted(c: Crypto, images: seq<Parsed>, key: Key, next: NextUuid, maxDepth: int, arg: Bytes) {
    && images != []
    && Passes(c, key, next, maxDepth, images[0], arg)
    && forall k :: 0 < k < |images| ==> PassesBehind(c, images, k, arg)
  }

  /**
   * For every file: the verifier accepts it exactly when it can be read as a chain
   * in which the first image passes under the given key, and every other image
   * under the key, name and depth of the subkey before it.
   */
  lemma {:induction false} VerifiesIff(c: Crypto, inf: Bytes, key: Key, next: NextUuid, maxDepth: int, arg: Bytes)
    ensures Verifies(c, inf, key, next, maxDepth, arg) <==>
            ReadChain(inf).Chain? && Accepted(c, ReadChain(inf).images, key, next, maxDepth, arg)
    decreases |inf|
  {
    var p := Parse(inf);
    if p.Ok? && p.value.image.Subkey? && p.value.nextInf != [] {
      NextIsShorter(inf);
      var rest := ReadChain(p.value.nextInf);
      var n := NextOf(c, p.value);
      if n.Some? {
        VerifiesIff(c, p.value.nextInf, p.value.image.key, n.value, p.value.image.maxDepth, arg);
      }
      NotEmpty(p.value.nextInf);
      if rest.Chain? {
        AcceptedStep(c, p.value, rest.images, key, next, maxDepth, arg);
      }
    }
  }

  lemma AcceptedStep(c: Crypto, p: Parsed, rest: seq<Parsed>, key: Key, next: NextUuid, maxDepth: int, arg: Bytes)
    requires p.image.Subkey? && rest != []
    ensures Accepted(c, [p] + rest, key, next, maxDepth, arg) <==>
            Passes(c, key, next, maxDepth, p, arg) && NextOf(c, p).Some?
            && Accepted(c, rest, p.image.key, NextOf(c, p).value, p.image.maxDepth, arg)
  {
    var images := [p] + rest;
    assert images[1] == rest[0];
    assert PassesBehind(c, images, 1, arg) <==>
           NextOf(c, p).Some? && Passes(c, p.image.key, NextOf(c, p).value, p.image.maxDepth, rest[0], arg);
    forall k | 0 < k < |rest| ensures PassesBehind(c, images, k + 1, arg) == PassesBehind(c, rest, k, arg) {
    }
    if forall k :: 0 < k < |rest| ==> PassesBehind(c, rest, k, arg) {
      forall k | 1 < k < |images| ensures PassesBehind(c, images, k, arg) {
        assert PassesBehind(c, rest, k - 1, arg);
      }
    }
  }

  /** What the digest of an image in a file has to cover: its header, and its payload with what is in front of it. */
  function Covered(p: Parsed): (s: Bytes) {
    p.shdr + (if p.image.Ta? then p.image.uuid + p.image.taVersion else []) + p.img
  }

  /** The signature is right under the key, and the digest that is signed is that of the image. */
  predicate Authentic(c: Crypto, p: Parsed, key: Key) {
    c.verify(key, p.image.sig, p.image.digest, p.image.algo) && p.image.digest == c.hash(Covered(p))
  }

  /** The image has the UUID derived from the name behind the subkey before it, and a subkey a smaller depth. */
  predicate Follows(c: Crypto, before: Parsed, p: Parsed) {
    && before.image.Subkey? && before.image.nameSize > 0 && c.decodes(before.nameImg)
    && p.image.uuid == c.uuid5(before.image.uuid, Str(before.nameImg))
    && (p.image.Subkey? ==> p.image.maxDepth < before.image.maxDepth)
  }

  /** The image is authentic, has a UUID, and if it is a TA, it is the one asked for. */
  predicate Genuine(c: Crypto, p: Parsed, key: Key, arg: Bytes) {
    Authentic(c, p, key) && |p.image.uuid| == UUID_SIZE && (p.image.Ta? ==> p.image.uuid == arg)
  }

  /** Image k of a file is what the verifier is to let through. */
  predicate Trusted(c: Crypto, images: seq<Parsed>, k: nat, root: Key, arg: Bytes)
    requires k < |images|
  {
    if k == 0 then Genuine(c, images[0], root, arg)
    else Follows(c, images[k - 1], images[k]) && Genuine(c, images[k], images[k - 1].image.key, arg)
  }

  lemma TrustedFirst(c: Crypto, images: seq<Parsed>, root: Key, arg: Bytes)
    requires images != []
    ensures Passes(c, root, Unset, -1, images[0], arg) <==> Trusted(c, images, 0, root, arg)
  {
    var p := images[0];
    assert p.image.Subkey? ==> p.shdr + [] + p.img == p.shdr + p.img;
    assert p.image.Ta? ==> p.shdr + p.image.uuid + p.image.taVersion + p.img ==
                           p.shdr + (p.image.uuid + p.image.taVersion) + p.img;
  }

  lemma TrustedBehind(c: Crypto, images: seq<Parsed>, k: nat, root: Key, arg: Bytes)
    requires 0 < k < |images|
    ensures PassesBehind(c, images, k, arg) <==> Trusted(c, images, k, root, arg)
  {
    var p := images[k];
    assert p.image.Subkey? ==> p.shdr + [] + p.img == p.shdr + p.img;
    assert p.image.Ta? ==> p.shdr + p.image.uuid + p.image.taVersion + p.img ==
                           p.shdr + (p.image.uuid + p.image.taVersion) + p.img;
  }

  /**
   * What acceptance is worth, for every file: it can be read to its end, and every
   * image of it is signed with the key of the image before it, the first one with the
   * root key, over a digest of header and payload, is the one that the name before it
   * says, and is the TA that is asked for if it is a TA.
   */
  lemma AcceptedIsTrusted(c: Crypto, file: Bytes, root: Key, arg: Bytes)
    ensures Verifies(c, file, root, Unset, -1, arg) <==>
            && ReadChain(file).Chain? && ReadChain(file).images != []
            && forall k :: 0 <= k < |ReadChain(file).images| ==> Trusted(c, ReadChain(file).images, k, root, arg)
  {
    VerifiesIff(c, file, root, Unset, -1, arg);
    if ReadChain(file).Chain? && ReadChain(file).images != [] {
      TrustedAll(c, ReadChain(file).images, root, arg);
    }
  }

  lemma TrustedAll(c: Crypto, images: seq<Parsed>, root: Key, arg: Bytes)
    requires images != []
    ensures Accepted(c, images, root, Unset, -1, arg) <==>
            forall k :: 0 <= k < |images| ==> Trusted(c, images, k, root, arg)
  {
    TrustedFirst(c, images, root, arg);
    forall k | 0 < k < |images| ensures PassesBehind(c, images, k, arg) <==> Trusted(c, images, k, root, arg) {
      TrustedBehind(c, images, k, root, arg);
    }
    if forall k :: 0 <= k < |images| ==> Trusted(c, images, k, root, arg) {
      assert Trusted(c, images, 0, root, arg);
    }
  }

  /** One image with a wrong signature or a wrong digest, wherever it is, and the file is refused. */
  lemma WrongImageIsRefused(c: Crypto, file: Bytes, root: Key, arg: Bytes, k: nat)
    requires ReadChain(file).Chain? && k < |ReadChain(file).images|
    requires var images := ReadChain(file).images;
             !Authentic(c, images[k], if k == 0 || images[k - 1].image.Ta? then root else images[k - 1].image.key)
    ensures !Verifies(c, file, root, Unset, -1, arg)
  {
    AcceptedIsTrusted(c, file, root, arg);
    assert !Trusted(c, ReadChain(file).images, k, root, arg);
  }

  /** An accepted file has at most max_depth + 1 subkeys, counted by the root subkey, and perhaps a TA. */
  lemma DepthBoundsTheChain(c: Crypto, images: seq<Parsed>, key: Key, arg: Bytes, k: nat)
    requires Accepted(c, images, key, Unset, -1, arg) && k < |images| && images[k].image.Subkey?
    ensures images[0].image.Subkey? && k + images[k].image.maxDepth <= images[0].image.maxDepth
    decreases k
  {
    if k > 0 {
      assert PassesBehind(c, images, k, arg);
      DepthBoundsTheChain(c, images, key, arg, k - 1);
    }
  }

  // ----- Signed chains and the verifier -----

  /** The UUIDs of a chain follow its names, and a TA at its end has the UUID that is asked for. */
  predicate Named(c: Crypto, links: seq<Link>, last: Image, arg: Bytes) {
    && (forall k :: 0 <= k < |links| ==> NamedLink(c, links[k], ImageAt(links, last, k + 1)))
    && (last.Ta? ==> last.uuid == arg)
  }

  predicate NamedLink(c: Crypto, l: Link, next: Image) {
    && l.image.Subkey? && l.image.nameSize > 0 && c.decodes(Ljust(l.name, l.image.nameSize))
    && next.uuid == c.uuid5(l.image.uuid, Str(l.name))
  }

  /** Padding does not change the string a name holds. */
  lemma {:induction false} StrOfPadded(name: Bytes, size: nat)
    ensures Str(Ljust(name, size)) == Str(name)
    decreases |name|
  {
    var padded := Ljust(name, size);
    if name != [] && name[0] != 0 {
      StrOfPadded(name[1..], if size > 0 then size - 1 else 0);
      assert padded[1..] == Ljust(name[1..], if size > 0 then size - 1 else 0);
    } else if name == [] && padded != [] {
      assert padded[0] == 0;
    }
  }

  /** Signature and digest of an image are right under the key. */
  predicate AuthenticImage(c: Crypto, i: Image, key: Key) {
    i.Fits() && c.verify(key, i.sig, i.digest, i.algo) && i.digest == c.hash(i.Hashed())
  }

  /** The key that image k of a chain has to be signed with. */
  function KeyAt(links: seq<Link>, root: Key, k: nat): (key: Key)
    requires k <= |links| && forall j :: 0 <= j < |links| ==> links[j].image.Subkey?
  {
    if k == 0 then root else links[k - 1].image.key
  }

  predicate Shallower(l: Link, next: Image) {
    l.image.Subkey? && (next.Subkey? ==> next.maxDepth < l.image.maxDepth)
  }

  predicate LinkOk(c: Crypto, l: Link, next: Image) {
    Shallower(l, next) && NamedLink(c, l, next)
  }

  predicate GenuineImage(c: Crypto, i: Image, key: Key, arg: Bytes) {
    AuthenticImage(c, i, key) && (i.Ta? ==> i.uuid == arg)
  }

  lemma GenuineIff(c: Crypto, p: Parsed, i: Image, key: Key, arg: Bytes)
    requires IsParsed(p, i)
    ensures Genuine(c, p, key, arg) <==> GenuineImage(c, i, key, arg)
  {
    CoveredIsHashed(p, i);
  }

  /** Image k of a chain is signed as it has to be, and its depth, its UUID and that of a TA are right. */
  predicate ImageOk(c: Crypto, links: seq<Link>, last: Image, root: Key, arg: Bytes, k: nat)
    requires k <= |links| && GoodChain(links, last)
  {
    && GenuineImage(c, ImageAt(links, last, k), KeyAt(links, root, k), arg)
    && (k > 0 ==> LinkOk(c, links[k - 1], ImageAt(links, last, k)))
  }

  /** Image k of `r` is image k of the chain, and has the name behind it. */
  predicate ReadAt(links: seq<Link>, last: Image, r: seq<Parsed>, k: nat)
    requires k <= |links| && GoodChain(links, last)
  {
    && |r| == |links| + 1 && IsParsed(r[k], ImageAt(links, last, k))
    && (k < |links| ==> r[k].nameImg == Ljust(links[k].name, links[k].image.nameSize))
  }

  /** What is parsed of image k. */
  lemma {:induction false} ParsedAt(links: seq<Link>, last: Image, k: nat)
    requires GoodChain(links, last) && k <= |links|
    ensures ReadAt(links, last, ParsedChain(links, last), k)
    decreases |links|
  {
    if links != [] {
      var rest := links[1..];
      ParsedTail(links, last);
      ParsedAt(rest, last, if k == 0 then 0 else k - 1);
      if k == 0 {
        LinkIsParsed(links[0], FileOf(rest, last));
      } else {
        assert ImageAt(rest, last, k - 1) == ImageAt(links, last, k);
        assert ParsedChain(links, last)[k] == ParsedChain(rest, last)[k - 1];
        assert k < |links| ==> rest[k - 1] == links[k];
      }
    } else {
      LastIsParsed(last);
    }
  }

  lemma LinkIsParsed(l: Link, rest: Bytes)
    requires GoodLink(l)
    ensures IsParsed(ParsedLink(l, rest), l.image)
  {
  }

  lemma LastIsParsed(last: Image)
    requires last.Fits()
    ensures IsParsed(ParsedLast(last), last)
  {
  }

  lemma ParsedTail(links: seq<Link>, last: Image)
    requires GoodChain(links, last) && links != []
    ensures GoodChain(links[1..], last)
    ensures ParsedChain(links, last) == [ParsedLink(links[0], FileOf(links[1..], last))] + ParsedChain(links[1..], last)
  {
  }

  /** An image with the bytes it is made of. */
  predicate IsParsed(p: Parsed, i: Image) {
    i.Fits() && p.image == i && p.shdr == i.Header() && p.img == i.Body()
  }

  lemma CoveredIsHashed(p: Parsed, i: Image)
    requires IsParsed(p, i)
    ensures Covered(p) == i.Hashed()
  {
  }

  lemma NamedIsFollowed(c: Crypto, before: Parsed, l: Link, p: Parsed, next: Image)
    requires l.image.Subkey? && before.image == l.image && before.nameImg == Ljust(l.name, l.image.nameSize)
    requires p.image == next
    ensures Follows(c, before, p) <==> LinkOk(c, l, next)
  {
    StrOfPadded(l.name, l.image.nameSize);
  }

  /** One image behind another, parsed and as it was. */
  lemma TrustedPair(c: Crypto, before: Parsed, l: Link, p: Parsed, i: Image, arg: Bytes)
    requires GoodLink(l) && before.image == l.image && before.nameImg == Ljust(l.name, l.image.nameSize)
    requires IsParsed(p, i)
    ensures Follows(c, before, p) && Genuine(c, p, before.image.key, arg) <==>
            LinkOk(c, l, i) && GenuineImage(c, i, l.image.key, arg)
  {
    NamedIsFollowed(c, before, l, p, i);
    GenuineIff(c, p, i, l.image.key, arg);
  }

  /** `r` is the chain as it is parsed, as far as image k and the image before it go. */
  predicate ReadTo(links: seq<Link>, last: Image, r: seq<Parsed>, k: nat)
    requires k <= |links|
  {
    && |r| == |links| + 1 && IsParsed(r[k], ImageAt(links, last, k))
    && (k > 0 ==> GoodLink(links[k - 1]) && r[k - 1].image == links[k - 1].image &&
                  r[k - 1].nameImg == Ljust(links[k - 1].name, links[k - 1].image.nameSize))
  }

  lemma TrustedImage(c: Crypto, links: seq<Link>, last: Image, r: seq<Parsed>, root: Key, arg: Bytes, k: nat)
    requires k <= |links| && GoodChain(links, last) && ReadTo(links, last, r, k)
    ensures Trusted(c, r, k, root, arg) <==> ImageOk(c, links, last, root, arg, k)
  {
    if k == 0 {
      GenuineIff(c, r[0], ImageAt(links, last, 0), root, arg);
    } else {
      TrustedPair(c, r[k - 1], links[k - 1], r[k], ImageAt(links, last, k), arg);
    }
  }

  lemma ReadsTo(links: seq<Link>, last: Image, k: nat)
    requires GoodChain(links, last) && k <= |links|
    ensures ReadTo(links, last, ParsedChain(links, last), k)
  {
    ParsedAt(links, last, k);
    if k > 0 {
      ParsedAt(links, last, k - 1);
    }
    ReadBoth(links, last, ParsedChain(links, last), k);
  }

  lemma ReadBoth(links: seq<Link>, last: Image, r: seq<Parsed>, k: nat)
    requires k <= |links| && GoodChain(links, last) && ReadAt(links, last, r, k)
    requires k > 0 ==> ReadAt(links, last, r, k - 1)
    ensures ReadTo(links, last, r, k)
  {
  }

  /**
   * The file of any chain of images, signed or not, is accepted exactly when every
   * image carries a signature that is right under the key before it, the digest of
   * its header and payload, the UUID derived from the name before it, a smaller depth
   * than the subkey before it, and, for a TA, the UUID asked for.
   */
  lemma ChainVerifiesIff(c: Crypto, links: seq<Link>, last: Image, root: Key, arg: Bytes)
    requires GoodChain(links, last) && NamesFit(links)
    ensures Verifies(c, FileOf(links, last), root, Unset, -1, arg) <==>
            forall k :: 0 <= k <= |links| ==> ImageOk(c, links, last, root, arg, k)
  {
    ChainRoundTrip(links, last);
    AcceptedIsTrusted(c, FileOf(links, last), root, arg);
    var images := ParsedChain(links, last);
    ParsedAt(links, last, 0);
    forall k | 0 <= k <= |links|
      ensures Trusted(c, images, k, root, arg) <==> ImageOk(c, links, last, root, arg, k)
    {
      ReadsTo(links, last, k);
      TrustedImage(c, links, last, images, root, arg, k);
    }
    if Verifies(c, FileOf(links, last), root, Unset, -1, arg) {
      forall k | 0 <= k <= |links| ensures ImageOk(c, links, last, root, arg, k) {
        assert Trusted(c, images, k, root, arg);
      }
    }
  }

  lemma SignedIsGenuine(c: Crypto, i: Image, key: Key, arg: Bytes)
    requires c.Sound() && SignedBy(c, i, key)
    ensures GenuineImage(c, i, key, arg) <==> (i.Ta? ==> i.uuid == arg)
  {
  }

  lemma SignedPairOk(c: Crypto, l: Link, i: Image, arg: Bytes)
    requires c.Sound() && Succeeds(c, l, i)
    ensures LinkOk(c, l, i) && GenuineImage(c, i, l.image.key, arg) <==> NamedLink(c, l, i) && (i.Ta? ==> i.uuid == arg)
  {
    SignedIsGenuine(c, i, l.image.key, arg);
  }

  /** In a signed chain only the names are left to check. */
  lemma SignedImageOk(c: Crypto, links: seq<Link>, last: Image, root: Key, arg: Bytes, k: nat)
    requires c.Sound() && SignedChain(c, links, last, root) && k <= |links|
    ensures ImageOk(c, links, last, root, arg, k) <==>
            && (ImageAt(links, last, k).Ta? ==> ImageAt(links, last, k).uuid == arg)
            && (k > 0 ==> NamedLink(c, links[k - 1], ImageAt(links, last, k)))
  {
    if k == 0 {
      SignedIsGenuine(c, ImageAt(links, last, 0), root, arg);
    } else {
      assert Succeeds(c, links[k - 1], ImageAt(links, last, k - 1 + 1));
      SignedPairOk(c, links[k - 1], ImageAt(links, last, k), arg);
    }
  }

  lemma NamedIsOk(c: Crypto, links: seq<Link>, last: Image, root: Key, arg: Bytes)
    requires c.Sound() && SignedChain(c, links, last, root) && Named(c, links, last, arg)
    ensures forall k :: 0 <= k <= |links| ==> ImageOk(c, links, last, root, arg, k)
  {
    forall k | 0 <= k <= |links| ensures ImageOk(c, links, last, root, arg, k) {
      SignedImageOk(c, links, last, root, arg, k);
      if k > 0 {
        assert NamedLink(c, links[k - 1], ImageAt(links, last, k - 1 + 1));
      }
    }
  }

  lemma OkIsNamed(c: Crypto, links: seq<Link>, last: Image, root: Key, arg: Bytes)
    requires GoodChain(links, last) && forall k :: 0 <= k <= |links| ==> ImageOk(c, links, last, root, arg, k)
    ensures Named(c, links, last, arg)
  {
    assert ImageOk(c, links, last, root, arg, |links|);
    forall k | 0 <= k < |links| ensures NamedLink(c, links[k], ImageAt(links, last, k + 1)) {
      assert ImageOk(c, links, last, root, arg, k + 1);
    }
  }

  /**
   * What the signing commands write is accepted exactly when every subkey with an
   * image behind it has room for a name, the image behind it has the UUID derived
   * from that name, and the TA has the UUID asked for. A subkey without room for a
   * name (an identity subkey) is therefore never accepted with an image behind it.
   */
  lemma SignedChainVerifiesIff(c: Crypto, links: seq<Link>, last: Image, root: Key, arg: Bytes)
    requires c.Sound() && SignedChain(c, links, last, root)
    ensures Verifies(c, FileOf(links, last), root, Unset, -1, arg) <==> Named(c, links, last, arg)
  {
    ChainVerifiesIff(c, links, last, root, arg);
    if Named(c, links, last, arg) {
      NamedIsOk(c, links, last, root, arg);
    } else if forall k :: 0 <= k <= |links| ==> ImageOk(c, links, last, root, arg, k) {
      OkIsNamed(c, links, last, root, arg);
    }
  }

  /** An image behind an identity subkey is refused, even one that carries the UUID of the subkey. */
  lemma IdentitySubkeyIsRefused(c: Crypto, links: seq<Link>, last: Image, root: Key, arg: Bytes, k: nat)
    requires c.Sound() && SignedChain(c, links, last, root) && k < |links| && links[k].image.nameSize == 0
    ensures !Verifies(c, FileOf(links, last), root, Unset, -1, arg)
  {
    SignedChainVerifiesIff(c, links, last, root, arg);
    assert !NamedLink(c, links[k], ImageAt(links, last, k + 1));
  }
}

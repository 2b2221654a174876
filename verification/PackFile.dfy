// The git pack that gitstore.go sends to git index-pack: object headers of
// variable length, the running digest, and the file as a whole.

module PackFile {
  import opened Wrappers
  import opened RecordMarking

  // The parts of the file that libraries make: zlib streams and SHA-1 digests.
  // C is what objects contain, size its length in bytes.
  datatype Codec<!C> = Codec(
    size: C -> nat, deflate: C -> Bytes, inflate: Bytes -> Option<(C, Bytes)>, sha: Bytes -> Bytes)

  // A zlib stream says where it ends; a digest has 20 bytes.
  ghost predicate GoodCodec<C(!new)>(k: Codec<C>) {
    && (forall c, t :: k.inflate(k.deflate(c) + t) == Some((c, t)))
    && (forall x :: |k.sha(x)| == 20)
  }

  datatype ObjKind = Tree | Blob

  datatype PackObj<C> = PackObj(kind: ObjKind, content: C)

  function Code(k: ObjKind): nat {
    if k.Tree? then 2 else 3
  }

  // ----- object headers

  const CONT: nat := 0x80

  // The size bits that follow the first byte, seven at a time, low ones first.
  function Varint(size: nat): Bytes {
    if size == 0 then []
    else [(size % 128 + if size / 128 != 0 then CONT else 0) as byte] + Varint(size / 128)
  }

  function ObjHeader(typ: nat, size: nat): Bytes
    requires typ < 8
  {
    [(typ * 16 + size % 16 + if size / 16 != 0 then CONT else 0) as byte] + Varint(size / 16)
  }

  // How git reads them.
  function ReadVarint(s: Bytes): Option<(nat, Bytes)> {
    if s == [] then None
    else if s[0] as nat < 128 then Some((s[0] as nat, s[1..]))
    else
      match ReadVarint(s[1..])
      case None => None
      case Some((hi, rest)) => Some((s[0] as nat - 128 + 128 * hi, rest))
  }

  datatype Head = Head(typ: nat, size: nat, rest: Bytes)

  function ReadObjHeader(s: Bytes): Option<Head> {
    if s == [] then None
    else
      var b := s[0] as nat;
      var typ, low := b % 128 / 16, b % 16;
      if b < 128 then Some(Head(typ, low, s[1..]))
      else
        match ReadVarint(s[1..])
        case None => None
        case Some((hi, rest)) => Some(Head(typ, low + 16 * hi, rest))
  }

  lemma {:induction false} ReadVarintBack(size: nat, tail: Bytes)
    requires size > 0
    ensures ReadVarint(Varint(size) + tail) == Some((size, tail))
    decreases size
  {
    var s := Varint(size) + tail;
    assert s[1..] == Varint(size / 128) + tail;
    if size / 128 != 0 {
      ReadVarintBack(size / 128, tail);
    }
  }

  // Reading a header back gives the type and size and consumes its bytes only.
  lemma ReadHeaderBack(typ: nat, size: nat, tail: Bytes)
    requires typ < 8
    ensures ReadObjHeader(ObjHeader(typ, size) + tail) == Some(Head(typ, size, tail))
  {
    var s := ObjHeader(typ, size) + tail;
    assert s[1..] == Varint(size / 16) + tail;
    FirstByte(typ, size % 16, if size / 16 != 0 then 1 else 0);
    if size / 16 != 0 { ReadVarintBack(size / 16, tail); }
  }

  lemma FirstByte(typ: nat, low: nat, cont: nat)
    requires typ < 8 && low < 16 && cont < 2
    ensures var b := cont * CONT + typ * 16 + low; b % CONT / 16 == typ && b % 16 == low && (b >= CONT <==> cont == 1)
  {
    SplitAt128(cont, typ * 16 + low);
    SplitAt16(typ, low);
    SplitAt16(cont * 8 + typ, low);
  }

  lemma SplitAt128(q: nat, r: nat)
    requires r < 128
    ensures (q * 128 + r) % 128 == r
  {
  }

  lemma SplitAt16(q: nat, r: nat)
    requires r < 16
    ensures (q * 16 + r) / 16 == q && (q * 16 + r) % 16 == r
  {
  }

  lemma {:induction false} VarintIsShort(s: Bytes)
    requires ReadVarint(s).Some?
    ensures var (v, rest) := ReadVarint(s).value; |s| - |rest| >= |Varint(v)| && |s| > |rest|
  {
    if s[0] as nat >= CONT {
      VarintIsShort(s[1..]);
      var (hi, rest) := ReadVarint(s[1..]).value;
      assert (s[0] as nat - CONT + 128 * hi) / 128 == hi;
    } else {
      assert s[0] as nat / 128 == 0;
      assert Varint(0) == [];
    }
  }

  // No header that reads as this type and size is shorter.
  lemma HeaderIsMinimal(s: Bytes)
    requires ReadObjHeader(s).Some?
    ensures var h := ReadObjHeader(s).value; h.typ < 8 && |s| - |h.rest| >= |ObjHeader(h.typ, h.size)|
  {
    var b := s[0] as nat;
    if b >= CONT {
      VarintIsShort(s[1..]);
      var (hi, rest) := ReadVarint(s[1..]).value;
      assert (b % 16 + 16 * hi) / 16 == hi;
    } else {
      assert b % 16 / 16 == 0;
    }
  }

  method WriteObjHeader(typ: nat, len: nat) returns (hdrBuf: Bytes)
    requires typ < 8
    ensures hdrBuf == ObjHeader(typ, len)
  {
    var size := len;
    var firstSizeBits := size % 16;
    size := size / 16;
    var firstByte := typ * 16 + firstSizeBits;
    if size != 0 {
      firstByte := firstByte + CONT;
    }
    hdrBuf := [firstByte as byte];
    while size != 0
      invariant hdrBuf + Varint(size) == ObjHeader(typ, len)
    {
      var b := size % 128;
      ghost var before := hdrBuf;
      ghost var was := size;
      size := size / 128;
      if size != 0 {
        b := b + CONT;
      }
      hdrBuf := hdrBuf + [b as byte];
      assert before + Varint(was) == before + ([b as byte] + Varint(size)) == hdrBuf + Varint(size);
    }
  }

  // ----- the file

  const MAGIC: Bytes := [0x50, 0x41, 0x43, 0x4B]

  function PackHeader(n: nat): Bytes {
    MAGIC + PutUint32(2) + PutUint32(n % W)
  }

  function ObjBytes<C>(k: Codec<C>, o: PackObj<C>): Bytes {
    ObjHeader(Code(o.kind), k.size(o.content)) + k.deflate(o.content)
  }

  function AllBytes<C>(k: Codec<C>, objs: seq<PackObj<C>>): Bytes {
    if objs == [] then [] else AllBytes(k, objs[..|objs| - 1]) + ObjBytes(k, objs[|objs| - 1])
  }

  // How git reads it: the header, so many objects, the digest, the end.
  function ReadObjs<C>(k: Codec<C>, n: nat, s: Bytes): Option<(seq<PackObj<C>>, Bytes)> {
    if n == 0 then Some(([], s))
    else
      match ReadObjHeader(s)
      case None => None
      case Some(h) =>
        match k.inflate(h.rest)
        case None => None
        case Some((content, rest)) =>
          if k.size(content) != h.size || h.typ !in {2, 3} then None
          else
            match ReadObjs(k, n - 1, rest)
            case None => None
            case Some((objs, end)) => Some(([PackObj(if h.typ == 2 then Tree else Blob, content)] + objs, end))
  }

  function ReadPack<C>(k: Codec<C>, s: Bytes): Option<seq<PackObj<C>>> {
    if |s| < 12 || s[..4] != [0x50, 0x41, 0x43, 0x4B] || Uint32(s[4..8]) != 2 then None
    else
      match ReadObjs(k, Uint32(s[8..12]), s[12..])
      case None => None
      case Some((objs, end)) =>
        if |end| <= |s| && end == k.sha(s[..|s| - |end|]) then Some(objs) else None
  }

  lemma ReadObjBack<C(!new)>(k: Codec<C>, o: PackObj<C>, tail: Bytes)
    requires GoodCodec(k)
    ensures ReadObjHeader(ObjBytes(k, o) + tail) ==
            Some(Head(Code(o.kind), k.size(o.content), k.deflate(o.content) + tail))
    ensures k.inflate(k.deflate(o.content) + tail) == Some((o.content, tail))
  {
    hide ReadObjHeader, ObjHeader;
    ReadHeaderBack(Code(o.kind), k.size(o.content), k.deflate(o.content) + tail);
    assert ObjBytes(k, o) + tail == ObjHeader(Code(o.kind), k.size(o.content)) + (k.deflate(o.content) + tail);
  }

  lemma {:induction false} AllBytesFirst<C>(k: Codec<C>, o: PackObj<C>, objs: seq<PackObj<C>>)
    ensures AllBytes(k, [o] + objs) == ObjBytes(k, o) + AllBytes(k, objs)
  {
    hide ObjBytes;
    if objs == [] {
      assert [o] + objs == [o] && [o][..0] == [];
      assert AllBytes(k, [o]) == AllBytes(k, []) + ObjBytes(k, o);
    } else {
      var t, last := objs[..|objs| - 1], objs[|objs| - 1];
      assert ([o] + objs)[..|objs|] == [o] + t;
      AllBytesFirst(k, o, t);
    }
  }

  lemma {:induction false} ReadObjsBack<C(!new)>(k: Codec<C>, objs: seq<PackObj<C>>, tail: Bytes)
    requires GoodCodec(k)
    ensures ReadObjs(k, |objs|, AllBytes(k, objs) + tail) == Some((objs, tail))
  {
    hide ReadObjHeader, ObjBytes, GoodCodec;
    if objs == [] {
      assert [] + tail == tail;
    } else {
      var o, t := objs[0], objs[1..];
      assert objs == [o] + t;
      AllBytesFirst(k, o, t);
      var more := AllBytes(k, t) + tail;
      assert AllBytes(k, objs) + tail == ObjBytes(k, o) + more;
      ReadObjBack(k, o, more);
      ReadObjsBack(k, t, tail);
    }
  }

  lemma {:induction false} AllBytesAppend<C>(k: Codec<C>, a: seq<PackObj<C>>, b: seq<PackObj<C>>)
    ensures AllBytes(k, a + b) == AllBytes(k, a) + AllBytes(k, b)
  {
    hide ObjBytes;
    if b == [] {
      assert a + b == a;
    } else {
      var t := b[..|b| - 1];
      assert (a + b)[..|a + b| - 1] == a + t;
      AllBytesAppend(k, a, t);
    }
  }

  // The bytes before the digest read as the objects that the header counts,
  // followed by the rest. The count has 32 bits.
  lemma BodyReads<C(!new)>(k: Codec<C>, objs: seq<PackObj<C>>, tail: Bytes)
    requires GoodCodec(k)
    ensures var s := PackHeader(|objs|) + AllBytes(k, objs) + tail;
            var m := |objs| % W;
            && |s| >= 12 && s[..4] == MAGIC && Uint32(s[4..8]) == 2 && Uint32(s[8..12]) == m
            && ReadObjs(k, m, s[12..]) == Some((objs[..m], AllBytes(k, objs[m..]) + tail))
  {
    hide Uint32, PutUint32, ReadObjs, AllBytes, GoodCodec;
    var m := |objs| % W;
    GetPut(2);
    GetPut(m);
    var h := PackHeader(|objs|);
    var s := h + AllBytes(k, objs) + tail;
    assert h[4..8] == PutUint32(2) && h[8..12] == PutUint32(m);
    assert s[4..8] == h[4..8] && s[8..12] == h[8..12] && s[..4] == h[..4] == MAGIC;
    assert objs == objs[..m] + objs[m..];
    AllBytesAppend(k, objs[..m], objs[m..]);
    var more := AllBytes(k, objs[m..]) + tail;
    assert s[12..] == AllBytes(k, objs[..m]) + more;
    ReadObjsBack(k, objs[..m], more);
  }

  // A pack reads back as the objects written exactly if it is closed with the
  // digest of all that comes before it, ...
  lemma PackReads<C(!new)>(k: Codec<C>, objs: seq<PackObj<C>>, end: Bytes)
    requires GoodCodec(k) && |objs| < W
    ensures var body := PackHeader(|objs|) + AllBytes(k, objs);
            ReadPack(k, body + end) == if end == k.sha(body) then Some(objs) else None
  {
    hide Uint32, PutUint32, ReadObjs, PackHeader, AllBytes, GoodCodec;
    var body := PackHeader(|objs|) + AllBytes(k, objs);
    BodyReads(k, objs, end);
    assert objs[..|objs|] == objs && objs[|objs|..] == [];
    NothingLeft(k, end);
    assert (body + end)[..|body|] == body;
  }

  lemma NothingLeft<C>(k: Codec<C>, end: Bytes)
    ensures AllBytes(k, []) + end == end
  {
  }

  // ... and as none if it has more objects than the header can count.
  lemma TooManyObjs<C(!new)>(k: Codec<C>, objs: seq<PackObj<C>>, end: Bytes)
    requires GoodCodec(k) && |objs| >= W && |end| >= 20
    ensures ReadPack(k, PackHeader(|objs|) + AllBytes(k, objs) + end) == None
  {
    hide Uint32, PutUint32, ReadObjs, PackHeader, AllBytes;
    BodyReads(k, objs, end);
    NotEmpty(k, objs[|objs| % W..]);
  }

  lemma NotEmpty<C>(k: Codec<C>, objs: seq<PackObj<C>>)
    requires objs != []
    ensures AllBytes(k, objs) != []
  {
    hide Varint;
  }

  // ----- packWriter

  class PackWriter<C> {
    const k: Codec<C>
    var s1: Bytes // what the running digest has been given
    var closed: bool
    var buf: Bytes

    // The running digest covers exactly what is in the buffer.
    ghost predicate Open()
      reads this
    {
      !closed && s1 == buf
    }

    constructor (k: Codec<C>, numObjs: nat)
      ensures Open() && buf == PackHeader(numObjs) && this.k == k
    {
      this.k := k;
      var hdr := MAGIC;
      hdr := hdr + PutUint32(2);
      hdr := hdr + PutUint32(numObjs % W);
      s1, closed, buf := hdr, false, hdr;
    }

    method Write(p: Bytes) returns (ok: bool)
      modifies this
      ensures ok == !old(closed) && closed == old(closed)
      ensures buf == (if ok then old(buf) + p else old(buf)) && s1 == (if ok then old(s1) + p else old(s1))
    {
      if closed {
        return false;
      }
      buf := buf + p;
      s1 := s1 + p;
      return true;
    }

    method WritePackObject(o: PackObj<C>) returns (ok: bool)
      modifies this
      ensures ok == !old(closed) && closed == old(closed)
      ensures old(Open()) ==> Open() && buf == old(buf) + ObjBytes(k, o)
      ensures old(closed) ==> buf == old(buf) && s1 == old(s1)
    {
      hide ObjHeader;
      var hdrBuf := WriteObjHeader(Code(o.kind), k.size(o.content));
      var written := Write(hdrBuf);
      var zlib := k.deflate(o.content);
      ok := Write(zlib);
      Assoc(old(buf), hdrBuf, zlib, []);
    }

    // The guard tests the digest, which is always there, and not the flag.
    method Close()
      modifies this
      ensures closed && s1 == old(s1) && buf == old(buf) + k.sha(s1)
    {
      buf := buf + k.sha(s1);
      closed := true;
    }
  }

  // The pack of a list of objects, as SendToGit writes it, reads back as them,
  // up to the number that its header can count.
  method WritePack<C(!new)>(k: Codec<C>, objs: seq<PackObj<C>>) returns (pack: Bytes)
    requires GoodCodec(k)
    ensures ReadPack(k, pack) == if |objs| < W then Some(objs) else None
  {
    hide ReadPack, PackHeader, AllBytes, ObjBytes, GoodCodec;
    var pw := new PackWriter(k, |objs|);
    var i := 0;
    AllBytesSnoc(k, objs, 0);
    assert PackHeader(|objs|) + [] == PackHeader(|objs|);
    while i < |objs|
      invariant 0 <= i <= |objs| && pw.Open() && pw.k == k
      invariant pw.buf == PackHeader(|objs|) + AllBytes(k, objs[..i])
    {
      var ok := pw.WritePackObject(objs[i]);
      AllBytesSnoc(k, objs, i);
      assert PackHeader(|objs|) + AllBytes(k, objs[..i]) + ObjBytes(k, objs[i])
          == PackHeader(|objs|) + (AllBytes(k, objs[..i]) + ObjBytes(k, objs[i]));
      i := i + 1;
    }
    assert objs[..i] == objs;
    ghost var body := pw.buf;
    pw.Close();
    DigestLength(k, body);
    if |objs| < W { PackReads(k, objs, k.sha(body)); } else { TooManyObjs(k, objs, k.sha(body)); }
    pack := pw.buf;
  }

  lemma AllBytesSnoc<C>(k: Codec<C>, objs: seq<PackObj<C>>, i: nat)
    requires i <= |objs|
    ensures AllBytes(k, objs[..0]) == []
    ensures i < |objs| ==> AllBytes(k, objs[..i + 1]) == AllBytes(k, objs[..i]) + ObjBytes(k, objs[i])
  {
    if i < |objs| { assert objs[..i + 1][..i] == objs[..i]; }
  }

  lemma DigestLength<C(!new)>(k: Codec<C>, s: Bytes)
    requires GoodCodec(k)
    ensures |k.sha(s)| == 20
  {
  }

  // Closed a second time, which no error prevents, it reads as no pack at all.
  method CloseTwice<C(!new)>(k: Codec<C>, objs: seq<PackObj<C>>, pw: PackWriter<C>)
    requires GoodCodec(k) && |objs| < W && pw.k == k && pw.Open()
    requires pw.buf == PackHeader(|objs|) + AllBytes(k, objs)
    modifies pw
    ensures ReadPack(k, pw.buf) == None
  {
    hide ReadPack, PackHeader, AllBytes;
    ghost var body := pw.buf;
    pw.Close();
    pw.Close();
    var d := k.sha(body);
    assert body + d + d == body + (d + d);
    assert |d + d| == 40;
    PackReads(k, objs, d + d);
  }
}

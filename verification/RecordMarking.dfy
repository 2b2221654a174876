// RPC record marking (section 11 of RFC 5531): the NFS server's reader and
// writer (conn.go) and the portmapper's (portmap.go).

module RecordMarking {
  import opened Wrappers

  type Bytes = seq<byte>

  // Bit 31 of a fragment header marks the last fragment.
  const LAST: nat := 0x8000_0000
  const W: nat := 0x1_0000_0000

  const MAX_RPC_SIZE: nat := 10 * 0x10_0000
  const MAX_RECORD: nat := 64 * 0x400

  datatype Error = EOF | UnexpectedEOF | TooLarge

  datatype Record = Record(msg: Bytes, rest: Bytes)

  function PutUint32(x: nat): (s: Bytes)
    requires x < W
    ensures |s| == 4
  {
    var y := x / 0x100;
    var z := y / 0x100;
    [(z / 0x100) as byte, (z % 0x100) as byte, (y % 0x100) as byte, (x % 0x100) as byte]
  }

  function Uint32(s: Bytes): (x: nat)
    requires |s| == 4
    ensures x < W
  {
    ((s[0] as nat * 0x100 + s[1] as nat) * 0x100 + s[2] as nat) * 0x100 + s[3] as nat
  }

  lemma GetPut(x: nat)
    requires x < W
    ensures Uint32(PutUint32(x)) == x
  {
  }

  lemma PutGet(s: Bytes)
    requires |s| == 4
    ensures PutUint32(Uint32(s)) == s
  {
    var z := s[0] as nat * 0x100 + s[1] as nat;
    var y := z * 0x100 + s[2] as nat;
    LastByte(s[0] as nat, s[1] as nat);
    LastByte(z, s[2] as nat);
    LastByte(y, s[3] as nat);
  }

  lemma LastByte(q: nat, r: nat)
    requires r < 0x100
    ensures (q * 0x100 + r) / 0x100 == q && (q * 0x100 + r) % 0x100 == r
  {
  }

  lemma Assoc(a: Bytes, b: Bytes, c: Bytes, d: Bytes)
    ensures a + b + c + d == a + b + (c + d) && a + b + c == a + (b + c)
  {
  }

  // ----- what a stream holds

  function Header(len: nat, last: bool): Bytes
    requires len < LAST
  {
    PutUint32(if last then len + 0x8000_0000 else len)
  }

  // A record as a series of fragments, of which the last one is marked.
  function Frame(frags: seq<Bytes>): Bytes
    requires frags != [] && forall f :: f in frags ==> |f| < LAST
  {
    if |frags| == 1 then Header(|frags[0]|, true) + frags[0]
    else Header(|frags[0]|, false) + frags[0] + Frame(frags[1..])
  }

  function Concat(frags: seq<Bytes>): Bytes {
    if frags == [] then [] else frags[0] + Concat(frags[1..])
  }

  // io.ReadFull's error for a stream that ends early.
  function Short(s: Bytes): Error {
    if s == [] then EOF else UnexpectedEOF
  }

  // The record at the head of s, after fragments with the content so far.
  function Read(s: Bytes, limit: nat, sofar: Bytes): Result<Record, Error>
    decreases |s|
  {
    if |s| < 4 then Err(Short(s))
    else
      var h := Uint32(s[..4]);
      var n := h % LAST;
      var body := s[4..];
      if |sofar| + n > limit then Err(TooLarge)
      else if |body| < n then Err(Short(body))
      else if h >= LAST then Ok(Record(sofar + body[..n], body[n..]))
      else Read(body[n..], limit, sofar + body[..n])
  }

  lemma ReadHeader(len: nat, last: bool, more: Bytes, limit: nat, sofar: Bytes, body: Bytes)
    requires len < LAST && |body| == len && |sofar| + len <= limit
    ensures Read(Header(len, last) + body + more, limit, sofar) ==
            if last then Ok(Record(sofar + body, more)) else Read(more, limit, sofar + body)
  {
    hide PutUint32, Uint32;
    GetPut(if last then len + LAST else len);
    var s := Header(len, last) + body + more;
    Assoc(Header(len, last), body, more, []);
    assert s[..4] == Header(len, last);
    assert s[4..] == body + more;
    assert (body + more)[..len] == body && (body + more)[len..] == more;
  }

  // However a record is divided into fragments, and whatever follows it, it is
  // read back whole and nothing more is consumed.
  lemma {:induction false} ReadFrame(frags: seq<Bytes>, limit: nat, sofar: Bytes, tail: Bytes)
    requires frags != [] && (forall f :: f in frags ==> |f| < LAST) && |sofar| + |Concat(frags)| <= limit
    ensures Read(Frame(frags) + tail, limit, sofar) == Ok(Record(sofar + Concat(frags), tail))
    decreases |frags|
  {
    hide Read, Header;
    var f, rest := frags[0], frags[1..];
    if |frags| == 1 {
      assert Concat(frags) == f + Concat([]) == f;
      ReadHeader(|f|, true, tail, limit, sofar, f);
    } else {
      ReadHeader(|f|, false, Frame(rest) + tail, limit, sofar, f);
      Assoc(Header(|f|, false), f, Frame(rest), tail);
      Assoc(sofar, f, Concat(rest), []);
      ReadFrame(rest, limit, sofar + f, tail);
    }
  }

  // Whatever is read was framed in the stream, and is within the limit.
  lemma {:induction false} ReadIsFramed(s: Bytes, limit: nat, sofar: Bytes) returns (frags: seq<Bytes>)
    requires Read(s, limit, sofar).Ok?
    ensures frags != [] && forall f :: f in frags ==> |f| < LAST
    ensures var r := Read(s, limit, sofar).value;
            s == Frame(frags) + r.rest && r.msg == sofar + Concat(frags) && |r.msg| <= limit
    decreases |s|
  {
    hide Uint32, Header, Frame;
    var h := Uint32(s[..4]);
    var n := h % LAST;
    var f, more := s[4..][..n], s[4..][n..];
    HeaderIs(s[..4]);
    assert s == s[..4] + f + more;
    if h >= LAST {
      frags := [f];
      FrameOne(f);
    } else {
      var rest := ReadIsFramed(more, limit, sofar + f);
      var tail := Read(more, limit, sofar + f).value.rest;
      hide Read;
      frags := [f] + rest;
      FrameMore(f, rest);
      Assoc(Header(n, false), f, Frame(rest), tail);
      Assoc(sofar, f, Concat(rest), []);
    }
  }

  lemma HeaderIs(s: Bytes)
    requires |s| == 4
    ensures s == Header(Uint32(s) % LAST, Uint32(s) >= LAST)
  {
    hide PutUint32, Uint32;
    PutGet(s);
  }

  lemma FrameOne(f: Bytes)
    requires |f| < LAST
    ensures Frame([f]) == Header(|f|, true) + f && Concat([f]) == f
  {
    hide Header;
    assert Concat([f]) == f + Concat([]);
  }

  lemma FrameMore(f: Bytes, rest: seq<Bytes>)
    requires |f| < LAST && rest != [] && forall x :: x in rest ==> |x| < LAST
    ensures Frame([f] + rest) == Header(|f|, false) + f + Frame(rest) && Concat([f] + rest) == f + Concat(rest)
  {
    hide Header;
    assert ([f] + rest)[1..] == rest;
  }

  // Readers with different limits agree on every stream, even a bad one, on
  // which the stricter one does not object to the size.
  lemma {:induction false} LimitsAgree(s: Bytes, small: nat, large: nat, sofar: Bytes)
    requires small <= large && Read(s, small, sofar) != Err(TooLarge)
    ensures Read(s, large, sofar) == Read(s, small, sofar)
    decreases |s|
  {
    if |s| >= 4 {
      var h := Uint32(s[..4]);
      var n := h % LAST;
      hide Uint32;
      if |s[4..]| >= n && h < LAST { LimitsAgree(s[4..][n..], small, large, sofar + s[4..][..n]); }
    }
  }

  // ----- the readers

  class Reader {
    var rest: Bytes

    constructor (s: Bytes)
      ensures rest == s
    {
      rest := s;
    }

    // io.ReadFull
    method ReadFull(n: nat) returns (r: Result<Bytes, Error>)
      modifies this
      ensures old(|rest|) >= n ==> r == Ok(old(rest)[..n]) && rest == old(rest)[n..]
      ensures old(|rest|) < n ==> r == Err(Short(old(rest))) && rest == []
    {
      if |rest| < n {
        r := Err(Short(rest));
        rest := [];
      } else {
        r := Ok(rest[..n]);
        rest := rest[n..];
      }
    }
  }

  method ReadRPCRecord(br: Reader) returns (r: Result<Bytes, Error>)
    modifies br
    ensures var want := Read(old(br.rest), 10 * 1024 * 1024, []);
            if want.Ok? then r == Ok(want.value.msg) && br.rest == want.value.rest else r == Err(want.error)
  {
    var msg: Bytes := [];
    while true
      invariant Read(br.rest, MAX_RPC_SIZE, msg) == Read(old(br.rest), MAX_RPC_SIZE, [])
      decreases |br.rest|
    {
      hide Uint32;
      ghost var s := br.rest;
      var hdr := br.ReadFull(4);
      if hdr.Err? {
        return Err(hdr.error);
      }
      var frag := Uint32(hdr.value);
      var last := frag >= LAST;
      var n := frag % LAST;
      if n + |msg| > MAX_RPC_SIZE {
        return Err(TooLarge);
      }
      var buf := br.ReadFull(n);
      if buf.Err? {
        return Err(buf.error);
      }
      if msg == [] && last {
        assert [] + buf.value == buf.value;
        return Ok(buf.value);
      }
      msg := msg + buf.value;
      if last {
        return Ok(msg);
      }
    }
  }

  // The portmapper's reader, which appends room for a fragment and fills it.
  method ReadRecord(br: Reader) returns (r: Result<Bytes, Error>)
    modifies br
    ensures var want := Read(old(br.rest), 64 * 1024, []);
            if want.Ok? then r == Ok(want.value.msg) && br.rest == want.value.rest else r == Err(want.error)
  {
    var rec: Bytes := [];
    while true
      invariant Read(br.rest, MAX_RECORD, rec) == Read(old(br.rest), MAX_RECORD, [])
      decreases |br.rest|
    {
      hide Uint32;
      var hdr := br.ReadFull(4);
      if hdr.Err? {
        return Err(hdr.error);
      }
      var h := Uint32(hdr.value);
      var n := h % LAST;
      if |rec| + n > MAX_RECORD {
        return Err(TooLarge);
      }
      var start := |rec|;
      rec := rec + seq(n, _ => 0 as byte);
      var buf := br.ReadFull(n);
      if buf.Err? {
        return Err(buf.error);
      }
      rec := rec[..start] + buf.value;
      if h >= LAST {
        return Ok(rec);
      }
    }
  }

  // Both readers, on the same stream, unless the record exceeds 64 KiB.
  lemma ReadersAgree(s: Bytes)
    requires Read(s, MAX_RECORD, []) != Err(TooLarge)
    ensures Read(s, MAX_RPC_SIZE, []) == Read(s, MAX_RECORD, [])
  {
    LimitsAgree(s, MAX_RECORD, MAX_RPC_SIZE, []);
  }

  // ----- the writers

  // The 32-bit length with bit 31 set.
  function Marked(len: nat): (h: nat)
    ensures h < W && h >= LAST
  {
    if len % W >= LAST then len % W else len % W + LAST
  }

  // Both writers send a message as one fragment.
  function Message(msg: Bytes): Bytes {
    PutUint32(Marked(|msg|)) + msg
  }

  function Stream(msgs: seq<Bytes>): Bytes {
    if msgs == [] then [] else Message(msgs[0]) + Stream(msgs[1..])
  }

  // A message comes back from a reader exactly if it is within the limit.
  lemma MessageComesBack(msg: Bytes, tail: Bytes, limit: nat)
    requires limit < LAST
    ensures Read(Message(msg) + tail, limit, []) == Ok(Record(msg, tail)) <==> |msg| <= limit
  {
    hide Read, PutUint32, Uint32;
    if |msg| <= limit {
      assert Message(msg) == Header(|msg|, true) + msg;
      ReadHeader(|msg|, true, tail, limit, [], msg);
      assert [] + msg == msg;
    } else if Read(Message(msg) + tail, limit, []).Ok? {
      var frags := ReadIsFramed(Message(msg) + tail, limit, []);
    }
  }

  lemma {:induction false} StreamSnoc(msgs: seq<Bytes>, m: Bytes)
    ensures Stream(msgs + [m]) == Stream(msgs) + Message(m)
  {
    hide Message;
    if msgs == [] {
      assert [m][1..] == [] && Stream([m]) == Message(m) + Stream([]);
    } else {
      assert (msgs + [m])[1..] == msgs[1..] + [m];
      StreamSnoc(msgs[1..], m);
    }
  }

  class Writer {
    var sent: Bytes

    constructor ()
      ensures sent == []
    {
      sent := [];
    }

    // serializeWrites, for the messages that come down its channel.
    method SerializeWrites(msgs: seq<Bytes>)
      modifies this
      ensures sent == old(sent) + Stream(msgs)
    {
      var i := 0;
      assert msgs[..0] == [];
      while i < |msgs|
        invariant 0 <= i <= |msgs|
        invariant sent == old(sent) + Stream(msgs[..i])
      {
        hide PutUint32, Marked;
        var fragmentBuf := PutUint32(Marked(|msgs[i]|));
        sent := sent + fragmentBuf;
        sent := sent + msgs[i];
        StreamSnoc(msgs[..i], msgs[i]);
        assert msgs[..i + 1] == msgs[..i] + [msgs[i]];
        i := i + 1;
      }
      assert msgs[..i] == msgs;
    }
  }

  // What one end writes is what the other end's read loop gets, message by
  // message, up to a clean end of the stream.
  method Converse(msgs: seq<Bytes>) returns (got: seq<Bytes>, end: Error)
    requires forall m :: m in msgs ==> |m| <= MAX_RPC_SIZE
    ensures got == msgs && end == EOF
  {
    hide Message, Read, Stream;
    var w := new Writer();
    w.SerializeWrites(msgs);
    var br := new Reader(w.sent);
    got := [];
    assert msgs[0..] == msgs;
    while true
      invariant |got| <= |msgs| && got == msgs[..|got|] && br.rest == Stream(msgs[|got|..])
      decreases |msgs| - |got|
    {
      var left := msgs[|got|..];
      StreamHead(left);
      if left != [] { MessageComesBack(left[0], Stream(left[1..]), MAX_RPC_SIZE); }
      var r := ReadRPCRecord(br);
      if r.Err? {
        return got, r.error;
      }
      got := got + [r.value];
    }
  }

  lemma StreamHead(msgs: seq<Bytes>)
    ensures msgs == [] ==> Read(Stream(msgs), MAX_RPC_SIZE, []) == Err(EOF)
    ensures msgs != [] ==> Stream(msgs) == Message(msgs[0]) + Stream(msgs[1..])
  {
    hide Message;
  }
}

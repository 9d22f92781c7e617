/**
 Packets on a connection: a 16-bit serial number, a message id, a size, a body.
 Both sides count serials from 1 and wrap at 2^16.
 */
module Framing {
  import opened Bytes
  import opened Wire

  datatype Packet = Packet(id: nat, body: seq<byte>)

  const HEADER_SIZE: int := 10

  function Frame(serial: nat, p: Packet): (b: seq<byte>)
    ensures |b| == HEADER_SIZE + |p.body|
  {
    LE(serial, 2) + LE(p.id, 4) + LE(|p.body|, 4) + p.body
  }

  function NextSerial(serial: nat): (r: nat) {
    (serial + 1) % TWO_16
  }

  function Frames(serial: nat, ps: seq<Packet>): (b: seq<byte>)
    decreases |ps|
  {
    if ps == [] then [] else Frame(serial, ps[0]) + Frames(NextSerial(serial), ps[1..])
  }

  /** Why a reader stopped: the stream ended or broke off, or a packet was refused. */
  datatype End = Ended | Refused

  datatype Delivered = Delivered(packets: seq<Packet>, end: End)

  /** The body size a reader acts on: the client's is a signed 32-bit integer, and
      a negative one counts as no body. */
  function BodySize(lang: Lang, size: nat): (n: nat) {
    if lang == Client && size >= TWO_31 then 0 else size
  }

  /** What a reader that expects `serial` delivers of the stream `b`.  Only the
      server has a size limit; 0 is none. */
  function Deliver(lang: Lang, limit: int, serial: nat, b: seq<byte>): (r: Delivered)
    decreases |b|
  {
    if |b| < HEADER_SIZE then Delivered([], Ended)
    else
      var size := U32(b, 6);
      var n := BodySize(lang, size);
      if lang == Go && limit > 0 && size > limit then Delivered([], Refused)
      else if U16(b, 0) != serial then Delivered([], Refused)
      else if |b| < HEADER_SIZE + n then Delivered([], if lang == Go then Refused else Ended)
      else
        var rest := Deliver(lang, limit, NextSerial(serial), b[HEADER_SIZE + n..]);
        Delivered([Packet(U32(b, 2), b[HEADER_SIZE..HEADER_SIZE + n])] + rest.packets, rest.end)
  }

  // ----- the connection

  function Flatten(chunks: seq<seq<byte>>): (b: seq<byte>) {
    if chunks == [] then [] else chunks[0] + Flatten(chunks[1..])
  }

  /** The receiving end of a connection: bytes arrive in pieces of any size. */
  class Connection {
    var chunks: seq<seq<byte>>

    ghost function Bytes(): (b: seq<byte>)
      reads this
    {
      Flatten(chunks)
    }

    constructor (pieces: seq<seq<byte>>)
      ensures chunks == pieces
    {
      chunks := pieces;
    }

    /** Up to `max` of the bytes that have arrived; nothing only at the end. */
    method Receive(max: nat) returns (b: seq<byte>)
      requires max > 0
      modifies this
      ensures old(Bytes()) == b + Bytes() && |b| <= max
      ensures b == [] ==> old(Bytes()) == []
    {
      while chunks != [] && chunks[0] == []
        invariant Bytes() == old(Bytes())
        decreases |chunks|
      {
        assert Flatten(chunks) == [] + Flatten(chunks[1..]);
        chunks := chunks[1..];
      }
      if chunks == [] {
        return [];
      }
      var first, rest := chunks[0], chunks[1..];
      var n := if |first| <= max then |first| else max;
      b := first[..n];
      chunks := [first[n..]] + rest;
      assert chunks[1..] == rest;
      assert first == first[..n] + first[n..];
    }

    /** io.ReadFull. */
    method ReadFull(n: nat) returns (ok: bool, b: seq<byte>)
      modifies this
      ensures ok <==> |old(Bytes())| >= n
      ensures ok ==> b == old(Bytes())[..n] && Bytes() == old(Bytes())[n..]
    {
      b := [];
      while |b| < n
        invariant |b| <= n && old(Bytes()) == b + Bytes()
        decreases n - |b|
      {
        var piece := Receive(n - |b|);
        if piece == [] {
          return false, b;
        }
        assert b + piece + Bytes() == b + (piece + Bytes());
        b := b + piece;
      }
      ok := true;
    }
  }

  // ----- the server

  class PrivatePacketWriter {
    var sendser: nat

    constructor ()
      ensures sendser == 1
    {
      sendser := 1;
    }

    method Call(p: Packet) returns (data: seq<byte>)
      modifies this
      ensures data == Frame(old(sendser), p) && sendser == NextSerial(old(sendser))
    {
      data := LE(sendser, 2) + LE(p.id, 4) + LE(|p.body|, 4);
      data := data + p.body;
      sendser := (sendser + 1) % TWO_16;
    }
  }

  class PrivatePacketReader {
    var recvser: nat

    constructor ()
      ensures recvser == 1
    {
      recvser := 1;
    }

    /** One packet, or why there is none. */
    method Call(conn: Connection, limit: int) returns (r: Result<Packet>, end: End)
      requires this as object != conn
      modifies this, conn
      ensures r.Ok? ==>
        && |conn.Bytes()| < |old(conn.Bytes())|
        && recvser == NextSerial(old(recvser))
        && Deliver(Go, limit, old(recvser), old(conn.Bytes()))
           == var rest := Deliver(Go, limit, recvser, conn.Bytes()); Delivered([r.value] + rest.packets, rest.end)
      ensures r.Err? ==> Deliver(Go, limit, old(recvser), old(conn.Bytes())) == Delivered([], end)
    {
      hide FromLE, Flatten;
      ghost var b := conn.Bytes();
      var ok, header := conn.ReadFull(10);
      if !ok {
        return Err, Ended;
      }
      HeaderFields(b, header);
      var ser := U16(header, 0);
      var id := U32(header, 2);
      var bodySize := U32(header, 6);
      if limit > 0 && bodySize > limit {
        return Err, Refused;
      }
      if recvser != ser {
        return Err, Refused;
      }
      var data;
      ok, data := conn.ReadFull(bodySize);
      if !ok {
        return Err, Refused;
      }
      assert b[10..][..bodySize] == b[10..10 + bodySize];
      assert b[10..][bodySize..] == b[10 + bodySize..];
      recvser := (recvser + 1) % TWO_16;
      return Ok(Packet(id, data)), Ended;
    }
  }

  lemma HeaderFields(b: seq<byte>, header: seq<byte>)
    requires |b| >= 10 && header == b[..10]
    ensures U16(header, 0) == U16(b, 0) && U32(header, 2) == U32(b, 2) && U32(header, 6) == U32(b, 6)
  {
    assert header[0..2] == b[0..2] && header[2..6] == b[2..6] && header[6..10] == b[6..10];
  }

  /** The receive thread: packets until one is refused or the stream ends. */
  method RecvThread(conn: Connection, limit: int) returns (r: Delivered)
    modifies conn
    ensures r == Deliver(Go, limit, 1, old(conn.Bytes()))
  {
    hide Flatten, Deliver;
    var reader := new PrivatePacketReader();
    ghost var goal := Deliver(Go, limit, 1, conn.Bytes());
    var packets := [];
    assert [] + goal.packets == goal.packets;
    while true
      invariant fresh(reader)
      invariant var rest := Deliver(Go, limit, reader.recvser, conn.Bytes());
        goal == Delivered(packets + rest.packets, rest.end)
      decreases |conn.Bytes()|
    {
      var p, end := reader.Call(conn, limit);
      if p.Err? {
        assert packets + [] == packets;
        return Delivered(packets, end);
      }
      ghost var rest := Deliver(Go, limit, reader.recvser, conn.Bytes());
      assert packets + ([p.value] + rest.packets) == packets + [p.value] + rest.packets;
      packets := packets + [p.value];
    }
  }

  // ----- the client

  class ClientSocket {
    var sendTag: nat
    var recvTag: nat
    const conn: Connection

    constructor (c: Connection)
      ensures sendTag == 1 && recvTag == 1 && conn == c
    {
      sendTag, recvTag, conn := 1, 1, c;
    }

    method GenSendTag() returns (tag: nat)
      modifies this`sendTag
      ensures tag == old(sendTag) && sendTag == NextSerial(old(sendTag))
    {
      tag := sendTag;
      sendTag := (sendTag + 1) % TWO_16;
    }

    method SendPacket(p: Packet) returns (data: seq<byte>)
      modifies this`sendTag
      ensures data == Frame(old(sendTag), p) && sendTag == NextSerial(old(sendTag))
    {
      var tag := GenSendTag();
      data := LE(tag, 2) + LE(p.id, 4) + LE(|p.body|, 4) + p.body;
    }

    /** Receives through a buffer of 1024 bytes until `total` bytes have come. */
    method ReadPacket(total: nat) returns (ok: bool, stream: seq<byte>)
      requires total > 0
      modifies conn
      ensures ok <==> |old(conn.Bytes())| >= total
      ensures ok ==> stream == old(conn.Bytes())[..total] && conn.Bytes() == old(conn.Bytes())[total..]
    {
      var size := total;
      stream := [];
      while true
        invariant 0 < size <= total && |stream| == total - size
        invariant old(conn.Bytes()) == stream + conn.Bytes()
        decreases size
      {
        var need := if size < 1024 then size else 1024;
        var piece := conn.Receive(need);
        if |piece| <= 0 {
          return false, stream;
        }
        size := size - |piece|;
        assert stream + piece + conn.Bytes() == stream + (piece + conn.Bytes());
        stream := stream + piece;
        if size == 0 {
          return true, stream;
        }
      }
    }

    /** Header, check of the tag, body if there is one. */
    method ReadOne() returns (r: Result<Packet>, end: End)
      requires this as object != conn
      modifies this`recvTag, conn
      ensures r.Ok? ==>
        && |conn.Bytes()| < |old(conn.Bytes())|
        && recvTag == NextSerial(old(recvTag))
        && Deliver(Client, 0, old(recvTag), old(conn.Bytes()))
           == var rest := Deliver(Client, 0, recvTag, conn.Bytes()); Delivered([r.value] + rest.packets, rest.end)
      ensures r.Err? ==> Deliver(Client, 0, old(recvTag), old(conn.Bytes())) == Delivered([], end)
    {
      hide FromLE, Flatten;
      ghost var b := conn.Bytes();
      var ok, header := ReadPacket(10);
      if !ok {
        return Err, Ended;
      }
      HeaderFields(b, header);
      var tag := U16(header, 0);
      var id := U32(header, 2);
      var size := U32(header, 6);
      if tag != recvTag {
        return Err, Refused;
      }
      var dataSize := if size >= TWO_31 then size - TWO_32 else size;
      Size32(header);
      var data: seq<byte> := [];
      if dataSize > 0 {
        ok, data := ReadPacket(dataSize);
        if !ok {
          return Err, Ended;
        }
        assert b[10..][..dataSize] == b[10..10 + dataSize];
        assert b[10..][dataSize..] == b[10 + dataSize..];
      } else {
        assert b[10..10 + 0] == [] && b[10 + 0..] == b[10..];
      }
      recvTag := (recvTag + 1) % TWO_16;
      return Ok(Packet(id, data)), Ended;
    }
  }

  lemma Size32(header: seq<byte>)
    requires |header| >= 10
    ensures U32(header, 6) < TWO_32
  {
    FromLEBound(header[6..10]);
    Powers();
  }

  method ClientRecvThread(conn: Connection) returns (r: Delivered)
    modifies conn
    ensures r == Deliver(Client, 0, 1, old(conn.Bytes()))
  {
    hide Flatten, Deliver;
    var socket := new ClientSocket(conn);
    ghost var goal := Deliver(Client, 0, 1, conn.Bytes());
    var packets := [];
    assert [] + goal.packets == goal.packets;
    while true
      invariant fresh(socket) && socket.conn == conn
      invariant var rest := Deliver(Client, 0, socket.recvTag, conn.Bytes());
        goal == Delivered(packets + rest.packets, rest.end)
      decreases |conn.Bytes()|
    {
      var p, end := socket.ReadOne();
      if p.Err? {
        assert packets + [] == packets;
        return Delivered(packets, end);
      }
      ghost var rest := Deliver(Client, 0, socket.recvTag, conn.Bytes());
      assert packets + ([p.value] + rest.packets) == packets + [p.value] + rest.packets;
      packets := packets + [p.value];
    }
  }

  // ----- what is sent arrives

  /** A packet the reader takes: the id and the size fit their fields and the limit. */
  predicate Sendable(lang: Lang, limit: int, p: Packet) {
    && p.id < TWO_32
    && |p.body| < (if lang == Client then TWO_31 else TWO_32)
    && (lang == Go && limit > 0 ==> |p.body| <= limit)
  }

  predicate AllSendable(lang: Lang, limit: int, ps: seq<Packet>) {
    forall i :: 0 <= i < |ps| ==> Sendable(lang, limit, ps[i])
  }

  lemma FrameFields(serial: nat, p: Packet, rest: seq<byte>)
    requires serial < TWO_16 && p.id < TWO_32 && |p.body| < TWO_32
    ensures var b := Frame(serial, p) + rest;
      && U16(b, 0) == serial && U32(b, 2) == p.id && U32(b, 6) == |p.body|
      && b[HEADER_SIZE..HEADER_SIZE + |p.body|] == p.body
      && b[HEADER_SIZE + |p.body|..] == rest
  {
    hide LE, FromLE, Pow256;
    var b := Frame(serial, p) + rest;
    Powers();
    LERoundTrip(serial, 2);
    LERoundTrip(p.id, 4);
    LERoundTrip(|p.body|, 4);
    assert b[0..2] == LE(serial, 2);
    assert b[2..6] == LE(p.id, 4);
    assert b[6..10] == LE(|p.body|, 4);
  }

  /** A frame with the expected serial is delivered; any other stops the reader. */
  lemma DeliverFrame(lang: Lang, limit: int, expected: nat, serial: nat, p: Packet, rest: seq<byte>)
    requires serial < TWO_16 && Sendable(lang, limit, p)
    ensures serial != expected ==> Deliver(lang, limit, expected, Frame(serial, p) + rest) == Delivered([], Refused)
    ensures serial == expected ==>
      var r := Deliver(lang, limit, NextSerial(expected), rest);
      Deliver(lang, limit, expected, Frame(serial, p) + rest) == Delivered([p] + r.packets, r.end)
  {
    hide U16, U32, LE, Frame;
    FrameFields(serial, p, rest);
  }

  /**
   What becomes of a frame, for every size its size field can hold.  The server refuses a
   body above its limit; the client takes a size of 2^31 and more for a negative one, delivers
   an empty packet, and reads the body as further frames.
   */
  lemma FrameOutcome(lang: Lang, limit: int, expected: nat, serial: nat, p: Packet, rest: seq<byte>)
    requires serial < 0x1_0000 && p.id < 0x1_0000_0000 && |p.body| < 0x1_0000_0000
    ensures Deliver(lang, limit, expected, Frame(serial, p) + rest)
      == if serial != expected || (lang == Go && 0 < limit < |p.body|) then Delivered([], Refused)
         else if lang == Go || |p.body| < 0x8000_0000 then
           var r := Deliver(lang, limit, (serial + 1) % 0x1_0000, rest);
           Delivered([p] + r.packets, r.end)
         else
           var r := Deliver(lang, limit, (serial + 1) % 0x1_0000, p.body + rest);
           Delivered([Packet(p.id, [])] + r.packets, r.end)
  {
    hide U16, U32, LE, Frame;
    FrameFields(serial, p, rest);
    var b := Frame(serial, p) + rest;
    if lang == Client && |p.body| >= TWO_31 {
      FrameTail(serial, p, rest);
      assert b[HEADER_SIZE..HEADER_SIZE] == [];
    }
  }

  lemma FrameTail(serial: nat, p: Packet, rest: seq<byte>)
    ensures (Frame(serial, p) + rest)[HEADER_SIZE..] == p.body + rest
  {
    hide LE;
  }

  /** The packets that can be sent are exactly those that a reader delivers as they are. */
  lemma SendableExactly(lang: Lang, limit: int, p: Packet)
    requires p.id < 0x1_0000_0000 && |p.body| < 0x1_0000_0000
    ensures Sendable(lang, limit, p) <==> Deliver(lang, limit, 1, Frame(1, p)).packets == [p]
  {
    hide Deliver, Frame;
    assert Frame(1, p) + [] == Frame(1, p) && p.body + [] == p.body;
    FrameOutcome(lang, limit, 1, 1, p, []);
    DeliverNothing(lang, limit, 2);
    assert [p] + [] == [p];
    if lang == Client && |p.body| >= TWO_31 {
      var r := Deliver(lang, limit, 2, p.body);
      assert ([Packet(p.id, [])] + r.packets)[0] != p;
    }
  }

  /** A frame that breaks off is not delivered; only the server takes a missing body for a fault. */
  lemma CutShort(lang: Lang, limit: int, serial: nat, p: Packet, k: nat)
    requires serial < TWO_16 && Sendable(lang, limit, p) && k < |Frame(serial, p)|
    ensures Deliver(lang, limit, serial, Frame(serial, p)[..k])
      == Delivered([], if lang == Go && k >= 10 then Refused else Ended)
  {
    hide U16, U32, LE, Frame;
    if k >= 10 {
      var f := Frame(serial, p);
      assert f + [] == f;
      FrameFields(serial, p, []);
      SameHeader(f, k);
    }
  }

  lemma SameHeader(f: seq<byte>, k: nat)
    requires 10 <= k <= |f|
    ensures U16(f[..k], 0) == U16(f, 0) && U32(f[..k], 2) == U32(f, 2) && U32(f[..k], 6) == U32(f, 6)
  {
    hide FromLE;
    assert f[..k][0..2] == f[0..2] && f[..k][2..6] == f[2..6] && f[..k][6..10] == f[6..10];
  }

  /** A connection that breaks inside a frame: everything before it was delivered. */
  lemma BrokenStream(lang: Lang, limit: int, ps: seq<Packet>, p: Packet, k: nat)
    requires AllSendable(lang, limit, ps) && Sendable(lang, limit, p)
    requires var serial := (1 + |ps|) % 0x1_0000; k < |Frame(serial, p)|
    ensures var serial := (1 + |ps|) % 0x1_0000;
      Deliver(lang, limit, 1, Frames(1, ps) + Frame(serial, p)[..k])
      == Delivered(ps, if lang == Go && k >= 10 then Refused else Ended)
  {
    hide Deliver, Frame, Frames, Sendable;
    var serial := (1 + |ps|) % 0x1_0000;
    SerialIs(1, |ps|);
    DeliverFrames(lang, limit, 1, ps, Frame(serial, p)[..k]);
    CutShort(lang, limit, serial, p, k);
    assert ps + [] == ps;
  }

  function SerialAfter(serial: nat, n: nat): (r: nat)
    decreases n
  {
    if n == 0 then serial else SerialAfter(NextSerial(serial), n - 1)
  }

  /** However many packets: all are delivered, in order, and what follows is read
      with the serial both sides have then reached. */
  lemma {:induction false} DeliverFrames(lang: Lang, limit: int, serial: nat, ps: seq<Packet>, rest: seq<byte>)
    requires serial < TWO_16 && AllSendable(lang, limit, ps)
    ensures var r := Deliver(lang, limit, SerialAfter(serial, |ps|), rest);
      Deliver(lang, limit, serial, Frames(serial, ps) + rest) == Delivered(ps + r.packets, r.end)
    decreases |ps|
  {
    hide Deliver, Frame, Sendable;
    var r := Deliver(lang, limit, SerialAfter(serial, |ps|), rest);
    if ps == [] {
      assert Frames(serial, ps) + rest == rest;
      assert ps + r.packets == r.packets;
    } else {
      var tail := Frames(NextSerial(serial), ps[1..]) + rest;
      assert Frames(serial, ps) + rest == Frame(serial, ps[0]) + tail;
      DeliverFrame(lang, limit, serial, serial, ps[0], tail);
      DeliverFrames(lang, limit, NextSerial(serial), ps[1..], rest);
      assert [ps[0]] + (ps[1..] + r.packets) == ps + r.packets;
    }
  }

  lemma StreamArrives(lang: Lang, limit: int, ps: seq<Packet>)
    requires AllSendable(lang, limit, ps)
    ensures Deliver(lang, limit, 1, Frames(1, ps)) == Delivered(ps, Ended)
  {
    hide Frames;
    DeliverFrames(lang, limit, 1, ps, []);
    assert Frames(1, ps) + [] == Frames(1, ps);
    assert ps + [] == ps;
  }

  /** What the server's writer emits for `ps`, one call per packet. */
  method WriteAll(ps: seq<Packet>) returns (frames: seq<seq<byte>>)
    ensures |frames| == |ps| && Flatten(frames) == Frames(1, ps)
    ensures forall i :: 0 <= i < |ps| ==> frames[i] == Frame(SerialAfter(1, i), ps[i])
  {
    hide Frame, Flatten, Frames;
    var writer := new PrivatePacketWriter();
    frames := [];
    SentNone(ps);
    for i := 0 to |ps|
      invariant Sent(ps, i, frames, writer.sendser)
    {
      SentMore(ps, i, frames, writer.sendser);
      var data := writer.Call(ps[i]);
      frames := frames + [data];
    }
    SentAll(ps, frames, writer.sendser);
  }

  /** What the client emits for `ps`, one call per packet. */
  method SendAll(socket: ClientSocket, ps: seq<Packet>) returns (frames: seq<seq<byte>>)
    requires socket.sendTag == 1
    modifies socket`sendTag
    ensures |frames| == |ps| && Flatten(frames) == Frames(1, ps)
    ensures forall i :: 0 <= i < |ps| ==> frames[i] == Frame(SerialAfter(1, i), ps[i])
  {
    hide Frame, Flatten, Frames;
    frames := [];
    SentNone(ps);
    for i := 0 to |ps|
      invariant Sent(ps, i, frames, socket.sendTag)
    {
      SentMore(ps, i, frames, socket.sendTag);
      var data := socket.SendPacket(ps[i]);
      frames := frames + [data];
    }
    SentAll(ps, frames, socket.sendTag);
  }

  /** The first `i` packets are out, and `serial` is the next one's. */
  ghost predicate Sent(ps: seq<Packet>, i: nat, frames: seq<seq<byte>>, serial: nat) {
    && i == |frames| <= |ps| && serial == SerialAfter(1, i)
    && Flatten(frames) + Frames(serial, ps[i..]) == Frames(1, ps)
    && forall k :: 0 <= k < i ==> frames[k] == Frame(SerialAfter(1, k), ps[k])
  }

  lemma SentNone(ps: seq<Packet>)
    ensures Sent(ps, 0, [], 1)
  {
    hide Frames;
    FramesNone(1, []);
    assert ps[0..] == ps && [] + Frames(1, ps) == Frames(1, ps);
  }

  lemma SentMore(ps: seq<Packet>, i: nat, frames: seq<seq<byte>>, serial: nat)
    requires i < |ps| && Sent(ps, i, frames, serial)
    ensures Sent(ps, i + 1, frames + [Frame(serial, ps[i])], NextSerial(serial))
  {
    hide Frame, Flatten, Frames, SerialAfter;
    FramesFirst(serial, ps[i..]);
    SerialSnoc(1, i);
    assert ps[i..][1..] == ps[i + 1..];
    var data, tail := Frame(serial, ps[i]), Frames(NextSerial(serial), ps[i + 1..]);
    FlattenSnoc(frames, data);
    assert Flatten(frames) + (data + tail) == Flatten(frames) + data + tail;
  }

  lemma SentAll(ps: seq<Packet>, frames: seq<seq<byte>>, serial: nat)
    requires Sent(ps, |ps|, frames, serial)
    ensures Flatten(frames) == Frames(1, ps)
  {
    hide Flatten, Frames;
    FramesNone(serial, ps[|ps|..]);
    assert Flatten(frames) + [] == Flatten(frames);
  }

  /** `b` cut into pieces of the given sizes; what is left over is the last piece. */
  function Cut(b: seq<byte>, sizes: seq<nat>): (pieces: seq<seq<byte>>)
    decreases |sizes|
  {
    if sizes == [] || sizes[0] > |b| then [b] else [b[..sizes[0]]] + Cut(b[sizes[0]..], sizes[1..])
  }

  lemma {:induction false} CutWhole(b: seq<byte>, sizes: seq<nat>)
    ensures Flatten(Cut(b, sizes)) == b
    decreases |sizes|
  {
    if sizes == [] || sizes[0] > |b| {
      assert Flatten([]) == [] && [b][1..] == [];
    } else {
      CutWhole(b[sizes[0]..], sizes[1..]);
      var rest := Cut(b[sizes[0]..], sizes[1..]);
      assert Cut(b, sizes)[1..] == rest;
    }
  }

  /** Every way to cut up a stream is one of these, but for an empty piece at the end. */
  lemma {:induction false} CutAnyway(pieces: seq<seq<byte>>) returns (sizes: seq<nat>)
    ensures Cut(Flatten(pieces), sizes) == pieces + [[]]
    decreases |pieces|
  {
    if pieces == [] {
      return [];
    }
    var rest := CutAnyway(pieces[1..]);
    sizes := [|pieces[0]|] + rest;
    var b := Flatten(pieces);
    assert b[..|pieces[0]|] == pieces[0] && b[|pieces[0]|..] == Flatten(pieces[1..]);
    assert sizes[1..] == rest;
    assert [pieces[0]] + (pieces[1..] + [[]]) == pieces + [[]];
  }

  /** The server's writer, the stream cut up in any way, the client's receive loop. */
  method ServerToClient(ps: seq<Packet>, sizes: seq<nat>) returns (r: Delivered)
    requires AllSendable(Client, 0, ps)
    ensures r == Delivered(ps, Ended)
  {
    hide Deliver, Flatten, Frames, Cut;
    StreamArrives(Client, 0, ps);
    var frames := WriteAll(ps);
    CutWhole(Flatten(frames), sizes);
    var conn := new Connection(Cut(Flatten(frames), sizes));
    r := ClientRecvThread(conn);
  }

  /** The client's sender, the stream cut up in any way, the server's receive loop. */
  method ClientToServer(ps: seq<Packet>, sizes: seq<nat>, limit: int) returns (r: Delivered)
    requires AllSendable(Go, limit, ps)
    ensures r == Delivered(ps, Ended)
  {
    hide Deliver, Flatten, Frames, Cut;
    StreamArrives(Go, limit, ps);
    var unread := new Connection([]);
    var socket := new ClientSocket(unread);
    var frames := SendAll(socket, ps);
    CutWhole(Flatten(frames), sizes);
    var conn := new Connection(Cut(Flatten(frames), sizes));
    r := RecvThread(conn, limit);
  }

  lemma FramesNone(serial: nat, ps: seq<Packet>)
    requires ps == []
    ensures Frames(serial, ps) == [] && Flatten([]) == []
  {
  }

  lemma FramesFirst(serial: nat, ps: seq<Packet>)
    requires ps != []
    ensures Frames(serial, ps) == Frame(serial, ps[0]) + Frames(NextSerial(serial), ps[1..])
  {
  }

  lemma {:induction false} SerialSnoc(serial: nat, n: nat)
    ensures SerialAfter(serial, n + 1) == NextSerial(SerialAfter(serial, n))
    decreases n
  {
    if n > 0 {
      SerialSnoc(NextSerial(serial), n - 1);
    }
  }

  lemma {:induction false} FlattenSnoc(chunks: seq<seq<byte>>, c: seq<byte>)
    ensures Flatten(chunks + [c]) == Flatten(chunks) + c
  {
    if chunks == [] {
      assert (chunks + [c])[1..] == [];
    } else {
      assert (chunks + [c])[1..] == chunks[1..] + [c];
      FlattenSnoc(chunks[1..], c);
    }
  }

  lemma {:induction false} SerialIs(serial: nat, n: nat)
    requires serial < TWO_16
    ensures SerialAfter(serial, n) == (serial + n) % TWO_16
    decreases n
  {
    if n > 0 {
      SerialIs(NextSerial(serial), n - 1);
    }
  }

  // ----- dropped, repeated and reordered frames

  /** The frames of `ps` in the order `order` gives, whatever it is. */
  function Shuffled(ps: seq<Packet>, order: seq<nat>): (b: seq<byte>)
    requires forall i :: 0 <= i < |order| ==> order[i] < |ps|
  {
    if order == [] then [] else Frame((1 + order[0]) % TWO_16, ps[order[0]]) + Shuffled(ps, order[1..])
  }

  /** How far `order` goes on from `k` without a gap. */
  function InOrder(order: seq<nat>, k: nat): (n: nat)
    ensures n <= |order|
  {
    if order == [] || order[0] != k then 0 else 1 + InOrder(order[1..], k + 1)
  }

  lemma {:induction false} InOrderInside(ps: seq<Packet>, order: seq<nat>, k: nat)
    requires k <= |ps| && forall i :: 0 <= i < |order| ==> order[i] < |ps|
    ensures k + InOrder(order, k) <= |ps|
  {
    if order != [] && order[0] == k {
      InOrderInside(ps, order[1..], k + 1);
    }
  }

  /** With fewer than 65536 packets sent, the reader delivers exactly the packets
      up to the first frame that is not the next one, and refuses that frame. */
  lemma {:induction false} OnlyAPrefix(lang: Lang, limit: int, ps: seq<Packet>, order: seq<nat>, k: nat)
    requires |ps| < TWO_16 && AllSendable(lang, limit, ps) && k <= |ps|
    requires forall i :: 0 <= i < |order| ==> order[i] < |ps|
    ensures k + InOrder(order, k) <= |ps|
    ensures Deliver(lang, limit, (1 + k) % TWO_16, Shuffled(ps, order))
      == Delivered(ps[k..k + InOrder(order, k)], if InOrder(order, k) == |order| then Ended else Refused)
    decreases |order|
  {
    hide Frame, Deliver, Sendable, Shuffled, InOrder;
    ShuffledStep(ps, order, k);
    InOrderInside(ps, order, k);
    if order == [] {
      DeliverNothing(lang, limit, (1 + k) % TWO_16);
    } else {
      var i := order[0];
      DeliverFrame(lang, limit, (1 + k) % TWO_16, (1 + i) % TWO_16, ps[i], Shuffled(ps, order[1..]));
      if i == k {
        OnlyAPrefix(lang, limit, ps, order[1..], k + 1);
        FirstOf(ps, k, InOrder(order[1..], k + 1));
      }
    }
  }

  lemma ShuffledStep(ps: seq<Packet>, order: seq<nat>, k: nat)
    requires forall i :: 0 <= i < |order| ==> order[i] < |ps|
    ensures order == [] ==> Shuffled(ps, order) == [] && InOrder(order, k) == 0
    ensures order != [] ==>
      && Shuffled(ps, order) == Frame((1 + order[0]) % TWO_16, ps[order[0]]) + Shuffled(ps, order[1..])
      && InOrder(order, k) == if order[0] == k then 1 + InOrder(order[1..], k + 1) else 0
  {
    hide Frame;
  }

  lemma FirstOf(ps: seq<Packet>, k: nat, n: nat)
    requires k + 1 + n <= |ps|
    ensures [ps[k]] + ps[k + 1..k + 1 + n] == ps[k..k + 1 + n]
  {
  }

  lemma DeliverNothing(lang: Lang, limit: int, serial: nat)
    ensures Deliver(lang, limit, serial, []) == Delivered([], Ended)
  {
  }

  /** At 65536 packets the bound is sharp: the first frame, repeated at the end, is
      taken for a new packet. */
  lemma ReplayAccepted(lang: Lang, limit: int, ps: seq<Packet>)
    requires |ps| == TWO_16 && AllSendable(lang, limit, ps)
    ensures Deliver(lang, limit, 1, Frames(1, ps) + Frame(1, ps[0])) == Delivered(ps + [ps[0]], Ended)
  {
    hide Frame, Deliver, Frames, SerialAfter;
    var rest := Frame(1, ps[0]);
    DeliverFrames(lang, limit, 1, ps, rest);
    SerialIs(1, TWO_16);
    DeliverFrame(lang, limit, 1, 1, ps[0], []);
    DeliverNothing(lang, limit, 2);
    assert rest + [] == rest && [ps[0]] + [] == [ps[0]];
  }
}

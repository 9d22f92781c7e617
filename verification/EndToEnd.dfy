/** Whole trips of a message, through the real encoders, packers and decoders. */
module EndToEnd {
  import opened Bytes
  import opened Wire
  import opened Codec
  import opened RoundTrip
  import Packing
  import GoPack
  import GoEncode
  import GoDecode
  import ClientPack
  import ClientSerialize
  import ClientDeserialize

  /** A packed message, unpacked, is itself and some padding, which decoders ignore. */
  lemma UnpackedMessage(from: Lang, to: Lang, s: Schema, t: Schema, id: nat, m: Msg)
    requires Setting(from, s, t) && Typed(s, id, m) && |Encode(from, s, id, m)| < TWO_32
    ensures var b := Packing.Unpack(Packing.Pack(Encode(from, s, id, m)));
      b.Ok? && Decode(to, t, id, b.value) == Ok(Decoded(View(from, to, s, t, id, m), |Encode(from, s, id, m)|))
  {
    hide *;
    var e := Encode(from, s, id, m);
    Packing.UnpackPack(e);
    DecodeEncode(from, to, s, t, id, m, Zeros(Packing.PadLength(|e|) - |e|));
  }

  // ----- at the server

  method EncodePacked(s: Schema, id: nat, m: Msg) returns (b: seq<byte>)
    requires SchemaOk(s) && Typed(s, id, m)
    ensures b == Packing.Pack(Encode(Go, s, id, m))
  {
    hide *;
    var e := GoEncode.EncodeMessage(s, id, m);
    b := GoPack.Pack(e);
  }

  method DecodePacked(s: Schema, id: nat, data: seq<byte>) returns (r: Result<Msg>)
    requires SchemaOk(s) && id < |s.types|
    ensures r == match Packing.Unpack(data)
                 case Err => Err
                 case Ok(b) => (match Decode(Go, s, id, b) case Err => Err case Ok(d) => Ok(d.m))
  {
    hide *;
    var unpacked := GoPack.Unpack(data);
    if unpacked.Err? {
      return Err;
    }
    var d := GoDecode.DecodeMessage(s, id, unpacked.value);
    if d.Err? {
      return Err;
    }
    return Ok(d.value.m);
  }

  /** DecodePacked undoes EncodePacked exactly outside the carve-outs. */
  method ServerToServer(s: Schema, id: nat, m: Msg) returns (r: Result<Msg>)
    requires SchemaOk(s) && Typed(s, id, m) && ServerMsg(s, id, m) && |Encode(Go, s, id, m)| < TWO_32
    ensures r.Ok? && (r.value == m <==> Kept(Go, Go, s, id, m))
  {
    hide SchemaOk, Typed, ServerMsg, Encode, Decode, View, Shown, Kept, Evolves;
    assert id < |s.types| by {
      TypedId(s, id, m);
    }
    EvolvesSelf(s);
    UnpackedMessage(Go, Go, s, s, id, m);
    Survives(Go, Go, s, id, m);
    ShownServer(s, id, m);
    var b := EncodePacked(s, id, m);
    r := DecodePacked(s, id, b);
  }

  lemma TypedId(s: Schema, id: nat, m: Msg)
    requires Typed(s, id, m)
    ensures id < |s.types|
  {
  }

  // ----- between the languages

  /** Server to client, whose class may be older or newer. */
  method ServerToClient(s: Schema, t: Schema, id: nat, m: Msg, pack: ClientPack.SprotoPack) returns (r: Result<Msg>)
    requires Setting(Go, s, t) && Typed(s, id, m) && |Encode(Go, s, id, m)| < TWO_32
    modifies pack.buffer
    ensures r == Ok(View(Go, Client, s, t, id, m))
  {
    hide Typed, Encode, Decode, View, Evolves, SchemaOk;
    TypedId(s, id, m);
    assert id < |t.types| by {
      EvolvesId(s, t, id);
    }
    UnpackedMessage(Go, Client, s, t, id, m);
    var b := EncodePacked(s, id, m);
    var data := new byte[|b|](i requires 0 <= i < |b| => b[i]);
    assert data[..] == b && data[..data.Length] == b;
    var unpacked := pack.Unpack(data, 0);
    r := ClientDeserialize.DecodeBytes(t, id, unpacked.value);
  }

  lemma EvolvesId(s: Schema, t: Schema, id: nat)
    requires Evolves(s, t) && id < |s.types|
    ensures id < |t.types|
  {
  }

  /** The client recovers the server's message: every field, whatever its integers. */
  method ServerMessageArrives(s: Schema, id: nat, m: Msg, pack: ClientPack.SprotoPack) returns (r: Result<Msg>)
    requires SchemaOk(s) && Typed(s, id, m) && ServerMsg(s, id, m) && |Encode(Go, s, id, m)| < TWO_32
    modifies pack.buffer
    ensures r.Ok? && (Filled(Client, s, id, r.value) == m <==> Kept(Go, Client, s, id, m))
  {
    hide SchemaOk, Typed, ServerMsg, Encode, Decode, View, Shown, Kept, Evolves, Filled;
    EvolvesSelf(s);
    Survives(Go, Client, s, id, m);
    ShownServer(s, id, m);
    r := ServerToClient(s, s, id, m, pack);
  }

  /** Client to server; the client's packer fails on the messages it overruns. */
  method ClientToServer(s: Schema, t: Schema, id: nat, m: Msg, pack: ClientPack.SprotoPack) returns (r: Result<Msg>)
    requires Setting(Client, s, t) && Typed(s, id, m) && ClientSerialize.NoNullFields(m)
    requires |Encode(Client, s, id, m)| < TWO_32
    requires pack.tmp.Length == 8
    modifies pack.buffer, pack.tmp
    ensures ClientPack.Overruns(Encode(Client, s, id, m)) ==> r == Err
    ensures !ClientPack.Overruns(Encode(Client, s, id, m)) ==> r == Ok(View(Client, Go, s, t, id, m))
  {
    hide Typed, Encode, Decode, View, Evolves, SchemaOk, PortableSchema, ClientPack.Overruns,
      ClientSerialize.NoNullFields, Packing.PadLength;
    TypedId(s, id, m);
    assert id < |t.types| by {
      EvolvesId(s, t, id);
    }
    UnpackedMessage(Client, Go, s, t, id, m);
    var b := ClientSerialize.EncodeBytes(s, id, m);
    var data := new byte[|b|](i requires 0 <= i < |b| => b[i]);
    assert data[..] == b && data[..data.Length] == b;
    if ClientPack.Overruns(b) {
      OverrunIsPartial(b);
    }
    var packed := pack.Pack(data, 0);
    if packed.Err? {
      return Err;
    }
    r := DecodePacked(t, id, packed.value);
  }

  lemma OverrunIsPartial(b: seq<byte>)
    requires ClientPack.Overruns(b)
    ensures |b| < Packing.PadLength(|b|)
  {
  }
}

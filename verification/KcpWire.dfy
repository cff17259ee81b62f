/** The KCP segment format: a 24-byte little-endian header followed by `len` bytes of data. */
module KcpWire {
  import opened LittleEndian
  import opened KcpArith

  const OVERHEAD := 24
  const CMD_PUSH: Byte := 81
  const CMD_ACK: Byte := 82
  const CMD_WASK: Byte := 83
  const CMD_WINS: Byte := 84

  /** A segment as it crosses the network. `sn` and `una` are numbers of segments; only their
      low 32 bits are written. */
  datatype Wire = Wire(conv: U32, cmd: Byte, frg: Byte, wnd: U16, ts: U32, sn: nat, una: nat, data: seq<Byte>)

  /** The header fields from `una` on, with the data. */
  function Tail(w: Wire): (r: seq<Byte>)
    ensures |r| == 8 + |w.data|
  {
    Enc32(U32Of(w.una)) + (Enc32(U32Of(|w.data|)) + w.data)
  }

  /** `ikcp_encode_seg`, followed by the data. */
  function Encode(w: Wire): (r: seq<Byte>)
    ensures |r| == OVERHEAD + |w.data|
  {
    Enc32(w.conv) + ([w.cmd, w.frg] + (Enc16(w.wnd) + (Enc32(w.ts) + (Enc32(U32Of(w.sn)) + Tail(w)))))
  }

  /** Every payload length fits its 32-bit field. */
  predicate Encodable(ws: seq<Wire>) {
    forall w | w in ws :: |w.data| < TWO32
  }

  function EncodeAll(ws: seq<Wire>): seq<Byte> {
    if ws == [] then [] else Encode(ws[0]) + EncodeAll(ws[1..])
  }

  /** The segment a receiver reads back: the numbers have lost everything above 32 bits. */
  function WrapWire(w: Wire): Wire {
    w.(sn := U32Of(w.sn), una := U32Of(w.una))
  }

  function WrapWires(ws: seq<Wire>): (r: seq<Wire>)
    ensures |r| == |ws|
    ensures forall i | 0 <= i < |ws| :: r[i] == WrapWire(ws[i])
  {
    seq(|ws|, i requires 0 <= i < |ws| => WrapWire(ws[i]))
  }

  /** The header fields decoded in the order of `ikcp_input`; the data is still to be cut off. */
  function DecodeHeader(b: seq<Byte>): Wire
    requires |b| >= OVERHEAD
  {
    Wire(Dec32(b), b[4], b[5], Dec16(b[6..]), Dec32(b[8..]), Dec32(b[12..]), Dec32(b[16..]), [])
  }

  function DecodeLen(b: seq<Byte>): U32
    requires |b| >= OVERHEAD
  {
    Dec32(b[20..])
  }

  lemma DecodeTail(w: Wire, rest: seq<Byte>)
    requires |w.data| < TWO32
    ensures Dec32(Tail(w) + rest) == U32Of(w.una)
    ensures Dec32((Tail(w) + rest)[4..]) == |w.data|
    ensures (Tail(w) + rest)[8..] == w.data + rest
  {
    var b := Tail(w) + rest;
    assert b == Enc32(U32Of(w.una)) + (Enc32(|w.data|) + (w.data + rest));
    Dec32Enc32(U32Of(w.una), Enc32(|w.data|) + (w.data + rest));
    Skip(b, 0, Enc32(U32Of(w.una)), Enc32(|w.data|) + (w.data + rest));
    Dec32Enc32(|w.data|, w.data + rest);
    Skip(b, 4, Enc32(|w.data|), w.data + rest);
  }

  /** Decoding what was encoded gives the segment back, whatever follows it. */
  lemma DecodeEncode(w: Wire, rest: seq<Byte>)
    requires |w.data| < TWO32
    ensures DecodeHeader(Encode(w) + rest) == WrapWire(w).(data := [])
    ensures DecodeLen(Encode(w) + rest) == |w.data|
    ensures (Encode(w) + rest)[OVERHEAD..] == w.data + rest
  {
    var b := Encode(w) + rest;
    var t := Tail(w) + rest;
    var t12 := Enc32(U32Of(w.sn)) + t;
    var t8 := Enc32(w.ts) + t12;
    var t6 := Enc16(w.wnd) + t8;
    var t4 := [w.cmd, w.frg] + t6;
    assert b[0..] == Enc32(w.conv) + t4;
    Dec32Enc32(w.conv, t4);
    Skip(b, 0, Enc32(w.conv), t4);
    assert b[4] == b[4..][0] && b[5] == b[4..][1];
    Skip(b, 4, [w.cmd, w.frg], t6);
    Dec16Enc16(w.wnd, t8);
    Skip(b, 6, Enc16(w.wnd), t8);
    Dec32Enc32(w.ts, t12);
    Skip(b, 8, Enc32(w.ts), t12);
    Dec32Enc32(U32Of(w.sn), t);
    Skip(b, 12, Enc32(U32Of(w.sn)), t);
    DecodeTail(w, rest);
    assert b[20..] == b[16..][4..] && b[OVERHEAD..] == b[16..][8..];
  }
}

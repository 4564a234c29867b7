/** The connection protocol's messages about one channel, and sums over the messages in flight. */
module Messages {
  import opened Bytes

  type u32 = x: int | 0 <= x < TWO_TO_THE_32

  const CHANNEL_WINDOW_ADJUST := 93
  const CHANNEL_DATA := 94
  const CHANNEL_EXTENDED_DATA := 95
  const CHANNEL_EOF := 96
  const CHANNEL_CLOSE := 97

  // `Other` stands for the messages whose handling leaves every channel's window and data alone.
  datatype Msg =
    | Data(id: u32, bytes: seq<byte>)
    | Extended(id: u32, stream: u32, bytes: seq<byte>)
    | Adjust(id: u32, count: u32)
    | Eof(id: u32)
    | Close(id: u32)
    | Other(payload: seq<byte>)

  function Body(m: Msg): (x: seq<byte>) {
    if m.Data? || m.Extended? then m.bytes else []
  }

  /** Data for channel `id`: it is paid for out of that channel's window. */
  predicate Carries(m: Msg, id: u32) { (m.Data? || m.Extended?) && m.id == id }

  // ----- sums over messages in flight

  function DataBytes(ms: seq<Msg>, id: u32): (n: nat) {
    if ms == [] then 0 else (if Carries(ms[0], id) then |ms[0].bytes| else 0) + DataBytes(ms[1..], id)
  }

  function AdjustBytes(ms: seq<Msg>, id: u32): (n: nat) {
    if ms == [] then 0 else (if ms[0].Adjust? && ms[0].id == id then ms[0].count else 0) + AdjustBytes(ms[1..], id)
  }

  lemma {:induction false} SumsAppend(ms: seq<Msg>, more: seq<Msg>, id: u32)
    ensures DataBytes(ms + more, id) == DataBytes(ms, id) + DataBytes(more, id)
    ensures AdjustBytes(ms + more, id) == AdjustBytes(ms, id) + AdjustBytes(more, id)
  {
    if ms == [] {
      assert ms + more == more;
    } else {
      SumsAppend(ms[1..], more, id);
      assert (ms + more)[1..] == ms[1..] + more;
    }
  }

  lemma SumsSnoc(ms: seq<Msg>, m: Msg, id: u32)
    ensures DataBytes(ms + [m], id) == DataBytes(ms, id) + (if Carries(m, id) then |m.bytes| else 0)
    ensures AdjustBytes(ms + [m], id) == AdjustBytes(ms, id) + (if m.Adjust? && m.id == id then m.count else 0)
  {
    SumsAppend(ms, [m], id);
    assert [m][1..] == [];
  }

  // ----- the messages as payloads of the transport

  /** The payload built for `m`: by channel_write, by the window adjuster, and by the senders of EOF and CLOSE. */
  function Encode(m: Msg): (p: seq<byte>) {
    match m
    case Data(id, bytes) => Header(CHANNEL_DATA, id) + Htonu32(|bytes|) + bytes
    case Extended(id, stream, bytes) => Header(CHANNEL_EXTENDED_DATA, id) + Htonu32(stream) + (Htonu32(|bytes|) + bytes)
    case Adjust(id, count) => Header(CHANNEL_WINDOW_ADJUST, id) + Htonu32(count)
    case Eof(id) => Header(CHANNEL_EOF, id)
    case Close(id) => Header(CHANNEL_CLOSE, id)
    case Other(payload) => payload
  }

  function Header(kind: byte, id: u32): (h: seq<byte>)
    ensures |h| == 5
  {
    [kind] + Htonu32(id)
  }

  /**
   * How packet_add and channel_read look at a payload: the type, the channel at offset 1, and data from offset 9 or 13
   * to the end, whatever the length field in front of it says.
   */
  function Decode(p: seq<byte>): (m: Msg) {
    if |p| < 5 then Other(p) else
      var id := Ntohu32(p[1..]);
      if p[0] == CHANNEL_DATA && |p| >= 9 then Data(id, p[9..])
      else if p[0] == CHANNEL_EXTENDED_DATA && |p| >= 13 then Extended(id, Ntohu32(p[5..]), p[13..])
      else if p[0] == CHANNEL_WINDOW_ADJUST && |p| >= 9 then Adjust(id, Ntohu32(p[5..]))
      else if p[0] == CHANNEL_EOF then Eof(id)
      else if p[0] == CHANNEL_CLOSE then Close(id)
      else Other(p)
  }

  /** Sections 5.2 and 5.3 of RFC 4254: the type numbers, and what stands at which offset. */
  lemma EncodedLayout(id: u32, stream: u32, count: u32, bytes: seq<byte>)
    ensures Encode(Data(id, bytes)) == [94] + (Htonu32(id) + (Htonu32(|bytes|) + bytes))
    ensures Encode(Extended(id, stream, bytes)) ==
            [95] + (Htonu32(id) + (Htonu32(stream) + (Htonu32(|bytes|) + bytes)))
    ensures Encode(Adjust(id, count)) == [93] + (Htonu32(id) + Htonu32(count))
    ensures Encode(Eof(id)) == [96] + Htonu32(id) && Encode(Close(id)) == [97] + Htonu32(id)
  {
    var n := Htonu32(|bytes|);
    assert Encode(Data(id, bytes)) == ([94] + Htonu32(id)) + n + bytes;
    assert Encode(Extended(id, stream, bytes)) == ([95] + Htonu32(id)) + Htonu32(stream) + (n + bytes);
  }

  /** Any payload is read by its type and these offsets; one too short for its type is read as no message of these. */
  lemma DecodedByOffset(p: seq<byte>)
    requires |p| >= 5
    ensures match Decode(p)
            case Data(id, x) => p[0] == 94 && |p| >= 9 && id == Ntohu32(p[1..5]) && x == p[9..]
            case Extended(id, s, x) =>
              p[0] == 95 && |p| >= 13 && id == Ntohu32(p[1..5]) && s == Ntohu32(p[5..9]) && x == p[13..]
            case Adjust(id, count) => p[0] == 93 && |p| >= 9 && id == Ntohu32(p[1..5]) && count == Ntohu32(p[5..9])
            case Eof(id) => p[0] == 96 && id == Ntohu32(p[1..5])
            case Close(id) => p[0] == 97 && id == Ntohu32(p[1..5])
            case Other(x) =>
              x == p && p[0] != 96 && p[0] != 97 && (p[0] == 93 || p[0] == 94 ==> |p| < 9) && (p[0] == 95 ==> |p| < 13)
  {
  }

  lemma HeaderRead(kind: byte, id: u32, rest: seq<byte>)
    ensures (Header(kind, id) + rest)[0] == kind && Ntohu32((Header(kind, id) + rest)[1..]) == id
  {
    assert (Header(kind, id) + rest)[1..] == Htonu32(id) + rest;
    NtohuHtonu(id, rest);
  }

  lemma FieldRead(h: seq<byte>, value: u32, rest: seq<byte>)
    requires |h| == 5
    ensures Ntohu32((h + Htonu32(value) + rest)[5..]) == value && (h + Htonu32(value) + rest)[9..] == rest
  {
    assert (h + Htonu32(value) + rest)[5..] == Htonu32(value) + rest;
    NtohuHtonu(value, rest);
  }

  /** What one end builds, the other end reads. */
  lemma DecodeEncode(m: Msg)
    requires !m.Other?
    ensures Decode(Encode(m)) == m
  {
    match m
    case Data(id, bytes) => DecodeData(id, bytes);
    case Extended(id, stream, bytes) => DecodeExtended(id, stream, bytes);
    case Adjust(id, count) =>
      HeaderRead(CHANNEL_WINDOW_ADJUST, id, Htonu32(count));
      FieldRead(Header(CHANNEL_WINDOW_ADJUST, id), count, []);
      assert Encode(m) + [] == Encode(m);
    case Eof(id) =>
      HeaderRead(CHANNEL_EOF, id, []);
      assert Encode(m) + [] == Encode(m);
    case Close(id) =>
      HeaderRead(CHANNEL_CLOSE, id, []);
      assert Encode(m) + [] == Encode(m);
  }

  lemma DecodeData(id: u32, bytes: seq<byte>)
    ensures Decode(Encode(Data(id, bytes))) == Data(id, bytes)
  {
    var p, h, n := Encode(Data(id, bytes)), Header(CHANNEL_DATA, id), Htonu32(|bytes|);
    HeaderRead(CHANNEL_DATA, id, n + bytes);
    assert p == h + (n + bytes) && p[9..] == bytes;
  }

  lemma DecodeExtended(id: u32, stream: u32, bytes: seq<byte>)
    ensures Decode(Encode(Extended(id, stream, bytes))) == Extended(id, stream, bytes)
  {
    var p, h, f := Encode(Extended(id, stream, bytes)), Header(CHANNEL_EXTENDED_DATA, id), Htonu32(stream);
    var rest := Htonu32(|bytes|) + bytes;
    HeaderRead(CHANNEL_EXTENDED_DATA, id, f + rest);
    assert p == h + (f + rest);
    FieldRead(h, stream, rest);
    assert p[13..] == p[9..][4..] == bytes;
  }
}

/** Datagram layout: one header byte followed by the block (lab4/lib/packet_codec.c). */
module PacketCodec {
  import opened Bytes

  method EncodePacket(num: byte, data: seq<byte>, packet: array<byte>)
    requires packet.Length >= 1 + |data|
    modifies packet
    ensures packet[..1 + |data|] == [num] + data
    ensures packet[1 + |data|..] == old(packet[1 + |data|..])
  {
    packet[0] := num;
    var i := 0;
    while i < |data|
      invariant i <= |data|
      invariant packet[0] == num
      invariant forall j | 0 <= j < i :: packet[1 + j] == data[j]
      invariant forall j | 1 + |data| <= j < packet.Length :: packet[j] == old(packet[j])
    {
      packet[1 + i] := data[i];
      i := i + 1;
    }
  }

  method DecodePacket(packet: seq<byte>, data: array<byte>) returns (num: byte)
    requires |packet| >= 1 + data.Length
    modifies data
    ensures num == packet[0]
    ensures data[..] == packet[1..1 + data.Length]
  {
    num := packet[0];
    var i := 0;
    while i < data.Length
      invariant i <= data.Length
      invariant forall j | 0 <= j < i :: data[j] == packet[1 + j]
    {
      data[i] := packet[1 + i];
      i := i + 1;
    }
  }

  /** Decoding what was encoded gives the number and the data back, whatever the buffers held before. */
  method RoundTrip(num: byte, data: seq<byte>) returns (num': byte, data': seq<byte>)
    ensures num' == num && data' == data
  {
    var packet := new byte[1 + |data|];
    EncodePacket(num, data, packet);
    var out := new byte[|data|];
    num' := DecodePacket(packet[..], out);
    data' := out[..];
    assert packet[..] == [num] + data;
  }
}

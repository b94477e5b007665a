/** The KmBox wire format: command codes and the three `#[repr(C)]`
    packet layouts, turned into bytes the way `bytemuck::bytes_of` does
    (fields in declaration order, no padding, each field in native byte
    order, taken here to be little-endian). */
module Codec {
  import opened Results
  import opened Bytes

  /** The commands of the protocol, the variants of the `Cmd` enum. It has
      no Shutdown variant, so shutdown has no code. */
  datatype Cmd = Connect | Move | AutoMove | Left | Right | SetConfig | ShowPic | Reboot

  /** The magic number each command carries in a header's `cmd` field;
      reading it back names the same command. */
  function CmdCode(c: Cmd): (code: U32)
    ensures CmdOfCode(code) == Some(c)
  {
    match c
    case Connect => 0xAF3C2828
    case Move => 0xAEDE7345
    case AutoMove => 0xAEDE7346
    case Left => 0x9823AE8D
    case Right => 0x238D8212
    case SetConfig => 0x1D3D3323
    case ShowPic => 0x12334883
    case Reboot => 0xAA8855AA
  }

  /** The command a code stands for, if any. */
  function CmdOfCode(code: U32): Option<Cmd>
  {
    if code == 0xAF3C2828 then Some(Connect)
    else if code == 0xAEDE7345 then Some(Move)
    else if code == 0xAEDE7346 then Some(AutoMove)
    else if code == 0x9823AE8D then Some(Left)
    else if code == 0x238D8212 then Some(Right)
    else if code == 0x1D3D3323 then Some(SetConfig)
    else if code == 0x12334883 then Some(ShowPic)
    else if code == 0xAA8855AA then Some(Reboot)
    else None
  }

  /** A code names a command exactly when it is that command's code: every
      command's code reads back, and a code no command carries names none. */
  lemma CmdOfCodeExact(code: U32, c: Cmd)
    ensures CmdOfCode(code) == Some(c) <==> CmdCode(c) == code
  {
  }

  /** Exactly one command has a given code, so a receiver can tell them
      apart. */
  lemma CmdCodeInjective(c1: Cmd, c2: Cmd)
    ensures CmdCode(c1) == CmdCode(c2) <==> c1 == c2
  {
    assert CmdOfCode(CmdCode(c1)) == Some(c1);
  }

  const HeaderSize: nat := 16
  const MousePacketSize: nat := 32
  const ConfigDataSize: nat := 1024
  const ConfigPacketSize: nat := 1040

  /** `Header`: device identifier, nonce, sequence index, command code. */
  datatype Header = Header(mac: U32, rand: U32, index: U32, cmd: U32)

  /** `MousePacket`: a header, then button state and three signed deltas. */
  datatype MousePacket = MousePacket(head: Header, button: I32, x: I32, y: I32, wheel: I32)

  /** The 1024-byte payload of a `ConfigPacket`. */
  type ConfigData = d: seq<Byte> | |d| == ConfigDataSize witness seq(1024, _ => 0)

  /** `ConfigPacket`: a header, then an opaque 1024-byte payload. */
  datatype ConfigPacket = ConfigPacket(head: Header, data: ConfigData)

  // ------------------------------------------------------------ header

  /** `bytes_of` on a header: sixteen bytes that read back as the same
      four fields. */
  function EncodeHeader(h: Header): (bs: seq<Byte>)
    ensures |bs| == HeaderSize
    ensures DecodeHeader(bs) == Some(h)
  {
    var bs := EncodeU32(h.mac) + EncodeU32(h.rand) + EncodeU32(h.index) + EncodeU32(h.cmd);
    assert bs[0..4] == EncodeU32(h.mac);
    assert bs[4..8] == EncodeU32(h.rand);
    assert bs[8..12] == EncodeU32(h.index);
    assert bs[12..16] == EncodeU32(h.cmd);
    bs
  }

  /** Reads the header at the front of a datagram; a datagram shorter than a
      header has none. */
  function DecodeHeader(bs: seq<Byte>): (r: Option<Header>)
    ensures r.Some? <==> |bs| >= HeaderSize
  {
    if |bs| < HeaderSize then None
    else Some(Header(DecodeU32(bs[0..4]), DecodeU32(bs[4..8]), DecodeU32(bs[8..12]), DecodeU32(bs[12..16])))
  }

  lemma DecodeEncodeHeader(h: Header)
    ensures DecodeHeader(EncodeHeader(h)) == Some(h)
  {
  }

  /** Any sixteen leading bytes are the encoding of the header read from
      them: the layout leaves no byte unused. */
  lemma EncodeDecodeHeader(bs: seq<Byte>)
    requires |bs| >= HeaderSize
    ensures EncodeHeader(DecodeHeader(bs).value) == bs[..HeaderSize]
  {
    DecodeEncodeU32(bs[0..4]);
    DecodeEncodeU32(bs[4..8]);
    DecodeEncodeU32(bs[8..12]);
    DecodeEncodeU32(bs[12..16]);
    assert bs[..16] == bs[0..4] + bs[4..8] + bs[8..12] + bs[12..16];
  }

  /** A header's fields sit at byte offsets 0, 4, 8 and 12, in that order. */
  lemma HeaderFieldOffsets(h: Header)
    ensures var bs := EncodeHeader(h);
      && DecodeU32(bs[0..4]) == h.mac
      && DecodeU32(bs[4..8]) == h.rand
      && DecodeU32(bs[8..12]) == h.index
      && DecodeU32(bs[12..16]) == h.cmd
  {
    DecodeEncodeHeader(h);
  }

  /** Decoding reads only the first sixteen bytes. */
  lemma DecodeHeaderPrefix(bs: seq<Byte>, rest: seq<Byte>)
    requires |bs| >= HeaderSize
    ensures DecodeHeader(bs + rest) == DecodeHeader(bs)
  {
    var t := bs + rest;
    assert t[0..4] == bs[0..4] && t[4..8] == bs[4..8];
    assert t[8..12] == bs[8..12] && t[12..16] == bs[12..16];
  }

  // ------------------------------------------------------------ mouse packet

  function EncodeMouse(p: MousePacket): (bs: seq<Byte>)
    ensures |bs| == MousePacketSize
    ensures bs[..HeaderSize] == EncodeHeader(p.head)
  {
    var bs := EncodeHeader(p.head)
      + EncodeU32(I32Bits(p.button)) + EncodeU32(I32Bits(p.x))
      + EncodeU32(I32Bits(p.y)) + EncodeU32(I32Bits(p.wheel));
    assert bs[..HeaderSize] == EncodeHeader(p.head);
    bs
  }

  /** Reads a mouse packet; a datagram shorter than one has none. */
  function DecodeMouse(bs: seq<Byte>): (r: Option<MousePacket>)
    ensures r.Some? <==> |bs| >= MousePacketSize
  {
    if |bs| < MousePacketSize then None
    else
      Some(MousePacket(DecodeHeader(bs).value,
        I32OfBits(DecodeU32(bs[16..20])), I32OfBits(DecodeU32(bs[20..24])),
        I32OfBits(DecodeU32(bs[24..28])), I32OfBits(DecodeU32(bs[28..32]))))
  }

  lemma DecodeEncodeMouse(p: MousePacket)
    ensures DecodeMouse(EncodeMouse(p)) == Some(p)
    ensures DecodeHeader(EncodeMouse(p)) == Some(p.head)
  {
    var bs := EncodeMouse(p);
    var hs := EncodeHeader(p.head);
    DecodeEncodeHeader(p.head);
    DecodeHeaderPrefix(hs, bs[16..]);
    assert bs == hs + bs[16..];
    assert bs[16..20] == EncodeU32(I32Bits(p.button));
    assert bs[20..24] == EncodeU32(I32Bits(p.x));
    assert bs[24..28] == EncodeU32(I32Bits(p.y));
    assert bs[28..32] == EncodeU32(I32Bits(p.wheel));
  }

  // ------------------------------------------------------------ config packet

  function EncodeConfig(p: ConfigPacket): (bs: seq<Byte>)
    ensures |bs| == ConfigPacketSize
    ensures bs[..HeaderSize] == EncodeHeader(p.head)
    ensures bs[HeaderSize..] == p.data
  {
    EncodeHeader(p.head) + p.data
  }

  /** Reads a config packet; a datagram shorter than one has none. */
  function DecodeConfig(bs: seq<Byte>): (r: Option<ConfigPacket>)
    ensures r.Some? <==> |bs| >= ConfigPacketSize
  {
    if |bs| < ConfigPacketSize then None
    else Some(ConfigPacket(DecodeHeader(bs).value, bs[HeaderSize..ConfigPacketSize]))
  }

  lemma DecodeEncodeConfig(p: ConfigPacket)
    ensures DecodeConfig(EncodeConfig(p)) == Some(p)
    ensures DecodeHeader(EncodeConfig(p)) == Some(p.head)
  {
    var bs := EncodeConfig(p);
    DecodeEncodeHeader(p.head);
    DecodeHeaderPrefix(EncodeHeader(p.head), p.data);
    assert bs[HeaderSize..ConfigPacketSize] == p.data;
  }
}

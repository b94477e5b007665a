# KmBox client, modelled in Dafny

This project models the client for the KmBox network mouse. The client
talks to the device over UDP. It opens a session with a handshake that
carries the device's 32-bit identifier (its "MAC"). It stamps every packet
with a header: the identifier, a random nonce, a per-session sequence index
that wraps around at 2^32, and a 32-bit command code. After the handshake
it can send a configuration packet and a reboot command; the button and
move actions of its `Mouse` implementation send nothing. The project also
models the small pieces of arithmetic around the screen capture: the
centred crop that the Rust capture card computes and that the Python screen grabber computes,
the positivity check on a screen size, and the extents of a rectangle.

Modules, one file each:

- `Results` (`results.dfy`): `Option` and `Result`.
- `Bytes` (`bytes.dfy`): bytes, `u16`/`u32`/`i32` ranges, and little-endian
  `u32` encoding. It also holds two's-complement `i32` bits and big-endian
  `u16`.
- `Numerals` (`numerals.dfy`): hex and decimal digit strings, and the hex
  parser `u32::from_str_radix(s, 16)`.
- `Net` (`net.dfy`): IPv4 socket addresses. Covers the dotted-quad text
  Rust accepts, its printed form, and `u32::from(Ipv4Addr)`.
- `Codec` (`codec.dfy`): the command codes and the three `#[repr(C)]`
  packet layouts, with encoders and decoders.
- `KmBox` (`kmbox.dfy`): the session, `next_header`, `connect`,
  `set_config`, the `Mouse` actions, and runs of actions.
- `Capture` (`capture.dfy`): `ScreenSize::new`, the card ROI and the
  screen region.
- `Geometry` (`geometry.dfy`): `Rectangle.width` and `Rectangle.height`.

Every operation is a pure function. I/O is replaced by inputs and
outputs:

- The socket becomes inputs that say what the network did: whether the
  socket opened, whether a send went through, and which reply arrived.
- `Connect` and `SetConfig` return the datagrams they hand to `send_to`.
  The `Mouse` actions (`Perform`, `Run`) return the headers they send,
  and `Wire` turns headers into those datagrams: every datagram the
  actions send is a bare header.
- The value `rand::random()` would return is a parameter (`nonce`).
- The session's sequence counter is threaded through as returned state.

`bytes_of` writes each field in the machine's native byte order. The
model assumes a little-endian machine.

Notes on what the code does, which the model follows:

- `connect` parses the address before the identifier (src/mouse/kmbox.rs
  lines 69–70). A bad address is therefore reported even when the
  identifier is bad too.
- `left`, `right`, `move_delta` and `move_auto` send nothing: their
  `send` calls are commented out. The delay of `move_auto` is unused.
- `set_config` draws a random nonce through `next_header` and then
  overwrites it with the IPv4 address as a number.
- `set_config` and `connect` report a failed send. `reboot` ignores one.
- `shutdown` and `set_picture` are `unimplemented!()`. In the model,
  `shutdown` yields `Failed(Unsupported)` and ends a run.

The Rust crop (truncating `/`) and the Python crop (floor `//`) agree on
non-negative sizes. On an axis the two crops differ exactly when one of
the screen side and the box is negative and odd and the other is not
(`Capture.CropsOffset`); `Capture.ScreenRegionDiffersFromCard` exhibits
one such input.

## Model

| member | source | states |
|---|---|---|
| Codec.CmdCode | src/mouse/kmbox.rs:12-21 | each command's magic number reads back as that command |
| Codec.CmdOfCodeExact | src/mouse/kmbox.rs:12-21 | a code names a command exactly when it is that command's magic number, so a code that no command carries names none |
| Codec.CmdCodeInjective | src/mouse/kmbox.rs:12-21 | two commands have the same code exactly when they are the same command |
| Codec.EncodeHeader | src/mouse/kmbox.rs:26-31 | `bytes_of` on a header gives 16 bytes that read back as the same four fields |
| Codec.DecodeEncodeHeader | src/mouse/kmbox.rs:26-31 | a header's 16 bytes read back as the same mac, rand, index and cmd |
| Codec.EncodeDecodeHeader | src/mouse/kmbox.rs:26-31 | any 16 bytes are the encoding of the header read from them, so the layout has no padding or unused byte |
| Codec.HeaderFieldOffsets | src/mouse/kmbox.rs:26-31 | mac, rand, index and cmd sit at byte offsets 0, 4, 8 and 12, in declaration order |
| Codec.DecodeHeader | src/mouse/kmbox.rs:26-31 | a datagram has a header exactly when it is at least 16 bytes long |
| Codec.DecodeHeaderPrefix | src/mouse/kmbox.rs:26-31 | the header of a longer packet depends only on its first 16 bytes |
| Codec.EncodeMouse | src/mouse/kmbox.rs:36-42 | a mouse packet is 32 bytes and begins with its header's encoding |
| Codec.DecodeEncodeMouse | src/mouse/kmbox.rs:36-42 | a mouse packet reads back unchanged, with button, x, y and wheel as two's-complement `i32`, and its first 16 bytes read as its header |
| Codec.EncodeConfig | src/mouse/kmbox.rs:47-50 | a config packet is 1040 bytes: the header's 16 bytes, then the 1024 data bytes unchanged |
| Codec.DecodeEncodeConfig | src/mouse/kmbox.rs:47-50 | a config packet reads back unchanged, and its first 16 bytes read as its header |
| Bytes.EncodeU32 | src/mouse/kmbox.rs:120-123 | a `u32` becomes four bytes that decode back to the same number |
| Bytes.DecodeEncodeU32 | src/mouse/kmbox.rs:120-123 | any four bytes are the encoding of the number read from them |
| Bytes.FromToLE | src/mouse/kmbox.rs:120-123 | a number below 256^n, written as n little-endian bytes, reads back as itself |
| Bytes.ToFromLE | src/mouse/kmbox.rs:120-123 | n bytes read as a little-endian number and written back give the same bytes |
| Bytes.I32Bits | src/mouse/kmbox.rs:36-42 | an `i32`'s two's-complement bits read back as the same `i32`, and the top bit is clear exactly for non-negative values |
| Bytes.I32BitsOfBits | src/mouse/kmbox.rs:36-42 | every 32-bit pattern is the two's-complement form of some `i32` |
| KmBox.NextHeader | src/mouse/kmbox.rs:109-118 | the index goes up by one and wraps from 2^32-1 to 0; the header carries the session's mac, the nonce, the new index and the command's code; the mac and address are unchanged |
| KmBox.Connect | src/mouse/kmbox.rs:65-84 | the handshake succeeds exactly when the socket opens, "ip:port" is an IPv4 socket address, the identifier parses as hex, the send succeeds, and a reply of at least 16 bytes comes from that address; the session then holds the parsed mac and address with index 1; one Connect header with index 1 is sent exactly when the socket, address and identifier are all good |
| KmBox.ConnectErrorOrder | src/mouse/kmbox.rs:65-84 | failures are reported in the code's order: socket, address, identifier, send, timeout, sender address, then length; each is reported whatever the later inputs are |
| KmBox.ConnectExample | src/mouse/kmbox.rs:65-84 | connecting to 192.168.2.188 with "FF313CAB" yields mac 0xFF313CAB and index 1, and the Connect header carries that mac |
| Numerals.ParseHexU32 | src/mouse/kmbox.rs:70 | the identifier parses exactly when, after one optional `+`, it is a non-empty string of hex digits of either case with a value below 2^32; the result is that value |
| Numerals.AccumulateHex | src/mouse/kmbox.rs:70 | the digit-by-digit fold with an overflow check succeeds exactly when every character is a hex digit and the final value fits in 32 bits |
| Numerals.HexFoldValue | src/mouse/kmbox.rs:70 | folding further digits into the value of a prefix gives the value of the whole string |
| Numerals.HexDigits | src/mouse/kmbox.rs:70 | n upper-case digits spell any value below 16^n |
| Numerals.ParseHex8 | src/mouse/kmbox.rs:70 | every identifier printed as eight hex digits parses back to itself |
| KmBox.ParseHexExample | src/mouse/kmbox.rs:70 | "FF313CAB" parses to 0xFF313CAB |
| Net.ParseIpv4 | src/mouse/kmbox.rs:69 | a string parses as an IPv4 address only when it is that address's dotted quad, and the dotted quad of any address parses to it |
| Net.ParseSocketAddr | src/mouse/kmbox.rs:69 | "ip:port" parses exactly when `ip` is the dotted quad of some address; the result is that address with the port unchanged |
| Net.FormatsReadBack | src/mouse/kmbox.rs:69 | every printed address reads back as its four octets |
| Net.ParseIpv4Iff | src/mouse/kmbox.rs:69 | a string parses as an IPv4 address exactly when it is that address's canonical dotted quad: no leading zeros, no extra text, each group at most 255 |
| Net.ReadGroupsOfFormat | src/mouse/kmbox.rs:69 | printed groups read back as the same octets |
| Net.FormatOfReadGroups | src/mouse/kmbox.rs:69 | text that reads as groups is the printed form of those octets |
| Net.ReadOctetCanonical | src/mouse/kmbox.rs:69 | an accepted group is spelled exactly as its value prints |
| Net.DecValueOfDecByte | src/mouse/kmbox.rs:69 | a byte's decimal spelling has that byte's value |
| Net.Ipv4Bits | src/mouse/kmbox.rs:92 | `u32::from(ip)` packs the octets as a<<24, b<<16, c<<8, d |
| Net.Ipv4BitsRoundTrip | src/mouse/kmbox.rs:92 | converting an address to a number and back gives the same address, and the reverse also holds |
| Net.Ipv4BitsWire | src/mouse/kmbox.rs:92 | written little-endian, the number puts the octets on the wire as d, c, b, a |
| KmBox.ConfigPayload | src/mouse/kmbox.rs:89-97 | the payload's first two bytes hold the port big-endian, and the other 1022 bytes are zero |
| Bytes.U16ToBE | src/mouse/kmbox.rs:95-97 | a port becomes two bytes, most significant first, that read back as the port |
| Bytes.U16OfBEToBE | src/mouse/kmbox.rs:95-97 | any two bytes are the big-endian form of the port read from them |
| KmBox.SetConfig | src/mouse/kmbox.rs:86-102 | one 1040-byte Config packet is sent and one index is consumed; its header has the session's mac, the address packed as a number in the nonce field, the new index and the SetConfig code; the port is big-endian in bytes 16–17, every later byte is zero, and a failed send is reported |
| KmBox.SetConfigExample | src/mouse/kmbox.rs:86-102 | relaying to 192.168.2.188:2000 puts 0xC0A802BC in the nonce field (bytes 188, 2, 168, 192) and 0x07, 0xD0 at the front of the payload |
| KmBox.Wire | src/mouse/kmbox.rs:120-123 | each header of a trace goes out as one 16-byte datagram that decodes back to that header |
| KmBox.Perform | src/mouse/kmbox.rs:128-162 | `reboot` sends one Reboot header stamped with the next index and consumes that index, even when the send fails; `left`, `right`, `move_delta` and `move_auto` send nothing and leave the session unchanged; `shutdown` sends nothing and is unsupported |
| KmBox.Run | src/mouse/kmbox.rs:128-162 | over a run of actions, every header carries the session's mac and the next index in turn (wrapping); the index advances once per header; the run completes exactly when no action is `shutdown` |
| KmBox.RunIndices | src/mouse/kmbox.rs:109-118 | appending one action's headers to the rest of a run keeps the indices consecutive |
| KmBox.UpToShutdown | src/mouse/kmbox.rs:153-161 | the calls a run gets through: the longest prefix without a `shutdown`, followed by the `shutdown` that panics unless it is the whole run |
| KmBox.RunSendsReboots | src/mouse/kmbox.rs:153-161 | a run sends exactly one header per `reboot` made before the first `shutdown`, and each is a Reboot header |
| KmBox.UpToShutdownWhole | src/mouse/kmbox.rs:153-161 | without a `shutdown`, the run gets through every call, so every `reboot` sends its header |
| KmBox.HandshakeThenRun | src/mouse/kmbox.rs:72-74 | after a handshake, the datagrams of a run decode to headers with the connect-time mac and indices 2, 3, 4, … |
| Capture.NewScreenSize | src/capture/mod.rs:15-18 | a screen size is accepted exactly when both sides are positive, and is stored unchanged |
| Capture.NewScreenSizeRefuses | src/capture/mod.rs:15-18 | a zero or negative side is refused whatever the other side is |
| Capture.TruncHalf | src/capture/card.rs:27-31 | Rust's `i32 / 2` leaves a remainder of at most one in size, with the sign of the dividend |
| Capture.CardRoi | src/capture/card.rs:27-34 | the ROI is a `box_size` square whose corner is `width / 2 - box_size / 2` and `height / 2 - box_size / 2` with truncating halving; it centres the square to within two pixels on each axis, with no `i32` overflow |
| Capture.CardRoiAxes | src/capture/card.rs:27-34 | the corner's row depends only on height and box, and its column only on width and box |
| Capture.CardRoiInFrame | src/capture/card.rs:27-34 | a box no larger than the screen lies inside the frame |
| Capture.CardRoiMargins | src/capture/card.rs:27-34 | with non-negative sizes, opposite margins differ by at most one |
| Capture.CardRoiEvenMargins | src/capture/card.rs:27-34 | whatever the signs, opposite margins are equal on an axis whose screen side and box are both even |
| Capture.FloorHalf | src/capture/screen.py:15-16 | Python's `// 2` leaves a remainder of 0 or 1 |
| Capture.HalvesAgree | src/capture/screen.py:15-16 | floor and truncating halving agree except on negative odd numbers, where truncation is one higher |
| Capture.ScreenRegion | src/capture/screen.py:14-19 | the region is a `box` square with top `h // 2 - box // 2` and left `w // 2 - box // 2`, using floor halving; it is centred to within one pixel |
| Capture.ScreenRegionInBounds | src/capture/screen.py:14-19 | a box no larger than the monitor lies within it |
| Capture.ScreenRegionMatchesCard | src/capture/screen.py:14-19 | for non-negative sizes, the Python region and the Rust ROI are the same square |
| Capture.CropsOffset | src/capture/screen.py:15-16 | on each axis the Rust corner exceeds the Python one by one if only the screen side is negative and odd, falls short by one if only the box is, and equals it otherwise |
| Capture.ScreenRegionDiffersFromCard | src/capture/screen.py:15-16 | on a 10×10 screen with a box of -3, Rust's corner is 6 and Python's is 7 |
| Geometry.Width | src/domain/geometry.py:10-12 | the width is the distance from xMin to xMax |
| Geometry.Height | src/domain/geometry.py:14-16 | the height is the distance from yMin to yMax |
| Geometry.SignOfExtent | src/domain/geometry.py:10-16 | nothing is validated: an inverted rectangle has a negative extent, and a degenerate one has zero extent |
| Geometry.ExtentsIndependent | src/domain/geometry.py:10-16 | the width ignores the y fields and the height ignores the x fields |

## Left out

- Socket I/O is not modelled. Binding, `set_read_timeout`, `send_to` and `recv_from` become the `Link` and `sendOk` inputs. A failure to bind or to set the timeout is one outcome, `ConnectFailure`. Any `recv_from` error is `Timeout`.
- The 1000 ms read timeout is not modelled beyond the `Timeout` outcome: there is no clock.
- The contents of the handshake reply are not modelled. Only its length and sender are checked by the code, and only those are modelled.
- Randomness is not modelled: the value `rand::random()` returns is the `nonce` parameter.
- Socket addresses other than IPv4 are not modelled. "ip:port" text naming an IPv6 address is reported as `InvalidAddress`. Host names are never resolved by the code.
- `set_picture` is left out. It is `unimplemented!()` and has no behaviour to model.
- `println!` output is left out.
- The frame grabbing is left out: OpenCV capture, `mss`, `grab`, windows and display loops. Only the crop arithmetic in `CardCapture::new` and `ScreenCapture.__init__` is modelled.
- `ScreenSize` equality is not stated as a lemma. It is Dafny's structural datatype equality, which matches the derived `Eq`.
- The `Mouse` trait declaration, the detector, the other domain classes and the entry points are left out. They hold no logic of this core.
- Geometry.Width: `int(...)` around the difference is the identity on the model's `int` fields. Dataclass annotations are not enforced, so a float field would be truncated toward zero; floats are not modelled.
- Geometry.Height: likewise for `int(...)` around `yMax - yMin`.
- Capture.ScreenRegion: Python integers are unbounded and are modelled as `int`. Monitor sizes are read from `mss` and are parameters.
- Bytes.EncodeU32: the native byte order of `bytes_of` is fixed to little-endian. A big-endian host would write every field reversed.
- KmBox.Run: a run ends at `shutdown` because `unimplemented!()` panics. What happens to the process after the panic is not modelled.

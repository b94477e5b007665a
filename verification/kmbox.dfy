/** The KmBox client: a session holding the device's address, its
    identifier and a wrapping sequence counter, the handshake that creates
    it, and the actions that turn into datagrams.

    Every operation is a pure function. The socket is replaced by inputs
    that say what the network did (whether the socket could be opened,
    whether a send went through, what reply arrived) and by outputs:
    `Connect` and `SetConfig` return the datagrams they hand to `send_to`;
    the `Mouse` actions return headers, which `Wire` turns into datagrams.
    The random nonce is an input. */
module KmBox {
  import opened Results
  import opened Bytes
  import opened Numerals
  import opened Net
  import opened Codec

  datatype Error =
    | ConnectFailure     // the local UDP socket could not be opened or set up
    | InvalidAddress     // "ip:port" is not a socket address
    | InvalidIdentity    // the identifier is not a hex `u32`
    | SendFailure        // `send_to` failed
    | Timeout            // `recv_from` gave up: no reply before the read timeout
    | UnexpectedSender   // the reply came from another address
    | MalformedResponse  // the reply is shorter than a header
    | Unsupported        // the operation is `unimplemented!()`

  /** `KmBox` without its socket. */
  datatype Session = Session(mac: U32, addr: SocketAddr, index: U32)

  type Datagram = seq<Byte>

  // ------------------------------------------------------------ sequencing

  /** A header and the session after stamping it. */
  datatype Stamped = Stamped(head: Header, session: Session)

  /** `next_header`: advances the index by one, wrapping from 2^32 - 1 to
      0, and stamps the new value, the session's identifier, the nonce and
      the command's code into a header. */
  function NextHeader(s: Session, cmd: Cmd, nonce: U32): (r: Stamped)
    ensures r.session.mac == s.mac && r.session.addr == s.addr
    ensures r.session.index == (if s.index == 0xFFFF_FFFF then 0 else s.index + 1)
    ensures r.head == Header(s.mac, nonce, r.session.index, CmdCode(cmd))
  {
    var next := s.(index := (s.index + 1) % U32Modulus);
    Stamped(Header(s.mac, nonce, next.index, CmdCode(cmd)), next)
  }

  // ------------------------------------------------------------ handshake

  /** What `recv_from` produced: nothing before the timeout, or a datagram
      of `len` bytes from `from`. */
  datatype Reply = NoReply | Received(len: nat, from: SocketAddr)

  /** What the network does during a handshake. */
  datatype Link = Link(socketOk: bool, sendOk: bool, reply: Reply)

  datatype Connected = Connected(sent: seq<Datagram>, result: Result<Session, Error>)

  /** `KmBox::connect`: open the socket, parse "ip:port", parse the hex
      identifier, send a Connect header with index 1, then accept the reply
      only if it comes from the dialled address and holds a header. */
  function Connect(ip: string, port: U16, macHex: string, nonce: U32, link: Link): (r: Connected)
    ensures r.result.Ok? <==>
      && link.socketOk
      && ParseSocketAddr(ip, port).Some?
      && ParseHexU32(macHex).Some?
      && link.sendOk
      && link.reply.Received?
      && link.reply.from == ParseSocketAddr(ip, port).value
      && link.reply.len >= HeaderSize
    ensures r.result.Ok? ==>
      r.result.value == Session(ParseHexU32(macHex).value, ParseSocketAddr(ip, port).value, 1)
    ensures |r.sent| <= 1
    ensures |r.sent| == 1 <==>
      link.socketOk && ParseSocketAddr(ip, port).Some? && ParseHexU32(macHex).Some?
    ensures |r.sent| == 1 ==>
      |r.sent[0]| == HeaderSize &&
      DecodeHeader(r.sent[0]) == Some(Header(ParseHexU32(macHex).value, nonce, 1, CmdCode(Cmd.Connect)))
  {
    if !link.socketOk then Connected([], Err(ConnectFailure))
    else
      match ParseSocketAddr(ip, port)
      case None => Connected([], Err(InvalidAddress))
      case Some(addr) =>
        match ParseHexU32(macHex)
        case None => Connected([], Err(InvalidIdentity))
        case Some(mac) =>
          var st := NextHeader(Session(mac, addr, 0), Cmd.Connect, nonce);
          DecodeEncodeHeader(st.head);
          var sent := [EncodeHeader(st.head)];
          if !link.sendOk then Connected(sent, Err(SendFailure))
          else
            match link.reply
            case NoReply => Connected(sent, Err(Timeout))
            case Received(len, from) =>
              if from != addr then Connected(sent, Err(UnexpectedSender))
              else if len < HeaderSize then Connected(sent, Err(MalformedResponse))
              else Connected(sent, Ok(st.session))
  }

  /** The handshake's checks in the order it makes them: each failure is
      reported only when every earlier check passed, whatever the later
      inputs are. */
  lemma ConnectErrorOrder(ip: string, port: U16, macHex: string, nonce: U32, link: Link)
    ensures !link.socketOk ==>
      Connect(ip, port, macHex, nonce, link).result == Err(ConnectFailure)
    ensures link.socketOk && ParseSocketAddr(ip, port).None? ==>
      Connect(ip, port, macHex, nonce, link).result == Err(InvalidAddress)
    ensures link.socketOk && ParseSocketAddr(ip, port).Some? && ParseHexU32(macHex).None? ==>
      Connect(ip, port, macHex, nonce, link).result == Err(InvalidIdentity)
    ensures link.socketOk && ParseSocketAddr(ip, port).Some? && ParseHexU32(macHex).Some? ==>
      var res := Connect(ip, port, macHex, nonce, link).result;
      var addr := ParseSocketAddr(ip, port).value;
      && (!link.sendOk ==> res == Err(SendFailure))
      && (link.sendOk && link.reply.NoReply? ==> res == Err(Timeout))
      && (link.sendOk && link.reply.Received? && link.reply.from != addr ==>
            res == Err(UnexpectedSender))
      && (link.sendOk && link.reply.Received? && link.reply.from == addr && link.reply.len < HeaderSize ==>
            res == Err(MalformedResponse))
  {
  }

  /** Connecting to 192.168.2.188:61697 as "FF313CAB" and hearing back a
      header-sized reply from that address gives a session whose identifier
      is 0xFF313CAB and whose index is 1. */
  lemma ConnectExample(nonce: U32)
    ensures var addr := SocketAddr(Ipv4(192, 168, 2, 188), 61697);
      var r := Connect("192.168.2.188", 61697, "FF313CAB", nonce, Link(true, true, Received(16, addr)));
      && r.result == Ok(Session(0xFF313CAB, addr, 1))
      && DecodeHeader(r.sent[0]).value.mac == 0xFF313CAB
  {
    var ip := Ipv4(192, 168, 2, 188);
    assert FormatIpv4(ip) == "192.168.2.188";
    ParseIpv4Iff("192.168.2.188", ip);
    ParseHexExample();
  }

  lemma ParseHexExample()
    ensures ParseHexU32("FF313CAB") == Some(0xFF313CAB)
  {
    var s := "FF313CAB";
    assert AllHex(s);
    assert s[..1] == "F" && HexValue("F") == 0xF;
    assert s[..2] == "FF" && "FF"[..1] == "F" && HexValue("FF") == 0xFF;
    assert "FF3"[..2] == "FF" && HexValue("FF3") == 0xFF3;
    assert "FF31"[..3] == "FF3" && HexValue("FF31") == 0xFF31;
    assert "FF313"[..4] == "FF31" && HexValue("FF313") == 0xFF313;
    assert "FF313C"[..5] == "FF313" && HexValue("FF313C") == 0xFF313C;
    assert "FF313CA"[..6] == "FF313C" && HexValue("FF313CA") == 0xFF313CA;
    assert s[..7] == "FF313CA" && HexValue(s) == 0xFF313CAB;
  }

  // ------------------------------------------------------------ actions

  /** Outcome of one action, as the caller sees it. */
  datatype Status = Done | Failed(error: Error)

  /** The datagrams one action sends and the session after it. */
  datatype Step = Step(sent: seq<Datagram>, session: Session, status: Status)

  /** The payload `set_config` sends: the port big-endian in the first two
      bytes, zeros after. */
  function ConfigPayload(port: U16): (d: ConfigData)
    ensures U16OfBE(d[0..2]) == port
    ensures forall i :: 2 <= i < ConfigDataSize ==> d[i] == 0
  {
    U16ToBE(port) + seq(1022, _ => 0)
  }

  /** `set_config`: one Config packet whose nonce field is the IPv4 address
      as a number (the random nonce drawn by `next_header` is overwritten)
      and whose payload starts with the port. A failed send is reported. */
  function SetConfig(s: Session, ip: Ipv4, port: U16, nonce: U32, sendOk: bool): (r: Step)
    ensures r.session == NextHeader(s, Cmd.SetConfig, nonce).session
    ensures |r.sent| == 1 && |r.sent[0]| == ConfigPacketSize
    ensures DecodeHeader(r.sent[0]) ==
      Some(Header(s.mac, Ipv4Bits(ip), r.session.index, CmdCode(Cmd.SetConfig)))
    ensures U16OfBE(r.sent[0][16..18]) == port
    ensures forall i :: 18 <= i < ConfigPacketSize ==> r.sent[0][i] == 0
    ensures r.status == (if sendOk then Done else Failed(SendFailure))
  {
    var st := NextHeader(s, Cmd.SetConfig, nonce);
    var packet := ConfigPacket(st.head.(rand := Ipv4Bits(ip)), ConfigPayload(port));
    DecodeEncodeConfig(packet);
    var bytes := EncodeConfig(packet);
    assert bytes[16..18] == packet.data[0..2];
    Step([bytes], st.session, if sendOk then Done else Failed(SendFailure))
  }

  /** Relay target 192.168.2.188:2000: the nonce field holds 0xC0A802BC,
      which goes on the wire as 188, 2, 168, 192, and the payload opens with
      0x07, 0xD0. */
  lemma SetConfigExample(s: Session, nonce: U32)
    ensures var d := SetConfig(s, Ipv4(192, 168, 2, 188), 2000, nonce, true).sent[0];
      && DecodeHeader(d).value.rand == 0xC0A802BC
      && d[4..8] == [188, 2, 168, 192]
      && d[16..18] == [0x07, 0xD0]
  {
    var ip := Ipv4(192, 168, 2, 188);
    Ipv4BitsWire(ip);
    var r := SetConfig(s, ip, 2000, nonce, true);
    var d := r.sent[0];
    var h := DecodeHeader(d).value;
    EncodeDecodeHeader(d);
    assert d[4..8] == d[..16][4..8] == EncodeHeader(h)[4..8];
    assert EncodeHeader(h)[4..8] == EncodeU32(h.rand);
    U16OfBEToBE(d[16..18]);
  }

  /** The methods of `impl Mouse for KmBox`. */
  datatype Action =
    | Left(down: bool)
    | Right(down: bool)
    | MoveDelta(x: I32, y: I32)
    | MoveAuto(x: I32, y: I32, delay: U32)
    | Reboot
    | Shutdown

  /** What the `Mouse` actions send. Every one of their datagrams is a bare
      header, so the trace records the headers and `Wire` gives the bytes. */
  datatype Trace = Trace(heads: seq<Header>, session: Session, status: Status)

  /** The datagrams that carry `heads`, in order: each is 16 bytes long and
      decodes back to its header. */
  function Wire(heads: seq<Header>): (w: seq<Datagram>)
    ensures |w| == |heads|
    ensures forall k :: 0 <= k < |w| ==> |w[k]| == HeaderSize && DecodeHeader(w[k]) == Some(heads[k])
    decreases |heads|
  {
    if |heads| == 0 then []
    else
      DecodeEncodeHeader(heads[0]);
      var w := [EncodeHeader(heads[0])] + Wire(heads[1..]);
      assert forall k :: 1 <= k < |w| ==> w[k] == Wire(heads[1..])[k - 1] && heads[k] == heads[1..][k - 1];
      w
  }

  /** `impl Mouse for KmBox`. Button and move actions send nothing (their
      sends are commented out); `reboot` sends one header and drops a send
      failure; `shutdown` is `unimplemented!()`. */
  function Perform(s: Session, a: Action, nonce: U32, sendOk: bool): (r: Trace)
    ensures r.session.mac == s.mac && r.session.addr == s.addr
    ensures r.session.index == (s.index + |r.heads|) % U32Modulus
    ensures r.heads == if a.Reboot? then [Header(s.mac, nonce, r.session.index, CmdCode(Cmd.Reboot))] else []
    ensures r.status == (if a.Shutdown? then Failed(Unsupported) else Done)
  {
    match a
    case Reboot =>
      var st := NextHeader(s, Cmd.Reboot, nonce);
      Trace([st.head], st.session, Done)
    case Shutdown => Trace([], s, Failed(Unsupported))
    case _ => Trace([], s, Done)
  }

  // ------------------------------------------------------------ traces

  /** One call into the `Mouse` trait with the nonce `random()` would give
      and whether the send would go through. */
  datatype Call = Call(action: Action, nonce: U32, sendOk: bool)

  /** The headers of a run from index `start`: the k-th carries `mac` and
      index start + k + 1, wrapping. */
  predicate Consecutive(heads: seq<Header>, mac: U32, start: U32)
  {
    forall k :: 0 <= k < |heads| ==>
      heads[k].mac == mac && heads[k].index == (start + k + 1) % U32Modulus
  }

  /** A run of calls on one session. It stops at the first failed call: the
      only one is `shutdown`, whose `unimplemented!()` panics. Every header
      carries the session's identifier and the next index in turn, and the
      index advances once per header sent. */
  function Run(s: Session, calls: seq<Call>): (r: Trace)
    ensures r.session.mac == s.mac && r.session.addr == s.addr
    ensures |r.heads| <= |calls|
    ensures r.session.index == (s.index + |r.heads|) % U32Modulus
    ensures Consecutive(r.heads, s.mac, s.index)
    ensures r.status == Done <==> NoShutdown(calls)
    decreases |calls|
  {
    if |calls| == 0 then Trace([], s, Done)
    else
      var c := calls[0];
      var first := Perform(s, c.action, c.nonce, c.sendOk);
      if first.status.Failed? then first
      else
        var rest := Run(first.session, calls[1..]);
        RunIndices(s, first, rest);
        Trace(first.heads + rest.heads, rest.session, rest.status)
  }

  /** No call in the list is a `shutdown`. */
  predicate NoShutdown(calls: seq<Call>)
  {
    |calls| == 0 || (!calls[0].action.Shutdown? && NoShutdown(calls[1..]))
  }

  lemma ModAdd(a: nat, b: nat)
    ensures (a % U32Modulus + b) % U32Modulus == (a + b) % U32Modulus
  {
    var m := U32Modulus;
    assert a == m * (a / m) + a % m;
    assert a + b == (a % m + b) + m * (a / m);
  }

  /** Joining one action's headers to the rest of a run keeps indices
      consecutive. */
  lemma RunIndices(s: Session, first: Trace, rest: Trace)
    requires |first.heads| <= 1
    requires first.session.index == (s.index + |first.heads|) % U32Modulus
    requires Consecutive(first.heads, s.mac, s.index)
    requires rest.session.index == (first.session.index + |rest.heads|) % U32Modulus
    requires Consecutive(rest.heads, s.mac, first.session.index)
    ensures rest.session.index == (s.index + |first.heads + rest.heads|) % U32Modulus
    ensures Consecutive(first.heads + rest.heads, s.mac, s.index)
  {
    var n := |first.heads|;
    ModAdd(s.index + n, |rest.heads|);
    var all := first.heads + rest.heads;
    forall k | 0 <= k < |all|
      ensures all[k].mac == s.mac && all[k].index == (s.index + k + 1) % U32Modulus
    {
      if k >= n {
        assert all[k] == rest.heads[k - n];
        ModAdd(s.index + n, k - n + 1);
      }
    }
  }

  function CountReboots(calls: seq<Call>): nat
  {
    if |calls| == 0 then 0
    else (if calls[0].action.Reboot? then 1 else 0) + CountReboots(calls[1..])
  }

  /** The calls before the first `shutdown`: a prefix of the run that holds
      no `shutdown` and is followed by one unless it is the whole run. */
  function UpToShutdown(calls: seq<Call>): (r: seq<Call>)
    ensures |r| <= |calls| && r == calls[..|r|]
    ensures NoShutdown(r)
    ensures |r| < |calls| ==> calls[|r|].action.Shutdown?
    decreases |calls|
  {
    if |calls| == 0 || calls[0].action.Shutdown? then []
    else
      var rest := UpToShutdown(calls[1..]);
      assert ([calls[0]] + rest)[1..] == rest;
      [calls[0]] + rest
  }

  /** A run sends exactly one header per `reboot` made before the first
      `shutdown` (every `reboot`, when there is none), and every one is a
      Reboot header. */
  lemma {:induction false} RunSendsReboots(s: Session, calls: seq<Call>)
    ensures var r := Run(s, calls);
      && |r.heads| == CountReboots(UpToShutdown(calls))
      && forall k :: 0 <= k < |r.heads| ==> r.heads[k].cmd == CmdCode(Cmd.Reboot)
    decreases |calls|
  {
    if |calls| > 0 && !calls[0].action.Shutdown? {
      var c := calls[0];
      var first := Perform(s, c.action, c.nonce, c.sendOk);
      var rest := Run(first.session, calls[1..]);
      RunSendsReboots(first.session, calls[1..]);
      var up := UpToShutdown(calls);
      assert up[1..] == UpToShutdown(calls[1..]);
      var all := first.heads + rest.heads;
      assert forall k :: |first.heads| <= k < |all| ==> all[k] == rest.heads[k - |first.heads|];
    }
  }

  /** Without a `shutdown` the prefix is the whole run, so every `reboot`
      sends its header. */
  lemma {:induction false} UpToShutdownWhole(calls: seq<Call>)
    requires NoShutdown(calls)
    ensures UpToShutdown(calls) == calls
    decreases |calls|
  {
    if |calls| > 0 {
      UpToShutdownWhole(calls[1..]);
      assert [calls[0]] + calls[1..] == calls;
    }
  }

  /** After a handshake, the datagrams of a run are headers stamped 2, 3,
      4, ... in order, each with the identifier parsed at connect time. */
  lemma HandshakeThenRun(session: Session, calls: seq<Call>)
    requires session.index == 1
    requires |calls| < 0xFFFF_FFFF
    ensures var r := Run(session, calls);
      var w := Wire(r.heads);
      forall k :: 0 <= k < |w| ==>
        DecodeHeader(w[k]).Some? &&
        DecodeHeader(w[k]).value.mac == session.mac && DecodeHeader(w[k]).value.index == k + 2
  {
    var r := Run(session, calls);
    forall k | 0 <= k < |r.heads|
      ensures r.heads[k].index == k + 2
    {
      assert (1 + k + 1) % U32Modulus == k + 2;
    }
  }
}

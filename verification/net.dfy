/** IPv4 socket addresses: the dotted-quad text Rust's address parser
    accepts, and the 32-bit number `u32::from(Ipv4Addr)` makes of one. */
module Net {
  import opened Results
  import opened Bytes
  import opened Numerals

  datatype Ipv4 = Ipv4(a: Byte, b: Byte, c: Byte, d: Byte)

  datatype SocketAddr = SocketAddr(ip: Ipv4, port: U16)

  // ------------------------------------------------------------ parsing

  /** One group of a dotted quad as Rust's address parser reads it: the run
      of decimal digits at the front, at most three of them, no leading zero
      unless the group is exactly "0", value within `u8`. Yields the value
      and the number of characters read. */
  function ReadOctet(s: string): Option<(Byte, nat)>
  {
    var k := DigitRun(s);
    if k == 0 || k > 3 then None
    else if s[0] == '0' && k > 1 then None
    else
      var v := DecValue(s[..k]);
      if v > 255 then None else Some((v, k))
  }

  /** `n` groups separated by '.', and nothing after the last one. */
  function ReadGroups(s: string, n: nat): (r: Option<seq<Byte>>)
    requires n >= 1
    ensures r.Some? ==> |r.value| == n
    decreases n
  {
    match ReadOctet(s)
    case None => None
    case Some((v, k)) =>
      if n == 1 then
        if k == |s| then Some([v]) else None
      else if k < |s| && s[k] == '.' then
        match ReadGroups(s[k + 1..], n - 1)
        case None => None
        case Some(rest) => Some([v] + rest)
      else None
  }

  /** `Ipv4Addr` parsing: the text parses exactly when it is the dotted
      quad of some address, and then gives that address. */
  function ParseIpv4(s: string): (r: Option<Ipv4>)
    ensures r.Some? ==> s == FormatIpv4(r.value)
    ensures forall ip :: s == FormatIpv4(ip) ==> r == Some(ip)
  {
    FormatsReadBack();
    match ReadGroups(s, 4)
    case None => None
    case Some(vs) =>
      FormatOfReadGroups(s, 4, vs);
      assert [vs[0], vs[1], vs[2], vs[3]] == vs;
      Some(Ipv4(vs[0], vs[1], vs[2], vs[3]))
  }

  /** `format!("{ip}:{port}").parse::<SocketAddr>()`. The port is formatted
      from a `u16` and always reads back; the text parses as an IPv4 socket
      address exactly when `ip` is a dotted quad. */
  function ParseSocketAddr(ip: string, port: U16): (r: Option<SocketAddr>)
    ensures r.Some? ==> r.value.port == port && ip == FormatIpv4(r.value.ip)
    ensures forall a :: ip == FormatIpv4(a) ==> r == Some(SocketAddr(a, port))
  {
    match ParseIpv4(ip)
    case None => None
    case Some(a) => Some(SocketAddr(a, port))
  }

  // ------------------------------------------------------------ printing

  function FormatOctets(vs: seq<Byte>): string
    requires |vs| >= 1
    decreases |vs|
  {
    if |vs| == 1 then DecByte(vs[0])
    else DecByte(vs[0]) + "." + FormatOctets(vs[1..])
  }

  /** The dotted-quad text of an address, as `Display` prints it. */
  function FormatIpv4(ip: Ipv4): string
  {
    FormatOctets([ip.a, ip.b, ip.c, ip.d])
  }

  // ------------------------------------------------------------ parse <-> print

  lemma {:induction false} DigitRunStops(ds: string, t: string)
    requires AllDec(ds)
    requires t == [] || !IsDecDigit(t[0])
    ensures DigitRun(ds + t) == |ds|
  {
    if |ds| > 0 {
      assert (ds + t)[1..] == ds[1..] + t;
      DigitRunStops(ds[1..], t);
    } else {
      assert ds + t == t;
    }
  }

  /** Values of one, two and three digits, leading digit first. */
  lemma DecValue1(ds: string)
    requires |ds| == 1
    ensures DecValue(ds) == DecDigitValue(ds[0])
  {
    assert ds[..0] == [];
  }

  lemma DecValue2(ds: string)
    requires |ds| == 2
    ensures DecValue(ds) == 10 * DecDigitValue(ds[0]) + DecDigitValue(ds[1])
  {
    assert ds[..1] == [ds[0]];
    DecValue1(ds[..1]);
  }

  lemma DecValue3(ds: string)
    requires |ds| == 3
    ensures DecValue(ds) == 100 * DecDigitValue(ds[0]) + 10 * DecDigitValue(ds[1]) + DecDigitValue(ds[2])
  {
    assert ds[..2] == [ds[0], ds[1]];
    DecValue2(ds[..2]);
  }

  /** Place-value arithmetic for two and three decimal digits. */
  lemma Digits2Arith(d0: int, d1: int)
    requires 0 <= d0 < 10 && 0 <= d1 < 10
    ensures (10 * d0 + d1) / 10 == d0 && (10 * d0 + d1) % 10 == d1
  {
  }

  lemma Digits3Arith(d0: int, d1: int, d2: int)
    requires 0 <= d0 < 10 && 0 <= d1 < 10 && 0 <= d2 < 10
    ensures var v := 100 * d0 + 10 * d1 + d2;
      v / 100 == d0 && v / 10 % 10 == d1 && v % 10 == d2
  {
  }

  lemma ByteDigitsArith(v: int)
    requires 0 <= v < 256
    ensures v == 100 * (v / 100) + 10 * (v / 10 % 10) + v % 10
    ensures 10 <= v < 100 ==> v == 10 * (v / 10) + v % 10 && v / 10 < 10
  {
  }

  lemma DecValueOfDecByte(v: Byte)
    ensures DecValue(DecByte(v)) == v
  {
    var s := DecByte(v);
    ByteDigitsArith(v);
    if |s| == 1 {
      DecValue1(s);
    } else if |s| == 2 {
      DecValue2(s);
    } else {
      DecValue3(s);
    }
  }

  lemma CanonicalDigits2(ds: string)
    requires |ds| == 2 && IsDecDigit(ds[0]) && IsDecDigit(ds[1]) && ds[0] != '0'
    requires DecValue(ds) <= 255
    ensures DecByte(DecValue(ds)) == ds
  {
    var d0, d1 := DecDigitValue(ds[0]), DecDigitValue(ds[1]);
    DecValue2(ds);
    Digits2Arith(d0, d1);
    assert 1 <= d0;
    assert [DecDigitChar(d0), DecDigitChar(d1)] == ds;
  }

  lemma CanonicalDigits3(ds: string)
    requires |ds| == 3 && IsDecDigit(ds[0]) && IsDecDigit(ds[1]) && IsDecDigit(ds[2])
    requires ds[0] != '0' && DecValue(ds) <= 255
    ensures DecByte(DecValue(ds)) == ds
  {
    var d0, d1, d2 := DecDigitValue(ds[0]), DecDigitValue(ds[1]), DecDigitValue(ds[2]);
    DecValue3(ds);
    Digits3Arith(d0, d1, d2);
    assert 1 <= d0;
    assert [DecDigitChar(d0), DecDigitChar(d1), DecDigitChar(d2)] == ds;
  }

  /** Digits without a leading zero whose value fits a byte are that
      byte's canonical text. */
  lemma CanonicalDigits(ds: string)
    requires 1 <= |ds| <= 3 && AllDec(ds)
    requires |ds| > 1 ==> ds[0] != '0'
    requires DecValue(ds) <= 255
    ensures DecByte(DecValue(ds)) == ds
  {
    if |ds| == 1 {
      DecValue1(ds);
      assert [DecDigitChar(DecDigitValue(ds[0]))] == ds;
    } else if |ds| == 2 {
      CanonicalDigits2(ds);
    } else {
      CanonicalDigits3(ds);
    }
  }

  /** A group the parser accepts is the canonical text of its value. */
  lemma ReadOctetCanonical(s: string)
    requires ReadOctet(s).Some?
    ensures var (v, k) := ReadOctet(s).value; k == |DecByte(v)| <= |s| && s[..k] == DecByte(v)
  {
    var k := DigitRun(s);
    DigitRunSpan(s);
    CanonicalDigits(s[..k]);
  }

  /** The canonical text of a byte reads back, up to the first non-digit. */
  lemma ReadOctetOfDecByte(v: Byte, t: string)
    requires t == [] || !IsDecDigit(t[0])
    ensures ReadOctet(DecByte(v) + t) == Some((v, |DecByte(v)|))
  {
    var ds := DecByte(v);
    DecByteDigits(v);
    DigitRunStops(ds, t);
    assert (ds + t)[..|ds|] == ds;
    DecValueOfDecByte(v);
  }

  /** One step of `ReadGroups`: a group, a dot, and the remaining groups. */
  lemma ReadGroupsCons(s: string, n: nat, k: nat, t: string, vs: seq<Byte>)
    requires n >= 2 && |vs| == n && ReadOctet(s) == Some((vs[0], k))
    requires k < |s| && s[k] == '.' && s[k + 1..] == t
    requires ReadGroups(t, n - 1) == Some(vs[1..])
    ensures ReadGroups(s, n) == Some(vs)
  {
    assert [vs[0]] + vs[1..] == vs;
  }

  /** What a successful read of several groups is made of. */
  lemma ReadGroupsSplit(s: string, n: nat, vs: seq<Byte>)
    requires n >= 2 && ReadGroups(s, n) == Some(vs)
    ensures ReadOctet(s).Some?
    ensures var (v, k) := ReadOctet(s).value;
      && k < |s| && s[k] == '.' && v == vs[0]
      && ReadGroups(s[k + 1..], n - 1) == Some(vs[1..])
  {
  }

  /** Where the dot sits in `ds + "." + rest`. */
  lemma DotJoin(ds: string, rest: string)
    ensures var s := ds + "." + rest;
      && s == ds + ("." + rest)
      && |ds| < |s| && s[|ds|] == '.' && s[|ds| + 1..] == rest
  {
    var s := ds + "." + rest;
    assert s[|ds| + 1..] == rest;
  }

  /** A group that reads to its end, a dot, and groups that parse. */
  lemma ReadGroupsAfterGroup(ds: string, rest: string, n: nat, vs: seq<Byte>)
    requires n >= 2 && |vs| == n
    requires ReadOctet(ds + ("." + rest)) == Some((vs[0], |ds|))
    requires ReadGroups(rest, n - 1) == Some(vs[1..])
    ensures ReadGroups(ds + "." + rest, n) == Some(vs)
  {
    DotJoin(ds, rest);
    ReadGroupsCons(ds + "." + rest, n, |ds|, rest, vs);
  }

  /** A byte's canonical text, a dot, and groups that parse. */
  lemma ReadGroupsOfDecByte(rest: string, n: nat, vs: seq<Byte>)
    requires n >= 2 && |vs| == n && ReadGroups(rest, n - 1) == Some(vs[1..])
    ensures ReadGroups(DecByte(vs[0]) + "." + rest, n) == Some(vs)
  {
    ReadOctetOfDecByte(vs[0], "." + rest);
    ReadGroupsAfterGroup(DecByte(vs[0]), rest, n, vs);
  }

  /** A single group reads back. */
  lemma ReadGroupsOfFormatOne(vs: seq<Byte>)
    requires |vs| == 1
    ensures ReadGroups(FormatOctets(vs), 1) == Some(vs)
  {
    assert DecByte(vs[0]) + [] == DecByte(vs[0]);
    ReadOctetOfDecByte(vs[0], []);
    assert [vs[0]] == vs;
  }

  lemma FormatOctetsFirst(vs: seq<Byte>)
    requires |vs| >= 2
    ensures FormatOctets(vs) == DecByte(vs[0]) + "." + FormatOctets(vs[1..])
  {
  }

  /** If the later groups read back, so do all of them. */
  lemma ReadGroupsOfFormatCons(vs: seq<Byte>, n: nat, rest: string)
    requires n == |vs| >= 2 && rest == FormatOctets(vs[1..])
    requires ReadGroups(rest, n - 1) == Some(vs[1..])
    ensures ReadGroups(FormatOctets(vs), n) == Some(vs)
  {
    FormatOctetsFirst(vs);
    ReadGroupsOfDecByte(rest, n, vs);
  }

  /** The text of `n` bytes reads back as those bytes. */
  lemma {:induction false} ReadGroupsOfFormat(vs: seq<Byte>, n: nat)
    requires n == |vs| >= 1
    ensures ReadGroups(FormatOctets(vs), n) == Some(vs)
    decreases n
  {
    if n == 1 {
      ReadGroupsOfFormatOne(vs);
    } else {
      ReadGroupsOfFormat(vs[1..], n - 1);
      ReadGroupsOfFormatCons(vs, n, FormatOctets(vs[1..]));
    }
  }

  /** A string is its prefix, the character at the cut, and its suffix. */
  lemma SplitAt(s: string, k: nat)
    requires k < |s|
    ensures s == s[..k] + [s[k]] + s[k + 1..]
  {
  }

  /** Reassembling a string from its first group, the dot, and the rest. */
  lemma FormatOctetsCons(s: string, k: nat, vs: seq<Byte>)
    requires |vs| >= 2 && k < |s| && s[..k] == DecByte(vs[0]) && s[k] == '.'
    requires FormatOctets(vs[1..]) == s[k + 1..]
    ensures FormatOctets(vs) == s
  {
    SplitAt(s, k);
  }

  lemma FormatOfReadGroupsOne(s: string, vs: seq<Byte>)
    requires ReadGroups(s, 1) == Some(vs)
    ensures FormatOctets(vs) == s
  {
    ReadOctetCanonical(s);
    var (v, k) := ReadOctet(s).value;
    assert vs == [v] && k == |s|;
    assert s[..k] == s;
  }

  /** If the later groups print back to the text after the first dot, all
      of them print back to the whole text. */
  lemma FormatOfReadGroupsCons(s: string, k: nat, tail: string, vs: seq<Byte>)
    requires |vs| >= 2 && ReadOctet(s) == Some((vs[0], k))
    requires k < |s| && s[k] == '.' && tail == s[k + 1..]
    requires FormatOctets(vs[1..]) == tail
    ensures FormatOctets(vs) == s
  {
    ReadOctetCanonical(s);
    FormatOctetsCons(s, k, vs);
  }

  lemma {:induction false} FormatOfReadGroups(s: string, n: nat, vs: seq<Byte>)
    requires n >= 1 && ReadGroups(s, n) == Some(vs)
    ensures FormatOctets(vs) == s
    decreases n
  {
    if n == 1 {
      FormatOfReadGroupsOne(s, vs);
    } else {
      ReadGroupsSplit(s, n, vs);
      var k := ReadOctet(s).value.1;
      FormatOfReadGroups(s[k + 1..], n - 1, vs[1..]);
      FormatOfReadGroupsCons(s, k, s[k + 1..], vs);
    }
  }

  /** A string parses as an IPv4 address exactly when it is that address's
      dotted-quad text: no leading zeros, no spaces, no fifth group. */
  lemma ParseIpv4Iff(s: string, ip: Ipv4)
    ensures ParseIpv4(s) == Some(ip) <==> s == FormatIpv4(ip)
  {
  }

  /** Every printed address reads back as its four octets. */
  lemma FormatsReadBack()
    ensures forall ip :: ReadGroups(FormatIpv4(ip), 4) == Some([ip.a, ip.b, ip.c, ip.d])
  {
    forall ip: Ipv4
      ensures ReadGroups(FormatIpv4(ip), 4) == Some([ip.a, ip.b, ip.c, ip.d])
    {
      ReadGroupsOfFormat([ip.a, ip.b, ip.c, ip.d], 4);
    }
  }

  // ------------------------------------------------------------ as a number

  /** `u32::from(ip)`: the octets read as one big-endian number, that is
      a<<24 | b<<16 | c<<8 | d. */
  function Ipv4Bits(ip: Ipv4): (u: U32)
    ensures u == ip.a * 0x100_0000 + ip.b * 0x1_0000 + ip.c * 0x100 + ip.d
  {
    Pow256Values();
    var bs: seq<Byte> := [ip.d, ip.c, ip.b, ip.a];
    assert FromLE(bs[3..]) == ip.a by { assert bs[3..][1..] == []; }
    assert bs[2..][1..] == bs[3..] && bs[1..][1..] == bs[2..];
    assert FromLE(bs[2..]) == ip.b + 256 * ip.a;
    assert FromLE(bs[1..]) == ip.c + 256 * (ip.b + 256 * ip.a);
    FromLE(bs)
  }

  /** `Ipv4Addr::from(u32)`, the inverse of `Ipv4Bits`. */
  function Ipv4OfBits(u: U32): Ipv4
  {
    var bs := EncodeU32(u);
    Ipv4(bs[3], bs[2], bs[1], bs[0])
  }

  lemma Ipv4BitsRoundTrip(ip: Ipv4, u: U32)
    ensures Ipv4OfBits(Ipv4Bits(ip)) == ip
    ensures Ipv4Bits(Ipv4OfBits(u)) == u
  {
    Pow256Values();
    ToFromLE([ip.d, ip.c, ip.b, ip.a]);
    EncodeU32IsLE(Ipv4Bits(ip));
    var bs := EncodeU32(u);
    EncodeU32IsLE(u);
    DecodeU32IsLE(bs);
    assert [bs[0], bs[1], bs[2], bs[3]] == bs;
  }

  /** Written in native (little-endian) order, the number puts the octets
      on the wire last-first. */
  lemma Ipv4BitsWire(ip: Ipv4)
    ensures EncodeU32(Ipv4Bits(ip)) == [ip.d, ip.c, ip.b, ip.a]
  {
    Pow256Values();
    ToFromLE([ip.d, ip.c, ip.b, ip.a]);
    EncodeU32IsLE(Ipv4Bits(ip));
  }
}

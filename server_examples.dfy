/** The inputs and outputs of the server's tests, worked through the model:
    ifconfig lines, the address property with and without an override and
    after the TTL, the RuntimeError, the hostname source and the queries. */
module ServerExamples {
  import opened Common
  import opened Text
  import opened AddressSelector
  import opened AddressSelectorExamples
  import opened Ifconfig
  import opened Wire
  import opened Server

  // ---------------------------------------------------------------- ifconfig lines

  lemma Indent(pad: string)
    requires forall k :: 0 <= k < |pad| ==> pad[k] == ' '
    ensures AllSpace(pad)
  {
  }

  /** What a line needs of the text after its address token. */
  predicate Trailer(rest: string)
  {
    rest == [] || (rest[0] == ' ' && !IsSpace(rest[|rest| - 1]))
  }

  /** A token without a colon is its own text after the last colon. */
  lemma NoColon(token: string)
    requires ':' !in token
    ensures Last(Split(token, ':')) == token
  {
    SplitWithoutSep(token, ':');
  }

  /** A line of blanks, `inet` and a space, a token without colon or blank,
      and a trailer names the token and holds no newline. */
  lemma AddressLine(line: string, pad: string, token: string, rest: string)
    requires line == pad + "inet " + token + rest && (forall k :: 0 <= k < |pad| ==> pad[k] == ' ')
    requires token != [] && ' ' !in token && ':' !in token && !IsSpace(token[|token| - 1])
    requires Trailer(rest) && '\n' !in token && '\n' !in rest
    ensures InetAddress(line) == Some(token) && '\n' !in line
  {
    Indent(pad);
    NoColon(token);
    assert line == pad + "inet " + token + rest + [];
    InetLine(line, pad, token, rest, []);
    NewlineFreeLine(line, pad, token, rest);
  }

  lemma NewlineFreeLine(line: string, pad: string, token: string, rest: string)
    requires line == pad + "inet " + token + rest && (forall k :: 0 <= k < |pad| ==> pad[k] == ' ')
    requires '\n' !in token && '\n' !in rest
    ensures '\n' !in line
  {
    var core := "inet " + token + rest;
    assert line == pad + core;
    forall k | 0 <= k < |core|
      ensures core[k] != '\n'
    {
      if 5 <= k < 5 + |token| {
        assert core[k] == token[k - 5];
      } else if k >= 5 + |token| {
        assert core[k] == rest[k - 5 - |token|];
      }
    }
    NoNewlineAfterPad(line, pad, core);
  }

  /** The loopback address line of the macOS output. */
  lemma MacInetLine(line: string, pad: string, token: string, rest: string)
    requires pad == "        " && token == "127.0.0.1" && rest == " netmask 0xff000000"
    requires line == pad + "inet " + token + rest
    ensures InetAddress(line) == Some(token) && '\n' !in line
  {
    assert token[|token| - 1] == '1' && rest[0] == ' ' && rest[|rest| - 1] == '0';
    AddressLine(line, pad, token, rest);
  }

  /** The text after the last colon of a token with one colon. */
  lemma AfterOneColon(tag: string, address: string)
    requires ':' !in tag && ':' !in address
    ensures Last(Split(tag + [':'] + address, ':')) == address
  {
    SplitAtSep(tag, address, ':');
    SplitWithoutSep(tag, ':');
    SplitWithoutSep(address, ':');
  }

  lemma LinuxToken(token: string, tag: string, address: string)
    requires tag == "addr" && address == "172.19.0.1" && token == tag + [':'] + address
    ensures ' ' !in token && !IsSpace(token[|token| - 1])
    ensures ':' !in tag && ':' !in address
  {
    assert ' ' !in tag && ' ' !in address;
    assert token[|token| - 1] == address[|address| - 1] == '1';
  }

  /** A Linux line of the third ifconfig test: the address follows `addr:`. */
  lemma LinuxInetLine(line: string, pad: string, tag: string, address: string, rest: string)
    requires pad == "          " && tag == "addr" && address == "172.19.0.1"
    requires rest == "  Bcast:0.0.0.0  Mask:255.255.0.0"
    requires line == pad + "inet " + tag + [':'] + address + rest
    ensures InetAddress(line) == Some(address)
  {
    Indent(pad);
    var token := tag + [':'] + address;
    LinuxToken(token, tag, address);
    AfterOneColon(tag, address);
    assert Trailer(rest) by { assert rest[|rest| - 1] == '0'; }
    assert line == pad + "inet " + token + rest + [];
    InetLine(line, pad, token, rest, []);
  }

  /** A line whose stripped text does not start with `inet` and a space names nothing. */
  lemma SkippedLine(line: string)
    requires |Strip(line)| < 5 || Strip(line)[4] != ' '
    ensures InetAddress(line) == None
  {
    InetAddressWhen(line);
  }

  /** An IPv6 line names nothing. */
  lemma Inet6Line(line: string, pad: string, rest: string)
    requires pad == "        " && rest == " ::1 prefixlen 128"
    requires line == pad + "inet6" + rest
    ensures InetAddress(line) == None
  {
    Indent(pad);
    var core := "inet6" + rest;
    assert core[0] == 'i' && core[4] == '6' && core[|core| - 1] == '8';
    assert !IsSpace(core[0]) && !IsSpace(core[|core| - 1]);
    var none: string := [];
    assert AllSpace(none);
    assert line == pad + core + none;
    StripOfPadded(pad, core, none);
    SkippedLine(line);
  }

  /** Empty output names no address. */
  lemma EmptyIfconfig(output: string)
    requires output == ""
    ensures ByIfconfig(Some(output)) == Success(None)
  {
    SplitWithoutSep(output, '\n');
    InetAddressWhen(output);
    assert [output][..0] == [];
    assert InetAddresses([output]) == [];
    assert Chosen([]) == None;
  }

  /** What the per-line lemmas need of a text that is not an address line:
      no surrounding whitespace, no `inet` and space at its start, no newline. */
  predicate PlainText(core: string)
  {
    && core != [] && !IsSpace(core[0]) && !IsSpace(core[|core| - 1])
    && (|core| >= 5 ==> core[0] != 'i' || core[4] != ' ')
    && '\n' !in core
  }

  /** A line of blanks and a plain text names nothing and holds no newline. */
  lemma OtherLine(line: string, pad: string, a: string, b: string)
    requires line == pad + a + b && (forall k :: 0 <= k < |pad| ==> pad[k] == ' ')
    requires PlainText(a + b)
    ensures InetAddress(line) == None && '\n' !in line
  {
    var core := a + b;
    assert line == pad + core;
    NoNewlineAfterPad(line, pad, core);
    PlainLineSkipped(line, pad, core);
  }

  lemma PlainLineSkipped(line: string, pad: string, core: string)
    requires line == pad + core && (forall k :: 0 <= k < |pad| ==> pad[k] == ' ')
    requires PlainText(core)
    ensures InetAddress(line) == None
  {
    Indent(pad);
    var none: string := [];
    assert AllSpace(none);
    assert line == pad + core + none;
    StripOfPadded(pad, core, none);
    InetAddressWhen(line);
    if |core| >= 5 {
      assert core[..5][0] == core[0] && core[..5][4] == core[4];
    }
  }

  /** Blanks in front of a text add no newline. */
  lemma NoNewlineAfterPad(line: string, pad: string, core: string)
    requires line == pad + core && (forall k :: 0 <= k < |pad| ==> pad[k] == ' ')
    requires '\n' !in core
    ensures '\n' !in line
  {
    forall k | 0 <= k < |line|
      ensures line[k] != '\n'
    {
      if k >= |pad| {
        assert line[k] == core[k - |pad|];
      }
    }
  }

  /** A text made of two pieces is plain when its ends are and neither piece
      holds a newline. */
  lemma PlainPieces(a: string, b: string)
    requires |a| >= 5 && !IsSpace(a[0]) && (a[0] != 'i' || a[4] != ' ')
    requires b == [] || !IsSpace(b[|b| - 1])
    requires b == [] ==> !IsSpace(a[|a| - 1])
    requires '\n' !in a && '\n' !in b
    ensures PlainText(a + b)
  {
    var core := a + b;
    assert core[0] == a[0] && core[4] == a[4];
    if b == [] {
      assert core == a;
    } else {
      assert core[|core| - 1] == b[|b| - 1];
    }
  }

  // The lines of the macOS output that name no address, each written as
  // blanks and at most two pieces.

  lemma LoopbackFlags(line: string, a: string, b: string)
    requires line == a + b
    requires a == "lo0: flags=8049<UP,LOOPBACK," && b == "RUNNING,MULTICAST> mtu 16384"
    ensures InetAddress(line) == None && '\n' !in line
  {
    PlainPieces(a, b);
    assert line == "" + a + b;
    OtherLine(line, "", a, b);
  }

  lemma LoopbackOptions(line: string, pad: string, a: string, b: string)
    requires line == pad + a + b && (forall k :: 0 <= k < |pad| ==> pad[k] == ' ')
    requires a == "options=1203<RXCSUM,TXCSUM," && b == "TXSTATUS,SW_TIMESTAMP>"
    ensures InetAddress(line) == None && '\n' !in line
  {
    PlainPieces(a, b);
    assert line == pad + a + b;
    OtherLine(line, pad, a, b);
  }

  lemma LoopbackInet6(line: string, pad: string, a: string)
    requires line == pad + a && (forall k :: 0 <= k < |pad| ==> pad[k] == ' ')
    requires a == "inet6 ::1 prefixlen 128"
    ensures InetAddress(line) == None && '\n' !in line
  {
    PlainPieces(a, "");
    assert line == pad + a + "";
    OtherLine(line, pad, a, "");
  }

  lemma LoopbackLinkLocal(line: string, pad: string, a: string, b: string)
    requires line == pad + a + b && (forall k :: 0 <= k < |pad| ==> pad[k] == ' ')
    requires a == "inet6 fe80::1%lo0 " && b == "prefixlen 64 scopeid 0x1"
    ensures InetAddress(line) == None && '\n' !in line
  {
    PlainPieces(a, b);
    assert line == pad + a + b;
    OtherLine(line, pad, a, b);
  }

  lemma NeighbourOptions(line: string, pad: string, a: string)
    requires line == pad + a && (forall k :: 0 <= k < |pad| ==> pad[k] == ' ')
    requires a == "nd6 options=201<PERFORMNUD,DAD>"
    ensures InetAddress(line) == None && '\n' !in line
  {
    PlainPieces(a, "");
    assert line == pad + a + "";
    OtherLine(line, pad, a, "");
  }

  lemma TunnelFlags(line: string, a: string, b: string)
    requires line == a + b
    requires a == "gif0: flags=8010<POINTOPOINT," && b == "MULTICAST> mtu 1280"
    ensures InetAddress(line) == None && '\n' !in line
  {
    PlainPieces(a, b);
    assert line == "" + a + b;
    OtherLine(line, "", a, b);
  }

  lemma SixToFourFlags(line: string, a: string)
    requires line == a
    requires a == "stf0: flags=0<> mtu 1280"
    ensures InetAddress(line) == None && '\n' !in line
  {
    PlainPieces(a, "");
    assert line == "" + a + "";
    OtherLine(line, "", a, "");
  }

  lemma EthernetFlags(line: string, a: string, b: string)
    requires line == a + b
    requires a == "en0: flags=8863<UP,BROADCAST,SMART," && b == "RUNNING,SIMPLEX,MULTICAST> mtu 1500"
    ensures InetAddress(line) == None && '\n' !in line
  {
    PlainPieces(a, b);
    assert line == "" + a + b;
    OtherLine(line, "", a, b);
  }

  lemma EthernetHardware(line: string, pad: string, a: string)
    requires line == pad + a && (forall k :: 0 <= k < |pad| ==> pad[k] == ' ')
    requires a == "ether a4:5e:60:ee:b9:55"
    ensures InetAddress(line) == None && '\n' !in line
  {
    PlainPieces(a, "");
    assert line == pad + a + "";
    OtherLine(line, pad, a, "");
  }

  lemma EthernetMedia(line: string, pad: string, a: string)
    requires line == pad + a && (forall k :: 0 <= k < |pad| ==> pad[k] == ' ')
    requires a == "media: autoselect"
    ensures InetAddress(line) == None && '\n' !in line
  {
    PlainPieces(a, "");
    assert line == pad + a + "";
    OtherLine(line, pad, a, "");
  }

  lemma EthernetStatus(line: string, pad: string, a: string)
    requires line == pad + a && (forall k :: 0 <= k < |pad| ==> pad[k] == ' ')
    requires a == "status: active"
    ensures InetAddress(line) == None && '\n' !in line
  {
    PlainPieces(a, "");
    assert line == pad + a + "";
    OtherLine(line, pad, a, "");
  }

  /** The address line of the Ethernet interface of the macOS output. */
  lemma EthernetInetLine(line: string, pad: string, token: string, netmask: string, broadcast: string)
    requires pad == "        " && token == "10.10.10.10"
    requires netmask == " netmask 0xffffff00" && broadcast == " broadcast 10.10.10.255"
    requires line == pad + "inet " + token + netmask + broadcast
    ensures InetAddress(line) == Some(token) && '\n' !in line
  {
    var rest := netmask + broadcast;
    assert token[|token| - 1] == '0' && rest[0] == ' ' && rest[|rest| - 1] == '5';
    assert '\n' !in netmask && '\n' !in broadcast;
    assert forall k :: 0 <= k < |rest| ==> rest[k] == if k < |netmask| then netmask[k] else broadcast[k - |netmask|];
    assert line == pad + "inet " + token + rest;
    AddressLine(line, pad, token, rest);
  }

  /** The two addresses the macOS output names; the Ethernet one is chosen. */
  lemma MacChoice(s0: string, s1: string)
    requires s0 == "127.0.0.1" && s1 == "10.10.10.10"
    ensures Chosen([s0, s1]) == Some(s1)
  {
    Accepts127_0_0_1(s0);
    Accepts10_10_10_10(s1);
    PossibleOfTwo(s0, s1);
    var ps: seq<Parts> := [[127, 0, 0, 1], [10, 10, 10, 10]];
    assert Possible([s0, s1]) == ps;
    assert Key(ps[0]) == "0-1" && Key(ps[1]) == "1-10";
    assert LexLe("0-1", "1-10");
    LastWins(ps);
    Picks([s0, s1], ps, 1);
  }

  /** The first ifconfig test: the macOS output of a loopback, two tunnel
      and one Ethernet interface, its fourteen lines joined by newlines,
      names 127.0.0.1 and 10.10.10.10, and 10.10.10.10 is returned. Long
      lines are written as concatenations. */
  lemma MacIfconfig(l0: string, l1: string, l2: string, l3: string, l4: string, l5: string, l6: string,
                    l7: string, l8: string, l9: string, l10: string, l11: string, l12: string, l13: string,
                    output: string)
    requires l0 == "lo0: flags=8049<UP,LOOPBACK," + "RUNNING,MULTICAST> mtu 16384"
    requires l1 == "        " + "options=1203<RXCSUM,TXCSUM," + "TXSTATUS,SW_TIMESTAMP>"
    requires l2 == "        " + "inet " + "127.0.0.1" + " netmask 0xff000000"
    requires l3 == "        " + "inet6 ::1 prefixlen 128"
    requires l4 == "        " + "inet6 fe80::1%lo0 " + "prefixlen 64 scopeid 0x1"
    requires l5 == "        " + "nd6 options=201<PERFORMNUD,DAD>"
    requires l6 == "gif0: flags=8010<POINTOPOINT," + "MULTICAST> mtu 1280"
    requires l7 == "stf0: flags=0<> mtu 1280"
    requires l8 == "en0: flags=8863<UP,BROADCAST,SMART," + "RUNNING,SIMPLEX,MULTICAST> mtu 1500"
    requires l9 == "        " + "ether a4:5e:60:ee:b9:55"
    requires l10 == "        " + "inet " + "10.10.10.10" + " netmask 0xffffff00" + " broadcast 10.10.10.255"
    requires l11 == "        " + "nd6 options=201<PERFORMNUD,DAD>"
    requires l12 == "        " + "media: autoselect"
    requires l13 == "        " + "status: active"
    requires output == l0 + "\n" + l1 + "\n" + l2 + "\n" + l3 + "\n" + l4 + "\n" + l5 + "\n" + l6
                     + "\n" + l7 + "\n" + l8 + "\n" + l9 + "\n" + l10 + "\n" + l11 + "\n" + l12 + "\n" + l13
    ensures ByIfconfig(Some(output)) == Success(Some("10.10.10.10"))
  {
    var pad := "        ";
    LoopbackFlags(l0, "lo0: flags=8049<UP,LOOPBACK,", "RUNNING,MULTICAST> mtu 16384");
    LoopbackOptions(l1, pad, "options=1203<RXCSUM,TXCSUM,", "TXSTATUS,SW_TIMESTAMP>");
    MacInetLine(l2, pad, "127.0.0.1", " netmask 0xff000000");
    LoopbackInet6(l3, pad, "inet6 ::1 prefixlen 128");
    LoopbackLinkLocal(l4, pad, "inet6 fe80::1%lo0 ", "prefixlen 64 scopeid 0x1");
    NeighbourOptions(l5, pad, "nd6 options=201<PERFORMNUD,DAD>");
    TunnelFlags(l6, "gif0: flags=8010<POINTOPOINT,", "MULTICAST> mtu 1280");
    SixToFourFlags(l7, "stf0: flags=0<> mtu 1280");
    EthernetFlags(l8, "en0: flags=8863<UP,BROADCAST,SMART,", "RUNNING,SIMPLEX,MULTICAST> mtu 1500");
    EthernetHardware(l9, pad, "ether a4:5e:60:ee:b9:55");
    EthernetInetLine(l10, pad, "10.10.10.10", " netmask 0xffffff00", " broadcast 10.10.10.255");
    NeighbourOptions(l11, pad, "nd6 options=201<PERFORMNUD,DAD>");
    EthernetMedia(l12, pad, "media: autoselect");
    EthernetStatus(l13, pad, "status: active");
    MacOutput(l0, l1, l2, l3, l4, l5, l6, l7, l8, l9, l10, l11, l12, l13, output);
    MacChoice("127.0.0.1", "10.10.10.10");
  }

  /** The shape of the macOS output: of fourteen lines without a newline,
      the third and the eleventh name an address. */
  lemma MacOutput(l0: string, l1: string, l2: string, l3: string, l4: string, l5: string, l6: string,
                  l7: string, l8: string, l9: string, l10: string, l11: string, l12: string, l13: string,
                  output: string)
    requires InetAddress(l0).None? && InetAddress(l1).None? && InetAddress(l3).None?
    requires InetAddress(l4).None? && InetAddress(l5).None? && InetAddress(l6).None?
    requires InetAddress(l7).None? && InetAddress(l8).None? && InetAddress(l9).None?
    requires InetAddress(l11).None? && InetAddress(l12).None? && InetAddress(l13).None?
    requires InetAddress(l2).Some? && InetAddress(l10).Some?
    requires '\n' !in l0 && '\n' !in l1 && '\n' !in l2 && '\n' !in l3 && '\n' !in l4
    requires '\n' !in l5 && '\n' !in l6 && '\n' !in l7 && '\n' !in l8 && '\n' !in l9
    requires '\n' !in l10 && '\n' !in l11 && '\n' !in l12 && '\n' !in l13
    requires output == l0 + "\n" + l1 + "\n" + l2 + "\n" + l3 + "\n" + l4 + "\n" + l5 + "\n" + l6
                     + "\n" + l7 + "\n" + l8 + "\n" + l9 + "\n" + l10 + "\n" + l11 + "\n" + l12 + "\n" + l13
    ensures ByIfconfig(Some(output)) == Success(Chosen([InetAddress(l2).value, InetAddress(l10).value]))
  {
    var v2, v10 := InetAddress(l2).value, InetAddress(l10).value;
    var o := l0;
    SplitWithoutSep(l0, '\n');
    InetAddressesSingle(l0);
    SilentLine(o, l1, []);
    o := o + "\n" + l1;
    NamingLine(o, l2, []);
    o := o + "\n" + l2;
    SilentLine(o, l3, [v2]);
    o := o + "\n" + l3;
    SilentLine(o, l4, [v2]);
    o := o + "\n" + l4;
    SilentLine(o, l5, [v2]);
    o := o + "\n" + l5;
    SilentLine(o, l6, [v2]);
    o := o + "\n" + l6;
    SilentLine(o, l7, [v2]);
    o := o + "\n" + l7;
    SilentLine(o, l8, [v2]);
    o := o + "\n" + l8;
    SilentLine(o, l9, [v2]);
    o := o + "\n" + l9;
    NamingLine(o, l10, [v2]);
    o := o + "\n" + l10;
    TwoAddresses(v2, v10);
    SilentLine(o, l11, [v2, v10]);
    o := o + "\n" + l11;
    SilentLine(o, l12, [v2, v10]);
    o := o + "\n" + l12;
    SilentLine(o, l13, [v2, v10]);
    o := o + "\n" + l13;
  }

  lemma TwoAddresses(first: string, second: string)
    ensures [first] + [second] == [first, second]
  {
  }

  /** A line that names nothing leaves the addresses of the output as they were. */
  lemma SilentLine(prefix: string, line: string, addresses: seq<string>)
    requires InetAddresses(Split(prefix, '\n')) == addresses
    requires InetAddress(line).None? && '\n' !in line
    ensures InetAddresses(Split(prefix + "\n" + line, '\n')) == addresses
  {
    AddressesOfLineAppended(prefix, line);
    assert addresses + [] == addresses;
  }

  /** A line that names an address appends it to those of the output. */
  lemma NamingLine(prefix: string, line: string, addresses: seq<string>)
    requires InetAddresses(Split(prefix, '\n')) == addresses
    requires InetAddress(line).Some? && '\n' !in line
    ensures InetAddresses(Split(prefix + "\n" + line, '\n')) == addresses + [InetAddress(line).value]
  {
    AddressesOfLineAppended(prefix, line);
  }

  // ---------------------------------------------------------------- the hostname source

  lemma SingleCandidateChosen(s: string)
    requires s == "10.10.10.10"
    ensures Chosen([s]) == Some(s)
  {
    Accepts10_10_10_10(s);
    PossibleStep([], s);
    assert [] + [s] == [s];
    var ps: seq<Parts> := [[10, 10, 10, 10]];
    assert Possible([s]) == ps;
    LastWins(ps);
    Picks([s], ps, 0);
  }

  /** The hostname source passes a resolved address through the selector,
      and answers None when the resolution raises. */
  lemma HostnameResults(s: string)
    requires s == "10.10.10.10"
    ensures ByHostname(Resolved(s)) == Success(Some(s))
    ensures ByHostname(ResolveRaised) == Success(None)
  {
    SingleCandidateChosen(s);
  }

  // ---------------------------------------------------------------- the address property

  lemma EncodeDotted(s: string, a: nat, b: nat, c: nat, d: nat)
    requires s == Dotted(a, b, c, d) && a < 256 && b < 256 && c < 256 && d < 256
    ensures EncodeAddress(s) == Some([a, b, c, d])
  {
    ParseDotted(s, a, b, c, d);
    EncodeOfRender([a, b, c, d]);
  }

  /** An address that is set is read back
      without consulting anything, one byte per part. */
  lemma SetThenGet(address: string, a: nat, b: nat, c: nat, d: nat, ttl: int, earlier: int, now: int)
    requires address == Dotted(a, b, c, d) && a < 256 && b < 256 && c < 256 && d < 256
    requires ttl >= 0
    ensures var env := Environment(None, ResolveRaised, now);
      var stored := Assign(Cache("", None, earlier), address, env);
      && stored == Step(Cache(address, Some([a, b, c, d]), now), Success(address), [])
      && Read(Config("", ttl), stored.cache, env) == Step(stored.cache, Success(address), [])
  {
    EncodeDotted(address, a, b, c, d);
  }

  lemma TestAddresses(s0: string, s1: string, s2: string)
    requires s0 == "0.0.0.0" && s1 == "127.0.0.1" && s2 == "1.2.3.4"
    ensures EncodeAddress(s0) == Some([0, 0, 0, 0])
    ensures EncodeAddress(s1) == Some([127, 0, 0, 1])
    ensures EncodeAddress(s2) == Some([1, 2, 3, 4])
  {
    EncodeDotted(s0, 0, 0, 0, 0);
    EncodeDotted(s1, 127, 0, 0, 1);
    EncodeDotted(s2, 1, 2, 3, 4);
  }

  /** Five seconds past the TTL, the read
      consults ifconfig once, takes its address and moves the timestamp on. */
  lemma StaleAddressRefreshed(address: string, encoded: seq<byte>, ttl: int, earlier: int, env: Environment)
    requires EncodeAddress(address) == Some(encoded)
    requires ttl >= 0 && earlier == env.now - (ttl + 5) * MicrosPerSecond
    requires ByIfconfig(env.ifconfig) == Success(Some(address))
    ensures var cache := Cache("1.2.3.4", Some([1, 2, 3, 4]), earlier);
      Read(Config("", ttl), cache, env) == Step(Cache(address, Some(encoded), env.now), Success(address), [IfconfigSource])
  {
    var cache := Cache("1.2.3.4", Some([1, 2, 3, 4]), earlier);
    assert AddressAge(Config("", ttl), cache, env.now) == ttl + 5;
  }

  /** Under an override the read returns it,
      its age is 0 and ifconfig is not consulted. */
  lemma OverrideRead(address: string, a: nat, b: nat, c: nat, d: nat, ttl: int, earlier: int, env: Environment)
    requires address == Dotted(a, b, c, d) && a < 256 && b < 256 && c < 256 && d < 256
    ensures var cfg := Config(address, ttl);
      var read := Read(cfg, Cache("", None, earlier), env);
      && read == Step(Cache(address, Some([a, b, c, d]), env.now), Success(address), [])
      && AddressAge(cfg, read.cache, env.now) == 0
  {
    EncodeDotted(address, a, b, c, d);
  }

  /** Setting the address to None with no ifconfig address and a hostname
      that does not resolve raises the RuntimeError after consulting both
      sources, and the cache is left as it was. */
  lemma NothingSuitable(output: string, c: Cache, now: int)
    requires output == ""
    ensures Assign(c, "", Environment(Some(output), ResolveRaised, now))
      == Step(c, Failure(NoSuitableAddress), [IfconfigSource, HostnameSource])
  {
    EmptyIfconfig(output);
    NoSourceAnswers(c, Environment(Some(output), ResolveRaised, now));
  }

  lemma NoSourceAnswers(c: Cache, env: Environment)
    requires ByIfconfig(env.ifconfig) == Success(None) && env.hostname == ResolveRaised
    ensures Assign(c, "", env) == Step(c, Failure(NoSuitableAddress), [IfconfigSource, HostnameSource])
  {
  }

  // ---------------------------------------------------------------- _build_response

  lemma QuestionLabels(query: seq<byte>, labels: seq<seq<byte>>)
    requires |query| >= 12 && ValidLabels(labels)
    requires query[12..] == EncodeName(labels) + [0, 1, 0, 1]
    ensures LabelsFrom(query, 12) == Some(labels)
  {
    assert query == query[..12] + EncodeName(labels) + [0, 1, 0, 1];
    LabelsOfEncodeName(query[..12], labels, [0, 1, 0, 1]);
  }

  lemma NameOfLocalDev(labels: seq<seq<byte>>)
    requires labels == [[108, 111, 99, 97, 108], [100, 101, 118]]
    ensures ValidLabels(labels) && EncodeName(labels) == [5, 108, 111, 99, 97, 108, 3, 100, 101, 118, 0]
  {
    assert labels[1..][1..] == [];
    assert EncodeName(labels[1..]) == [3, 100, 101, 118] + EncodeName([]);
  }

  lemma NameOfTestLocalDev(labels: seq<seq<byte>>)
    requires labels == [[116, 101, 115, 116], [108, 111, 99, 97, 108], [100, 101, 118]]
    ensures ValidLabels(labels)
    ensures EncodeName(labels) == [4, 116, 101, 115, 116, 5, 108, 111, 99, 97, 108, 3, 100, 101, 118, 0]
  {
    NameOfLocalDev(labels[1..]);
  }

  /** The reply to a query with no answer, authority or additional records
      yet, laid out byte by byte. */
  lemma ReplyOfQuery(id0: byte, id1: byte, f2: byte, f3: byte, q4: byte, q5: byte,
                     question: seq<byte>, encoded: seq<byte>)
    ensures ReplyBytes([id0, id1, f2, f3, q4, q5, 0, 0, 0, 0, 0, 0] + question, encoded)
      == [id0, id1, 0x81, 0x80, q4, q5, q4, q5, 0, 0, 0, 0] + question + AnswerPrefix + encoded
  {
    var data: seq<byte> := [id0, id1, f2, f3, q4, q5, 0, 0, 0, 0, 0, 0] + question;
    assert data[..2] == [id0, id1] && data[4..6] == [q4, q5] && data[12..] == question;
  }

  /** A standard query with one question for an A record, answered from a
      cache that holds 1.2.3.4 and is not stale, with no override. */
  lemma FreshQueryReply(id0: byte, id1: byte, name: seq<byte>, labels: seq<seq<byte>>, earlier: int, env: Environment)
    requires ValidLabels(labels) && name == EncodeName(labels) && env.now == earlier
    ensures var cfg, cache := Config("", 300), Cache("1.2.3.4", Some([1, 2, 3, 4]), earlier);
      Respond(cfg, cache, [id0, id1, 1, 0, 0, 1, 0, 0, 0, 0, 0, 0] + name + [0, 1, 0, 1], env)
        == Answer(cache, Reply([id0, id1, 129, 128, 0, 1, 0, 1, 0, 0, 0, 0] + name + [0, 1, 0, 1]
                               + [192, 12, 0, 1, 0, 1, 0, 0, 0, 60, 0, 4, 1, 2, 3, 4]), [])
  {
    var question := name + [0, 1, 0, 1];
    var head: seq<byte> := [id0, id1, 1, 0, 0, 1, 0, 0, 0, 0, 0, 0];
    var reply: seq<byte> := [id0, id1, 129, 128, 0, 1, 0, 1, 0, 0, 0, 0];
    var answer: seq<byte> := [192, 12, 0, 1, 0, 1, 0, 0, 0, 60, 0, 4, 1, 2, 3, 4];
    assert head + name + [0, 1, 0, 1] == head + question;
    assert reply + name + [0, 1, 0, 1] + answer == reply + question + answer;
    FreshQuestionAnswered(id0, id1, question, labels, earlier, env);
  }

  /** The same, with the question as one piece. */
  lemma FreshQuestionAnswered(id0: byte, id1: byte, question: seq<byte>, labels: seq<seq<byte>>, earlier: int, env: Environment)
    requires ValidLabels(labels) && question == EncodeName(labels) + [0, 1, 0, 1] && env.now == earlier
    ensures var cfg, cache := Config("", 300), Cache("1.2.3.4", Some([1, 2, 3, 4]), earlier);
      Respond(cfg, cache, [id0, id1, 1, 0, 0, 1, 0, 0, 0, 0, 0, 0] + question, env)
        == Answer(cache, Reply([id0, id1, 129, 128, 0, 1, 0, 1, 0, 0, 0, 0] + question
                               + [192, 12, 0, 1, 0, 1, 0, 0, 0, 60, 0, 4, 1, 2, 3, 4]), [])
  {
    var query: seq<byte> := [id0, id1, 1, 0, 0, 1, 0, 0, 0, 0, 0, 0] + question;
    assert query[12..] == question;
    assert Opcode(query[2]) == Query;
    QuestionLabels(query, labels);
    ReplyOfQuery(id0, id1, 1, 0, 0, 1, question, [1, 2, 3, 4]);
    assert AnswerPrefix + [1, 2, 3, 4] == [192, 12, 0, 1, 0, 1, 0, 0, 0, 60, 0, 4, 1, 2, 3, 4];
    var reply: seq<byte> := [id0, id1, 129, 128, 0, 1, 0, 1, 0, 0, 0, 0];
    assert reply + question + AnswerPrefix + [1, 2, 3, 4] == reply + question + (AnswerPrefix + [1, 2, 3, 4]);
    FreshReadHits(Config("", 300), Cache("1.2.3.4", Some([1, 2, 3, 4]), earlier), env);
  }

  /** An A query for local.dev is answered with
      1.2.3.4 from a fresh cache, nothing consulted. */
  lemma LocalDevReply(name: seq<byte>, earlier: int, env: Environment)
    requires name == [5, 108, 111, 99, 97, 108, 3, 100, 101, 118, 0]
    requires env.now == earlier
    ensures var cfg, cache := Config("", 300), Cache("1.2.3.4", Some([1, 2, 3, 4]), earlier);
      Respond(cfg, cache, [150, 209, 1, 0, 0, 1, 0, 0, 0, 0, 0, 0] + name + [0, 1, 0, 1], env)
        == Answer(cache, Reply([150, 209, 129, 128, 0, 1, 0, 1, 0, 0, 0, 0] + name + [0, 1, 0, 1]
                               + [192, 12, 0, 1, 0, 1, 0, 0, 0, 60, 0, 4, 1, 2, 3, 4]), [])
  {
    var labels := [[108, 111, 99, 97, 108], [100, 101, 118]];
    NameOfLocalDev(labels);
    FreshQueryReply(150, 209, name, labels, earlier, env);
  }

  /** An A query for test.local.dev. */
  lemma TestLocalDevReply(name: seq<byte>, earlier: int, env: Environment)
    requires name == [4, 116, 101, 115, 116, 5, 108, 111, 99, 97, 108, 3, 100, 101, 118, 0]
    requires env.now == earlier
    ensures var cfg, cache := Config("", 300), Cache("1.2.3.4", Some([1, 2, 3, 4]), earlier);
      Respond(cfg, cache, [75, 106, 1, 0, 0, 1, 0, 0, 0, 0, 0, 0] + name + [0, 1, 0, 1], env)
        == Answer(cache, Reply([75, 106, 129, 128, 0, 1, 0, 1, 0, 0, 0, 0] + name + [0, 1, 0, 1]
                               + [192, 12, 0, 1, 0, 1, 0, 0, 0, 60, 0, 4, 1, 2, 3, 4]), [])
  {
    var labels := [[116, 101, 115, 116], [108, 111, 99, 97, 108], [100, 101, 118]];
    NameOfTestLocalDev(labels);
    FreshQueryReply(75, 106, name, labels, earlier, env);
  }

  /** Opcode 10 gets no reply. */
  lemma OtherOpcodeIgnored(query: seq<byte>, earlier: int, env: Environment)
    requires query == [150, 209, 80, 0, 0, 1, 0, 0, 0, 0, 0, 0, 5, 108, 111, 99, 97, 108, 3, 100, 101, 118, 0, 0, 1, 0, 1]
    ensures var cfg, cache := Config("1.2.3.4", 300), Cache("1.2.3.4", Some([1, 2, 3, 4]), earlier);
      Respond(cfg, cache, query, env) == Answer(cache, Ignored, [])
  {
    assert Opcode(query[2]) == 10;
  }
}

/** The text parsing of `DevNS._get_address_by_ifconfig`: which lines of the
    `ifconfig` output name an address, and what address they name. */
module Ifconfig {
  import opened Common
  import opened Text
  import opened AddressSelector

  /** The index of the first `c` in `s`, or `|s|` when there is none. */
  function FirstIndex(s: string, c: char): (k: nat)
    ensures k <= |s| && c !in s[..k] && (k < |s| ==> s[k] == c)
  {
    if s == [] || s[0] == c then 0
    else
      var k := FirstIndex(s[1..], c);
      assert s[1..][..k] == s[1..k + 1];
      1 + k
  }

  function Last(pieces: seq<string>): string
    requires |pieces| >= 1
  {
    pieces[|pieces| - 1]
  }

  /** One pass of the `try` block: the text after the last colon of the
      second space-separated token of a line whose first token is `inet`.
      The IndexError of a missing second token skips the line. */
  function InetAddress(line: string): (r: Option<string>)
    ensures r.Some? ==> ':' !in r.value && ' ' !in r.value && |r.value| < |line|
  {
    var parts := Split(Strip(line), ' ');
    if parts[0] == "inet" && |parts| >= 2 then
      var token := parts[1];
      SplitLast(token, ':');
      TokenWithin(Strip(line), ' ', 1);
      var address := Last(Split(token, ':'));
      assert forall k :: 0 <= k < |address| ==> address[k] == token[|token| - |address| + k];
      Some(address)
    else None
  }

  /** What one line adds to `addresses`. */
  function Contribution(line: string): seq<string>
  {
    match InetAddress(line)
    case Some(address) => [address]
    case None => []
  }

  /** The list `addresses` once the loop has seen every line of `lines`. */
  function InetAddresses(lines: seq<string>): (addresses: seq<string>)
    ensures |addresses| <= |lines|
    ensures forall i :: 0 <= i < |addresses| ==> ':' !in addresses[i] && ' ' !in addresses[i]
    decreases |lines|
  {
    if lines == [] then []
    else InetAddresses(lines[..|lines| - 1]) + Contribution(lines[|lines| - 1])
  }

  /** The loop of `_get_address_by_ifconfig` over `output.split("\n")`. */
  method CollectAddresses(output: string) returns (addresses: seq<string>)
    ensures addresses == InetAddresses(Split(output, '\n'))
  {
    var lines := Split(output, '\n');
    addresses := [];
    for i := 0 to |lines|
      invariant addresses == InetAddresses(lines[..i])
    {
      assert lines[..i + 1][..i] == lines[..i];
      var address := InetAddress(lines[i]);
      if address.Some? {
        addresses := addresses + [address.value];
      }
    }
    assert lines[..|lines|] == lines;
  }

  /** What `_get_address_by_ifconfig` returns; None for the output stands for
      `check_output` raising, which nothing catches. */
  function ByIfconfig(output: Option<string>): (r: Result<Option<string>>)
    ensures r.Failure? <==> output.None?
    ensures r.Success? && r.value.Some? ==> Accept(r.value.value).Some?
  {
    match output
    case Some(text) => Success(Chosen(InetAddresses(Split(text, '\n'))))
    case None => Failure(IfconfigFailed)
  }

  method GetAddressByIfconfig(output: Option<string>) returns (r: Result<Option<string>>)
    ensures r == ByIfconfig(output)
  {
    match output
    case None =>
      r := Failure(IfconfigFailed);
    case Some(text) =>
      var addresses := CollectAddresses(text);
      var chosen := ChooseAddress(CandidateList(addresses));
      r := Success(chosen);
  }

  // ---------------------------------------------------------------- properties

  /** Text before the first space is `inet` and a space follows exactly when
      the text starts with `inet` and a space. */
  lemma InetPrefix(s: string, k: nat)
    requires k <= |s| && ' ' !in s[..k] && (k < |s| ==> s[k] == ' ')
    ensures (s[..k] == "inet" && k < |s|) <==> (|s| >= 5 && s[..5] == "inet ")
  {
    if |s| >= 5 && s[..5] == "inet " {
      assert s[4] == ' ' && ' ' !in s[..4];
      assert s[..4] == s[..5][..4];
    }
    if s[..k] == "inet" && k < |s| {
      assert s[..5] == s[..4] + [s[4]];
    }
  }

  /** A line names an address exactly when, once stripped, it starts with
      `inet` and a space: `inet6`, `inet` alone and every other line are skipped. */
  lemma InetAddressWhen(line: string)
    ensures InetAddress(line).Some? <==> |Strip(line)| >= 5 && Strip(line)[..5] == "inet "
  {
    var s := Strip(line);
    var k := FirstIndex(s, ' ');
    SplitHead(s, ' ', k);
    InetPrefix(s, k);
  }

  /** The address a line names is the text after the last colon of its second
      token: a suffix of that token free of spaces and colons, after a colon
      when it is not the whole token. */
  lemma InetAddressValue(line: string)
    requires InetAddress(line).Some?
    ensures var token, address := Split(Strip(line), ' ')[1], InetAddress(line).value;
      && ':' !in address && ' ' !in address
      && |address| <= |token| && address == token[|token| - |address|..]
      && (|address| < |token| ==> token[|token| - |address| - 1] == ':')
  {
    var token := Split(Strip(line), ' ')[1];
    SplitLast(token, ':');
    var address := InetAddress(line).value;
    forall k | 0 <= k < |address|
      ensures address[k] != ' '
    {
      assert address[k] == token[|token| - |address| + k];
    }
  }

  /** The addresses of consecutive blocks of output come in the order of
      the blocks. */
  lemma {:induction false} InetAddressesAppend(a: seq<string>, b: seq<string>)
    ensures InetAddresses(a + b) == InetAddresses(a) + InetAddresses(b)
    decreases |b|
  {
    if b == [] {
      assert a + b == a;
    } else {
      var front := b[..|b| - 1];
      assert (a + b)[..|a + b| - 1] == a + front;
      assert (a + b)[|a + b| - 1] == b[|b| - 1];
      InetAddressesAppend(a, front);
    }
  }

  /** The tokens of a text made of a first token, a space, a second token and
      either nothing or a space and more. */
  lemma FirstTwoTokens(s: string, first: string, token: string, rest: string)
    requires s == first + [' '] + token + rest
    requires ' ' !in first && ' ' !in token
    requires rest == [] || rest[0] == ' '
    ensures |Split(s, ' ')| >= 2 && Split(s, ' ')[0] == first && Split(s, ' ')[1] == token
  {
    assert s == first + [' '] + (token + rest);
    SplitAtSep(first, token + rest, ' ');
    SplitWithoutSep(first, ' ');
    if rest == [] {
      assert token + rest == token;
      SplitWithoutSep(token, ' ');
    } else {
      assert token + rest == token + [' '] + rest[1..];
      SplitAtSep(token, rest[1..], ' ');
      SplitWithoutSep(token, ' ');
    }
  }

  /** A line whose stripped text is `inet`, a space, a token and nothing or
      a space and more names the text after the token's last colon. */
  lemma InetOfStripped(line: string, token: string, rest: string)
    requires Strip(line) == "inet " + token + rest
    requires ' ' !in token
    requires rest == [] || rest[0] == ' '
    ensures InetAddress(line) == Some(Last(Split(token, ':')))
  {
    var core := Strip(line);
    var first := core[..4];
    assert first == "inet";
    assert core == first + [' '] + token + rest;
    FirstTwoTokens(core, first, token, rest);
  }

  lemma StripInetLine(line: string, pre: string, token: string, rest: string, post: string)
    requires line == pre + "inet " + token + rest + post
    requires AllSpace(pre) && AllSpace(post)
    requires token != [] && ' ' !in token && !IsSpace(token[|token| - 1])
    requires rest == [] || (rest[0] == ' ' && !IsSpace(rest[|rest| - 1]))
    ensures Strip(line) == "inet " + token + rest
  {
    var core := "inet " + token + rest;
    assert line == pre + core + post;
    assert core[|core| - 1] == if rest == [] then token[|token| - 1] else rest[|rest| - 1];
    StripOfPadded(pre, core, post);
  }
  /** A line that names an address, however it is indented or padded. */
  lemma InetLine(line: string, pre: string, token: string, rest: string, post: string)
    requires line == pre + "inet " + token + rest + post
    requires AllSpace(pre) && AllSpace(post)
    requires token != [] && ' ' !in token && !IsSpace(token[|token| - 1])
    requires rest == [] || (rest[0] == ' ' && !IsSpace(rest[|rest| - 1]))
    ensures InetAddress(line) == Some(Last(Split(token, ':')))
  {
    StripInetLine(line, pre, token, rest, post);
    InetOfStripped(line, token, rest);
  }

  /** A single line contributes what it names. */
  lemma InetAddressesSingle(line: string)
    ensures InetAddresses([line]) == Contribution(line)
  {
    assert [line][..0] == [];
  }

  /** Lines that name nothing contribute nothing. */
  lemma {:induction false} InetAddressesNone(lines: seq<string>)
    requires forall i :: 0 <= i < |lines| ==> InetAddress(lines[i]).None?
    ensures InetAddresses(lines) == []
    decreases |lines|
  {
    if lines != [] {
      InetAddressesNone(lines[..|lines| - 1]);
    }
  }

  /** Two naming lines among blocks of lines that name nothing contribute
      their two addresses, in order. */
  lemma InetAddressesOfTwo(a: seq<string>, x: string, b: seq<string>, y: string, c: seq<string>)
    requires forall i :: 0 <= i < |a| ==> InetAddress(a[i]).None?
    requires forall i :: 0 <= i < |b| ==> InetAddress(b[i]).None?
    requires forall i :: 0 <= i < |c| ==> InetAddress(c[i]).None?
    ensures InetAddresses(a + [x] + b + [y] + c) == Contribution(x) + Contribution(y)
  {
    var p1 := a + [x];
    InetAddressesNone(a);
    InetAddressesSingle(x);
    InetAddressesAppend(a, [x]);
    assert InetAddresses(p1) == Contribution(x);
    var p2 := p1 + b;
    InetAddressesNone(b);
    InetAddressesAppend(p1, b);
    assert InetAddresses(p2) == Contribution(x);
    var p3 := p2 + [y];
    InetAddressesSingle(y);
    InetAddressesAppend(p2, [y]);
    assert InetAddresses(p3) == Contribution(x) + Contribution(y);
    InetAddressesNone(c);
    InetAddressesAppend(p3, c);
  }

  /** One more line at the end of the output adds what that line names. */
  lemma AddressesOfLineAppended(prefix: string, line: string)
    requires '\n' !in line
    ensures InetAddresses(Split(prefix + "\n" + line, '\n'))
      == InetAddresses(Split(prefix, '\n')) + Contribution(line)
  {
    SplitAtSep(prefix, line, '\n');
    SplitWithoutSep(line, '\n');
    InetAddressesAppend(Split(prefix, '\n'), [line]);
    InetAddressesSingle(line);
  }
}

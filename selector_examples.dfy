/** The candidate lists of the selector's test table, and two inputs that
    show how the text key and the re-joining behave. */
module AddressSelectorExamples {
  import opened Common
  import opened Text
  import opened AddressSelector

  /** A four-part dotted text built from decimal texts. */
  function Dotted(a: nat, b: nat, c: nat, d: nat): string
  {
    NatToString(a) + "." + NatToString(b) + "." + NatToString(c) + "." + NatToString(d)
  }

  lemma JoinFour(w: string, x: string, y: string, z: string)
    ensures Join([w, x, y, z], '.') == w + "." + x + "." + y + "." + z
  {
    assert [y, z][1..] == [z];
    assert Join([y, z], '.') == y + "." + z;
    assert [x, y, z][1..] == [y, z];
    assert Join([x, y, z], '.') == x + "." + y + "." + z;
    assert [w, x, y, z][1..] == [x, y, z];
  }

  /** A dotted quad parses to its four values and is what they re-join to. */
  lemma ParseDotted(s: string, a: nat, b: nat, c: nat, d: nat)
    requires s == Dotted(a, b, c, d)
    ensures ParseParts(s) == Some([a, b, c, d]) && Render([a, b, c, d]) == s
  {
    var ip: Parts := [a, b, c, d];
    var texts := seq(|ip|, i requires 0 <= i < |ip| => NatToString(ip[i]));
    assert texts == [NatToString(a), NatToString(b), NatToString(c), NatToString(d)];
    JoinFour(NatToString(a), NatToString(b), NatToString(c), NatToString(d));
    ParseOfRender(ip);
  }

  function Listed(o: Option<Parts>): seq<Parts>
  {
    if o.Some? then [o.value] else []
  }

  lemma PossibleOfTwo(s0: string, s1: string)
    ensures Possible([s0, s1]) == Listed(Accept(s0)) + Listed(Accept(s1))
  {
    PossibleStep([], s0);
    assert [] + [s0] == [s0];
    PossibleStep([s0], s1);
    assert [s0] + [s1] == [s0, s1];
  }

  lemma PossibleOfThree(s0: string, s1: string, s2: string)
    ensures Possible([s0, s1, s2]) == Listed(Accept(s0)) + Listed(Accept(s1)) + Listed(Accept(s2))
  {
    PossibleOfTwo(s0, s1);
    PossibleStep([s0, s1], s2);
    assert [s0, s1] + [s2] == [s0, s1, s2];
  }

  /** What a dotted quad contributes to the candidate list. */
  lemma AcceptDotted(s: string, a: nat, b: nat, c: nat, d: nat)
    requires s == Dotted(a, b, c, d)
    ensures Accept(s) == if PrivateLooking([a, b, c, d]) then Some([a, b, c, d]) else None
    ensures Render([a, b, c, d]) == s
  {
    ParseDotted(s, a, b, c, d);
  }

  /** The last element wins when no earlier key is greater than its key. */
  lemma LastWins(ps: seq<Parts>)
    requires ps != []
    requires forall j :: 0 <= j < |ps| - 1 ==> LexLe(Key(ps[j]), Key(ps[|ps| - 1]))
    ensures IsLastBest(ps, |ps| - 1)
  {
    LexLeTotal(Key(ps[|ps| - 1]), Key(ps[|ps| - 1]));
  }

  lemma Picks(a: seq<string>, ps: seq<Parts>, k: int)
    requires Possible(a) == ps && IsLastBest(ps, k)
    ensures Chosen(a) == Some(Render(ps[k]))
  {
    BestAt(a, k);
  }

  /** No candidates, no address. */
  lemma NoCandidates()
    ensures Chosen([]) == None
  {
  }

  /** Public addresses are skipped. */
  lemma OnlyPublic(s0: string, s1: string)
    requires s0 == "8.8.8.8" && s1 == "8.8.4.4"
    ensures Chosen([s0, s1]) == None
  {
    Rejects8_8_8_8(s0);
    Rejects8_8_4_4(s1);
    PossibleOfTwo(s0, s1);
  }

  lemma Accepts127_0_0_1(s: string)
    requires s == "127.0.0.1"
    ensures Accept(s) == Some([127, 0, 0, 1]) && Render([127, 0, 0, 1]) == s
  {
    AcceptDotted(s, 127, 0, 0, 1);
  }

  lemma Accepts192_168_1_1(s: string)
    requires s == "192.168.1.1"
    ensures Accept(s) == Some([192, 168, 1, 1]) && Render([192, 168, 1, 1]) == s
  {
    AcceptDotted(s, 192, 168, 1, 1);
  }

  lemma Accepts192_168_1_5(s: string)
    requires s == "192.168.1.5"
    ensures Accept(s) == Some([192, 168, 1, 5]) && Render([192, 168, 1, 5]) == s
  {
    AcceptDotted(s, 192, 168, 1, 5);
  }

  lemma Rejects8_8_8_8(s: string)
    requires s == "8.8.8.8"
    ensures Accept(s) == None
  {
    AcceptDotted(s, 8, 8, 8, 8);
  }

  lemma Rejects8_8_4_4(s: string)
    requires s == "8.8.4.4"
    ensures Accept(s) == None
  {
    AcceptDotted(s, 8, 8, 4, 4);
  }

  lemma Accepts127_0_1_11(s: string)
    requires s == "127.0.1.11"
    ensures Accept(s) == Some([127, 0, 1, 11]) && Render([127, 0, 1, 11]) == s
  {
    AcceptDotted(s, 127, 0, 1, 11);
  }

  lemma Accepts10_10_10_10(s: string)
    requires s == "10.10.10.10"
    ensures Accept(s) == Some([10, 10, 10, 10]) && Render([10, 10, 10, 10]) == s
  {
    AcceptDotted(s, 10, 10, 10, 10);
  }

  lemma Accepts10_10_5_1(s: string)
    requires s == "10.10.5.1"
    ensures Accept(s) == Some([10, 10, 5, 1]) && Render([10, 10, 5, 1]) == s
  {
    AcceptDotted(s, 10, 10, 5, 1);
  }

  lemma Accepts10_10_5_2(s: string)
    requires s == "10.10.5.2"
    ensures Accept(s) == Some([10, 10, 5, 2]) && Render([10, 10, 5, 2]) == s
  {
    AcceptDotted(s, 10, 10, 5, 2);
  }

  lemma Accepts10_10_1_1(s: string)
    requires s == "10.10.1.1"
    ensures Accept(s) == Some([10, 10, 1, 1]) && Render([10, 10, 1, 1]) == s
  {
    AcceptDotted(s, 10, 10, 1, 1);
  }

  lemma Rejects192_169_5_5(s: string)
    requires s == "192.169.5.5"
    ensures Accept(s) == None
  {
    AcceptDotted(s, 192, 169, 5, 5);
  }

  lemma Accepts127_0_1_12(s: string)
    requires s == "127.0.1.12"
    ensures Accept(s) == Some([127, 0, 1, 12]) && Render([127, 0, 1, 12]) == s
  {
    AcceptDotted(s, 127, 0, 1, 12);
  }

  lemma Accepts172_16_1_5(s: string)
    requires s == "172.16.1.5"
    ensures Accept(s) == Some([172, 16, 1, 5]) && Render([172, 16, 1, 5]) == s
  {
    AcceptDotted(s, 172, 16, 1, 5);
  }

  lemma Rejects10_10_3_255(s: string)
    requires s == "10.10.3.255"
    ensures Accept(s) == None
  {
    AcceptDotted(s, 10, 10, 3, 255);
  }

  lemma Rejects172_1_1_8(s: string)
    requires s == "172.1.1.8"
    ensures Accept(s) == None
  {
    AcceptDotted(s, 172, 1, 1, 8);
  }

  lemma Accepts10_0_0_2(s: string)
    requires s == "10.0.0.2"
    ensures Accept(s) == Some([10, 0, 0, 2]) && Render([10, 0, 0, 2]) == s
  {
    AcceptDotted(s, 10, 0, 0, 2);
  }

  lemma Accepts10_0_0_10(s: string)
    requires s == "10.0.0.10"
    ensures Accept(s) == Some([10, 0, 0, 10]) && Render([10, 0, 0, 10]) == s
  {
    AcceptDotted(s, 10, 0, 0, 10);
  }

  lemma Accepts10_0_0_1(s: string)
    requires s == "10.0.0.1"
    ensures Accept(s) == Some([10, 0, 0, 1]) && Render([10, 0, 0, 1]) == s
  {
    AcceptDotted(s, 10, 0, 0, 1);
  }

  lemma Accepts192_168_0_1(s: string)
    requires s == "192.168.0.1"
    ensures Accept(s) == Some([192, 168, 0, 1]) && Render([192, 168, 0, 1]) == s
  {
    AcceptDotted(s, 192, 168, 0, 1);
  }

  lemma LanBeatsLoopbackCandidates(s0: string, s1: string, s2: string)
    requires s0 == "127.0.0.1" && s1 == "192.168.1.1" && s2 == "192.168.1.5"
    ensures Possible([s0, s1, s2]) == [[127, 0, 0, 1], [192, 168, 1, 1], [192, 168, 1, 5]]
  {
    Accepts127_0_0_1(s0);
    Accepts192_168_1_1(s1);
    Accepts192_168_1_5(s2);
    PossibleOfThree(s0, s1, s2);
  }

  lemma LanBeatsLoopbackOrder(ps: seq<Parts>)
    requires ps == [[127, 0, 0, 1], [192, 168, 1, 1], [192, 168, 1, 5]]
    ensures IsLastBest(ps, 2)
  {
    assert Key(ps[0]) == "0-1" && Key(ps[1]) == "1-1" && Key(ps[2]) == "1-5";
    assert LexLe("0-1", "1-5");
    assert LexLe("1-1", "1-5") by { assert LexLe("-1", "-5"); assert LexLe("1", "5"); }
    LastWins(ps);
  }

  /** A LAN address outranks loopback, and among LAN addresses the greater last part wins. */
  lemma LanBeatsLoopback(a: seq<string>)
    requires a == ["127.0.0.1", "192.168.1.1", "192.168.1.5"]
    ensures Chosen(a) == Some("192.168.1.5")
  {
    LanBeatsLoopbackCandidates(a[0], a[1], a[2]);
    assert a == [a[0], a[1], a[2]];
    LanBeatsLoopbackOrder(Possible(a));
    Picks(a, Possible(a), 2);
    Accepts192_168_1_5(a[2]);
  }

  lemma LoopbackWhenNothingElseCandidates(s0: string, s1: string, s2: string)
    requires s0 == "8.8.8.8" && s1 == "8.8.4.4" && s2 == "127.0.0.1"
    ensures Possible([s0, s1, s2]) == [[127, 0, 0, 1]]
  {
    Rejects8_8_8_8(s0);
    Rejects8_8_4_4(s1);
    Accepts127_0_0_1(s2);
    PossibleOfThree(s0, s1, s2);
  }

  lemma LoopbackWhenNothingElseOrder(ps: seq<Parts>)
    requires ps == [[127, 0, 0, 1]]
    ensures IsLastBest(ps, 0)
  {
    assert Key(ps[0]) == "0-1";
    LastWins(ps);
  }

  /** Loopback is chosen when it is the only private-looking candidate. */
  lemma LoopbackWhenNothingElse(a: seq<string>)
    requires a == ["8.8.8.8", "8.8.4.4", "127.0.0.1"]
    ensures Chosen(a) == Some("127.0.0.1")
  {
    LoopbackWhenNothingElseCandidates(a[0], a[1], a[2]);
    assert a == [a[0], a[1], a[2]];
    LoopbackWhenNothingElseOrder(Possible(a));
    Picks(a, Possible(a), 0);
    Accepts127_0_0_1(a[2]);
  }

  lemma LanAfterLoopbacksCandidates(s0: string, s1: string, s2: string)
    requires s0 == "127.0.0.1" && s1 == "127.0.1.11" && s2 == "10.10.10.10"
    ensures Possible([s0, s1, s2]) == [[127, 0, 0, 1], [127, 0, 1, 11], [10, 10, 10, 10]]
  {
    Accepts127_0_0_1(s0);
    Accepts127_0_1_11(s1);
    Accepts10_10_10_10(s2);
    PossibleOfThree(s0, s1, s2);
  }

  lemma LanAfterLoopbacksOrder(ps: seq<Parts>)
    requires ps == [[127, 0, 0, 1], [127, 0, 1, 11], [10, 10, 10, 10]]
    ensures IsLastBest(ps, 2)
  {
    assert Key(ps[0]) == "0-1" && Key(ps[1]) == "0-11" && Key(ps[2]) == "1-10";
    assert LexLe("0-1", "1-10");
    assert LexLe("0-11", "1-10");
    LastWins(ps);
  }

  /** A 10.x address outranks loopback whatever its last part. */
  lemma LanAfterLoopbacks(a: seq<string>)
    requires a == ["127.0.0.1", "127.0.1.11", "10.10.10.10"]
    ensures Chosen(a) == Some("10.10.10.10")
  {
    LanAfterLoopbacksCandidates(a[0], a[1], a[2]);
    assert a == [a[0], a[1], a[2]];
    LanAfterLoopbacksOrder(Possible(a));
    Picks(a, Possible(a), 2);
    Accepts10_10_10_10(a[2]);
  }

  lemma GreaterLastPartCandidates(s0: string, s1: string)
    requires s0 == "10.10.5.1" && s1 == "10.10.5.2"
    ensures Possible([s0, s1]) == [[10, 10, 5, 1], [10, 10, 5, 2]]
  {
    Accepts10_10_5_1(s0);
    Accepts10_10_5_2(s1);
    PossibleOfTwo(s0, s1);
  }

  lemma GreaterLastPartOrder(ps: seq<Parts>)
    requires ps == [[10, 10, 5, 1], [10, 10, 5, 2]]
    ensures IsLastBest(ps, 1)
  {
    assert Key(ps[0]) == "1-1" && Key(ps[1]) == "1-2";
    assert LexLe("1-1", "1-2") by { assert LexLe("-1", "-2"); assert LexLe("1", "2"); }
    LastWins(ps);
  }

  /** Two candidates that differ only in the last part: the greater last
      part wins, 10.10.5.2 over 10.10.5.1. */
  lemma GreaterLastPart(a: seq<string>)
    requires a == ["10.10.5.1", "10.10.5.2"]
    ensures Chosen(a) == Some("10.10.5.2")
  {
    GreaterLastPartCandidates(a[0], a[1]);
    assert a == [a[0], a[1]];
    GreaterLastPartOrder(Possible(a));
    Picks(a, Possible(a), 1);
    Accepts10_10_5_2(a[1]);
  }

  lemma MixedRangesFront(s0: string, s1: string, s2: string)
    requires s0 == "10.10.1.1" && s1 == "192.169.5.5" && s2 == "127.0.1.12"
    ensures Possible([s0, s1, s2]) == [[10, 10, 1, 1], [127, 0, 1, 12]]
  {
    Accepts10_10_1_1(s0);
    Rejects192_169_5_5(s1);
    Accepts127_0_1_12(s2);
    PossibleOfThree(s0, s1, s2);
  }

  lemma MixedRangesCandidates(s0: string, s1: string, s2: string, s3: string)
    requires s0 == "10.10.1.1" && s1 == "192.169.5.5" && s2 == "127.0.1.12" && s3 == "172.16.1.5"
    ensures Possible([s0, s1, s2, s3]) == [[10, 10, 1, 1], [127, 0, 1, 12], [172, 16, 1, 5]]
  {
    MixedRangesFront(s0, s1, s2);
    Accepts172_16_1_5(s3);
    PossibleStep([s0, s1, s2], s3);
    assert [s0, s1, s2] + [s3] == [s0, s1, s2, s3];
  }

  lemma MixedRangesOrder(ps: seq<Parts>)
    requires ps == [[10, 10, 1, 1], [127, 0, 1, 12], [172, 16, 1, 5]]
    ensures IsLastBest(ps, 2)
  {
    assert Key(ps[0]) == "1-1" && Key(ps[1]) == "0-12" && Key(ps[2]) == "1-5";
    assert LexLe("1-1", "1-5") by { assert LexLe("-1", "-5"); assert LexLe("1", "5"); }
    assert LexLe("0-12", "1-5");
    LastWins(ps);
  }

  /** 192.169.x is skipped; "1-5" is the greatest key. */
  lemma MixedRanges(a: seq<string>)
    requires a == ["10.10.1.1", "192.169.5.5", "127.0.1.12", "172.16.1.5"]
    ensures Chosen(a) == Some("172.16.1.5")
  {
    MixedRangesCandidates(a[0], a[1], a[2], a[3]);
    assert a == [a[0], a[1], a[2], a[3]];
    MixedRangesOrder(Possible(a));
    Picks(a, Possible(a), 2);
    Accepts172_16_1_5(a[3]);
  }

  lemma BroadcastAndOutOfRangeSkippedFront(s0: string, s1: string, s2: string)
    requires s0 == "10.10.3.255" && s1 == "172.1.1.8" && s2 == "127.0.1.12"
    ensures Possible([s0, s1, s2]) == [[127, 0, 1, 12]]
  {
    Rejects10_10_3_255(s0);
    Rejects172_1_1_8(s1);
    Accepts127_0_1_12(s2);
    PossibleOfThree(s0, s1, s2);
  }

  lemma BroadcastAndOutOfRangeSkippedCandidates(s0: string, s1: string, s2: string, s3: string)
    requires s0 == "10.10.3.255" && s1 == "172.1.1.8" && s2 == "127.0.1.12" && s3 == "192.168.1.1"
    ensures Possible([s0, s1, s2, s3]) == [[127, 0, 1, 12], [192, 168, 1, 1]]
  {
    BroadcastAndOutOfRangeSkippedFront(s0, s1, s2);
    Accepts192_168_1_1(s3);
    PossibleStep([s0, s1, s2], s3);
    assert [s0, s1, s2] + [s3] == [s0, s1, s2, s3];
  }

  lemma BroadcastAndOutOfRangeSkippedOrder(ps: seq<Parts>)
    requires ps == [[127, 0, 1, 12], [192, 168, 1, 1]]
    ensures IsLastBest(ps, 1)
  {
    assert Key(ps[0]) == "0-12" && Key(ps[1]) == "1-1";
    assert LexLe("0-12", "1-1");
    LastWins(ps);
  }

  /** A last part of 255 and 172.1.x are skipped. */
  lemma BroadcastAndOutOfRangeSkipped(a: seq<string>)
    requires a == ["10.10.3.255", "172.1.1.8", "127.0.1.12", "192.168.1.1"]
    ensures Chosen(a) == Some("192.168.1.1")
  {
    BroadcastAndOutOfRangeSkippedCandidates(a[0], a[1], a[2], a[3]);
    assert a == [a[0], a[1], a[2], a[3]];
    BroadcastAndOutOfRangeSkippedOrder(Possible(a));
    Picks(a, Possible(a), 1);
    Accepts192_168_1_1(a[3]);
  }

  lemma LastPartComparedAsTextCandidates(s0: string, s1: string)
    requires s0 == "10.0.0.2" && s1 == "10.0.0.10"
    ensures Possible([s0, s1]) == [[10, 0, 0, 2], [10, 0, 0, 10]]
  {
    Accepts10_0_0_2(s0);
    Accepts10_0_0_10(s1);
    PossibleOfTwo(s0, s1);
  }

  lemma LastPartComparedAsTextOrder(ps: seq<Parts>)
    requires ps == [[10, 0, 0, 2], [10, 0, 0, 10]]
    ensures IsLastBest(ps, 0)
  {
    assert Key(ps[0]) == "1-2" && Key(ps[1]) == "1-10";
    assert LexLe("1-10", "1-2") by { assert LexLe("-10", "-2"); assert LexLe("10", "2"); }
    assert !LexLe("1-2", "1-10");
    LexLeTotal(Key(ps[0]), Key(ps[0]));
  }

  /** The key is text, so "1-2" is greater than "1-10" and 10.0.0.2 beats 10.0.0.10. */
  lemma LastPartComparedAsText(a: seq<string>)
    requires a == ["10.0.0.2", "10.0.0.10"]
    ensures Chosen(a) == Some("10.0.0.2")
  {
    LastPartComparedAsTextCandidates(a[0], a[1]);
    assert a == [a[0], a[1]];
    LastPartComparedAsTextOrder(Possible(a));
    Picks(a, Possible(a), 0);
    Accepts10_0_0_2(a[0]);
  }

  lemma EqualKeysLaterWinsCandidates(s0: string, s1: string)
    requires s0 == "10.0.0.1" && s1 == "192.168.0.1"
    ensures Possible([s0, s1]) == [[10, 0, 0, 1], [192, 168, 0, 1]]
  {
    Accepts10_0_0_1(s0);
    Accepts192_168_0_1(s1);
    PossibleOfTwo(s0, s1);
  }

  lemma EqualKeysLaterWinsOrder(ps: seq<Parts>)
    requires ps == [[10, 0, 0, 1], [192, 168, 0, 1]]
    ensures IsLastBest(ps, 1)
  {
    assert Key(ps[0]) == "1-1" && Key(ps[1]) == "1-1";
    LexLeTotal(Key(ps[1]), Key(ps[1]));
    LastWins(ps);
  }

  /** Equal keys keep their input order, so the later of two candidates ending in 1 wins. */
  lemma EqualKeysLaterWins(a: seq<string>)
    requires a == ["10.0.0.1", "192.168.0.1"]
    ensures Chosen(a) == Some("192.168.0.1")
  {
    EqualKeysLaterWinsCandidates(a[0], a[1]);
    assert a == [a[0], a[1]];
    EqualKeysLaterWinsOrder(Possible(a));
    Picks(a, Possible(a), 1);
    Accepts192_168_0_1(a[1]);
  }
}

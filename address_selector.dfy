/** `DevNS._choose_address`: keep the candidates that look like loopback or
    private IPv4 addresses, order them by a text key with a stable sort, and
    answer the last one, re-joined from its integer parts. */
module AddressSelector {
  import opened Common
  import opened Text

  /** The integer parts of a candidate; a candidate always has at least one. */
  type Parts = p: seq<nat> | |p| > 0 witness [0]

  // ---------------------------------------------------------------- filtering

  /** `[int(p) for p in parts]`, or None when one `int(p)` raises. */
  function PartValues(parts: seq<string>): (r: Option<seq<nat>>)
    ensures r.Some? ==> |r.value| == |parts|
    ensures r.Some? ==> forall i :: 0 <= i < |parts| ==> ParseDecimal(parts[i]) == Some(r.value[i])
    ensures r.None? ==> exists i :: 0 <= i < |parts| && ParseDecimal(parts[i]).None?
    decreases |parts|
  {
    if parts == [] then Some([])
    else match (ParseDecimal(parts[0]), PartValues(parts[1..]))
      case (Some(n), Some(ns)) => Some([n] + ns)
      case (None, _) => None
      case (_, None) => None
  }

  /** `[int(p) for p in address.split(".")]`. */
  function ParseParts(address: string): (r: Option<Parts>)
    ensures r.None? <==> exists i :: 0 <= i < |Split(address, '.')| && ParseDecimal(Split(address, '.')[i]).None?
    ensures r.Some? ==> |r.value| == |Split(address, '.')|
    ensures r.Some? ==> forall i :: 0 <= i < |r.value| ==> ParseDecimal(Split(address, '.')[i]) == Some(r.value[i])
  {
    match PartValues(Split(address, '.'))
    case Some(ip) =>
      assert forall i :: 0 <= i < |Split(address, '.')| ==> ParseDecimal(Split(address, '.')[i]).Some?;
      Some(ip)
    case None =>
      assert exists i :: 0 <= i < |Split(address, '.')| && ParseDecimal(Split(address, '.')[i]).None?;
      None
  }

  /** The assertions of the `try` block: a first part of 192, 172, 127 or 10,
      a fourth part below 255 (a missing fourth part raises IndexError), 192
      only with 168 second and 172 only with 16 to 31 second. */
  predicate PrivateLooking(ip: seq<nat>)
  {
    && |ip| >= 4
    && ip[0] in {192, 172, 127, 10}
    && ip[3] < 255
    && (ip[0] == 192 ==> ip[1] == 168)
    && (ip[0] == 172 ==> 15 < ip[1] < 32)
  }

  /** The parts of a candidate that survives the `try` block; None when it is skipped. */
  function Accept(address: string): (r: Option<Parts>)
    ensures r.Some? <==> ParseParts(address).Some? && PrivateLooking(ParseParts(address).value)
    ensures r.Some? ==> r == ParseParts(address)
  {
    match ParseParts(address)
    case Some(ip) => if PrivateLooking(ip) then Some(ip) else None
    case None => None
  }

  /** The list `possible` once the loop has seen every candidate of `addresses`. */
  function Possible(addresses: seq<string>): (possible: seq<Parts>)
    ensures forall i :: 0 <= i < |possible| ==> PrivateLooking(possible[i])
    decreases |addresses|
  {
    if addresses == [] then []
    else
      var rest := Possible(addresses[..|addresses| - 1]);
      match Accept(addresses[|addresses| - 1])
      case Some(ip) => rest + [ip]
      case None => rest
  }

  // ---------------------------------------------------------------- ranking

  /** `"{0}-{1}".format(0 if p[0] == 127 else 1, p[-1])`: compared as text,
      so the last part is ordered by its decimal digits, not its value. */
  function Key(ip: Parts): (k: string)
    ensures |k| >= 3 && k[1] == '-' && AllDigits(k[2..])
    ensures k[0] == '0' <==> ip[0] == 127
    ensures k[0] == '1' <==> ip[0] != 127
  {
    [if ip[0] == 127 then '0' else '1', '-'] + NatToString(ip[|ip| - 1])
  }

  predicate SortedByKey(s: seq<Parts>)
  {
    forall i, j :: 0 <= i < j < |s| ==> LexLe(Key(s[i]), Key(s[j]))
  }

  /** Places `ip` after every element of `sorted` whose key is not greater,
      which is where a stable sort puts an element that comes later in its input. */
  function Insert(ip: Parts, sorted: seq<Parts>): (r: seq<Parts>)
    ensures |r| == |sorted| + 1
    decreases |sorted|
  {
    if sorted == [] || LexLe(Key(sorted[|sorted| - 1]), Key(ip)) then sorted + [ip]
    else Insert(ip, sorted[..|sorted| - 1]) + [sorted[|sorted| - 1]]
  }

  /** `sorted(possible, key=Key)`: Python's sort is stable, and a stable sort
      has exactly one result, which insertion from left to right produces. */
  function SortByKey(possible: seq<Parts>): (r: seq<Parts>)
    ensures |r| == |possible|
    decreases |possible|
  {
    if possible == [] then []
    else Insert(possible[|possible| - 1], SortByKey(possible[..|possible| - 1]))
  }

  /** `".".join([str(part) for part in parts])`. */
  function Render(ip: Parts): (r: string)
    ensures Split(r, '.') == seq(|ip|, i requires 0 <= i < |ip| => NatToString(ip[i]))
  {
    var texts := seq(|ip|, i requires 0 <= i < |ip| => NatToString(ip[i]));
    assert forall i :: 0 <= i < |texts| ==> '.' !in texts[i] by {
      forall i | 0 <= i < |texts| ensures '.' !in texts[i] {
        NatToStringHasNoDot(ip[i]);
      }
    }
    SplitOfJoin(texts, '.');
    Join(texts, '.')
  }

  /** The parts of the address `_choose_address` returns, None for no return value. */
  function Best(addresses: seq<string>): (r: Option<Parts>)
    ensures r.None? <==> Possible(addresses) == []
    ensures r.Some? ==> r.value in Possible(addresses)
  {
    SortByKeySorts(Possible(addresses));
    var sorted := SortByKey(Possible(addresses));
    assert sorted != [] ==> sorted[|sorted| - 1] in multiset(sorted);
    if sorted == [] then None else Some(sorted[|sorted| - 1])
  }

  /** What `_choose_address(addresses)` returns. */
  function Chosen(addresses: seq<string>): (r: Option<string>)
    ensures r.None? <==> forall i :: 0 <= i < |addresses| ==> Accept(addresses[i]).None?
    ensures r.Some? ==> Accept(r.value) == Best(addresses)
  {
    PossibleMembers(addresses);
    match Best(addresses)
    case Some(ip) => ParseOfRender(ip); Some(Render(ip))
    case None => None
  }

  /** The argument of `_choose_address`: anything but a list is wrapped in one. */
  datatype Candidates = CandidateList(items: seq<string>) | SingleCandidate(item: string)

  function AsList(c: Candidates): (r: seq<string>)
    ensures c.SingleCandidate? ==> |r| == 1
  {
    match c
    case CandidateList(items) => items
    case SingleCandidate(item) => [item]
  }

  /** `DevNS._choose_address`: a loop that collects the accepted candidates,
      then the stable sort and the last element. */
  method ChooseAddress(candidates: Candidates) returns (r: Option<string>)
    ensures r == Chosen(AsList(candidates))
  {
    var addresses := AsList(candidates);
    var possible: seq<Parts> := [];
    for i := 0 to |addresses|
      invariant possible == Possible(addresses[..i])
    {
      assert addresses[..i + 1][..i] == addresses[..i];
      var ip := Accept(addresses[i]);
      if ip.Some? {
        possible := possible + [ip.value];
      }
    }
    assert addresses[..|addresses|] == addresses;
    var sorted := SortByKey(possible);
    if sorted == [] {
      r := None;
    } else {
      r := Some(Render(sorted[|sorted| - 1]));
    }
  }

  // ---------------------------------------------------------------- the sort

  /** Appending an element no smaller than every key keeps a list sorted. */
  lemma AppendSorted(s: seq<Parts>, x: Parts)
    requires SortedByKey(s)
    requires forall i :: 0 <= i < |s| ==> LexLe(Key(s[i]), Key(x))
    ensures SortedByKey(s + [x])
  {
  }

  /** Insertion adds `ip` and nothing else. */
  lemma {:induction false} InsertAdds(ip: Parts, sorted: seq<Parts>)
    ensures multiset(Insert(ip, sorted)) == multiset(sorted) + multiset{ip}
    decreases |sorted|
  {
    if !(sorted == [] || LexLe(Key(sorted[|sorted| - 1]), Key(ip))) {
      var init, last := sorted[..|sorted| - 1], sorted[|sorted| - 1];
      assert sorted == init + [last];
      InsertAdds(ip, init);
    }
  }

  /** Inserting into a sorted list keeps it sorted. */
  lemma {:induction false} InsertSorted(ip: Parts, sorted: seq<Parts>)
    requires SortedByKey(sorted)
    ensures SortedByKey(Insert(ip, sorted))
    decreases |sorted|
  {
    if sorted == [] || LexLe(Key(sorted[|sorted| - 1]), Key(ip)) {
      forall i | 0 <= i < |sorted| ensures LexLe(Key(sorted[i]), Key(ip)) {
        if i < |sorted| - 1 {
          LexLeTransitive(Key(sorted[i]), Key(sorted[|sorted| - 1]), Key(ip));
        }
      }
      AppendSorted(sorted, ip);
    } else {
      var init, last := sorted[..|sorted| - 1], sorted[|sorted| - 1];
      InsertSorted(ip, init);
      InsertAdds(ip, init);
      LexLeTotal(Key(last), Key(ip));
      var front := Insert(ip, init);
      forall i | 0 <= i < |front| ensures LexLe(Key(front[i]), Key(last)) {
        assert front[i] in multiset(front);
        if front[i] != ip {
          assert front[i] in multiset(init);
          var m :| 0 <= m < |init| && init[m] == front[i];
          assert sorted[m] == front[i];
        }
      }
      AppendSorted(front, last);
    }
  }

  /** The key function's sort yields an ordered permutation of its input. */
  lemma {:induction false} SortByKeySorts(possible: seq<Parts>)
    ensures SortedByKey(SortByKey(possible))
    ensures multiset(SortByKey(possible)) == multiset(possible)
    decreases |possible|
  {
    if possible != [] {
      var init, x := possible[..|possible| - 1], possible[|possible| - 1];
      assert SortByKey(possible) == Insert(x, SortByKey(init));
      SortByKeySorts(init);
      InsertSorted(x, SortByKey(init));
      InsertAdds(x, SortByKey(init));
      assert possible == init + [x];
      assert multiset(possible) == multiset(init) + multiset{x};
    }
  }

  /** `ps[k]` is what a stable ascending sort puts last: no key is greater
      than its key, and every element after it has a strictly smaller key. */
  predicate IsLastBest(ps: seq<Parts>, k: int)
  {
    && 0 <= k < |ps|
    && (forall j :: 0 <= j < |ps| ==> LexLe(Key(ps[j]), Key(ps[k])))
    && (forall j :: k < j < |ps| ==> !LexLe(Key(ps[k]), Key(ps[j])))
  }

  /** The last element after an insertion: `ip` when no key before it is greater. */
  lemma InsertLast(ip: Parts, sorted: seq<Parts>)
    requires sorted != []
    ensures var r := Insert(ip, sorted);
      r[|r| - 1] == if LexLe(Key(sorted[|sorted| - 1]), Key(ip)) then ip else sorted[|sorted| - 1]
  {
  }

  /** Extends the last-of-the-greatest position of `init` by one element `x`. */
  lemma LastBestStep(init: seq<Parts>, x: Parts, k: int)
    requires IsLastBest(init, k)
    ensures LexLe(Key(init[k]), Key(x)) ==> IsLastBest(init + [x], |init|)
    ensures !LexLe(Key(init[k]), Key(x)) ==> IsLastBest(init + [x], k)
  {
    var ps := init + [x];
    if LexLe(Key(init[k]), Key(x)) {
      forall j | 0 <= j < |ps| ensures LexLe(Key(ps[j]), Key(x)) {
        if j < |init| {
          LexLeTransitive(Key(init[j]), Key(init[k]), Key(x));
        } else {
          LexLeTotal(Key(x), Key(x));
        }
      }
    } else {
      LexLeTotal(Key(init[k]), Key(x));
      forall j | 0 <= j < |ps| ensures LexLe(Key(ps[j]), Key(init[k])) {
        if j < |init| {
          assert ps[j] == init[j];
        }
      }
    }
  }

  /** The last element after the sort is the last of the greatest keys. */
  lemma {:induction false} LastOfSort(ps: seq<Parts>)
    requires ps != []
    ensures exists k :: IsLastBest(ps, k) && SortByKey(ps)[|ps| - 1] == ps[k]
    decreases |ps|
  {
    var init, x := ps[..|ps| - 1], ps[|ps| - 1];
    assert ps == init + [x];
    if init == [] {
      LexLeTotal(Key(x), Key(x));
      assert IsLastBest(ps, 0);
    } else {
      LastOfSort(init);
      var k :| IsLastBest(init, k) && SortByKey(init)[|init| - 1] == init[k];
      InsertLast(x, SortByKey(init));
      LastBestStep(init, x, k);
    }
  }

  /** Dropping the last element keeps a position before it the last of the greatest keys. */
  lemma LastBestOfFront(ps: seq<Parts>, k: int)
    requires IsLastBest(ps, k) && k < |ps| - 1
    ensures IsLastBest(ps[..|ps| - 1], k)
  {
    var init := ps[..|ps| - 1];
    forall j | 0 <= j < |init| ensures init[j] == ps[j] { }
  }

  /** Whichever position is the last of the greatest keys, the sort puts its element last. */
  lemma {:induction false} LastOfSortAt(ps: seq<Parts>, k: int)
    requires IsLastBest(ps, k)
    ensures SortByKey(ps)[|ps| - 1] == ps[k]
    decreases |ps|
  {
    var init, x := ps[..|ps| - 1], ps[|ps| - 1];
    if init != [] {
      assert SortByKey(ps) == Insert(x, SortByKey(init));
      InsertLast(x, SortByKey(init));
      if k == |init| {
        LastOfSort(init);
        var m :| IsLastBest(init, m) && SortByKey(init)[|init| - 1] == init[m];
        assert ps[m] == init[m];
      } else {
        assert ps[|init|] == x;
        LastBestOfFront(ps, k);
        LastOfSortAt(init, k);
      }
    }
  }

  // ---------------------------------------------------------------- the key

  /** Two texts behind one common first character compare as the rest does. */
  lemma LexLeAfterCommonChar(c: char, a: string, b: string)
    ensures LexLe([c] + a, [c] + b) <==> LexLe(a, b)
  {
    assert ([c] + a)[1..] == a && ([c] + b)[1..] == b;
  }

  /** Every 127 address ranks below every other accepted address. */
  lemma LoopbackKeyLower(p: Parts, q: Parts)
    requires p[0] == 127 && q[0] != 127
    ensures LexLe(Key(p), Key(q)) && !LexLe(Key(q), Key(p))
  {
  }

  /** Within one group the order is that of the last parts' decimal texts. */
  lemma KeyWithinGroup(p: Parts, q: Parts)
    requires (p[0] == 127) == (q[0] == 127)
    ensures LexLe(Key(p), Key(q)) <==> LexLe(NatToString(p[|p| - 1]), NatToString(q[|q| - 1]))
  {
    var g := if p[0] == 127 then '0' else '1';
    var tp, tq := NatToString(p[|p| - 1]), NatToString(q[|q| - 1]);
    assert Key(p) == [g] + ([ '-'] + tp) && Key(q) == [g] + (['-'] + tq);
    LexLeAfterCommonChar(g, ['-'] + tp, ['-'] + tq);
    LexLeAfterCommonChar('-', tp, tq);
  }

  // ---------------------------------------------------------------- the filter

  /** `possible` holds the parts of the accepted candidates and nothing else. */
  lemma {:induction false} PossibleMembers(addresses: seq<string>)
    ensures forall i :: 0 <= i < |addresses| && Accept(addresses[i]).Some? ==>
      Accept(addresses[i]).value in Possible(addresses)
    ensures forall p :: p in Possible(addresses) ==>
      exists i :: 0 <= i < |addresses| && Accept(addresses[i]) == Some(p)
    decreases |addresses|
  {
    if addresses != [] {
      var init, last := addresses[..|addresses| - 1], addresses[|addresses| - 1];
      PossibleMembers(init);
      PossibleStep(init, last);
      assert init + [last] == addresses;
      forall p | p in Possible(addresses)
        ensures exists i :: 0 <= i < |addresses| && Accept(addresses[i]) == Some(p)
      {
        if p in Possible(init) {
          var i :| 0 <= i < |init| && Accept(init[i]) == Some(p);
          assert addresses[i] == init[i];
        } else {
          assert Accept(last) == Some(p);
        }
      }
      forall i | 0 <= i < |addresses| && Accept(addresses[i]).Some?
        ensures Accept(addresses[i]).value in Possible(addresses)
      {
        if i < |init| {
          assert addresses[i] == init[i];
        }
      }
    }
  }

  /** One turn of the collecting loop: the next candidate is added when accepted. */
  lemma PossibleStep(addresses: seq<string>, next: string)
    ensures Possible(addresses + [next]) ==
      Possible(addresses) + (if Accept(next).Some? then [Accept(next).value] else [])
  {
    assert (addresses + [next])[..|addresses|] == addresses;
  }

  // ---------------------------------------------------------------- selection

  /** `_choose_address` returns nothing exactly when no candidate is accepted;
      otherwise it returns the accepted candidate that the sort puts last. */
  lemma BestIsLastBest(addresses: seq<string>)
    ensures Best(addresses).None? <==> forall i :: 0 <= i < |addresses| ==> Accept(addresses[i]).None?
    ensures Best(addresses).Some? ==>
      exists k :: IsLastBest(Possible(addresses), k) && Best(addresses).value == Possible(addresses)[k]
  {
    var ps := Possible(addresses);
    PossibleMembers(addresses);
    if ps != [] {
      LastOfSort(ps);
      assert ps[0] in ps;
    } else {
      assert SortByKey(ps) == [];
    }
  }

  /** Conversely, the last position of the greatest key determines the answer. */
  lemma BestAt(addresses: seq<string>, k: int)
    requires IsLastBest(Possible(addresses), k)
    ensures Best(addresses) == Some(Possible(addresses)[k])
  {
    LastOfSortAt(Possible(addresses), k);
  }

  /** No accepted candidate has a greater key than the returned one. */
  lemma BestDominates(addresses: seq<string>, i: int)
    requires 0 <= i < |addresses| && Accept(addresses[i]).Some?
    ensures Best(addresses).Some?
    ensures LexLe(Key(Accept(addresses[i]).value), Key(Best(addresses).value))
  {
    BestIsLastBest(addresses);
    PossibleMembers(addresses);
    var ps := Possible(addresses);
    var k :| IsLastBest(ps, k) && Best(addresses).value == ps[k];
    var j :| 0 <= j < |ps| && ps[j] == Accept(addresses[i]).value;
    assert LexLe(Key(ps[j]), Key(ps[k]));
  }

  /** Any accepted address outside 127 beats every 127 address. */
  lemma NonLoopbackWins(addresses: seq<string>, i: int)
    requires 0 <= i < |addresses| && Accept(addresses[i]).Some?
    requires Accept(addresses[i]).value[0] != 127
    ensures Best(addresses).Some? && Best(addresses).value[0] != 127
  {
    BestDominates(addresses, i);
  }

  /** Within the winner's group (127 or not), no accepted address has a last
      part whose decimal text is greater. */
  lemma WinnerHasGreatestLastPartText(addresses: seq<string>, i: int)
    requires 0 <= i < |addresses| && Accept(addresses[i]).Some? && Best(addresses).Some?
    requires (Accept(addresses[i]).value[0] == 127) == (Best(addresses).value[0] == 127)
    ensures var p, w := Accept(addresses[i]).value, Best(addresses).value;
      LexLe(NatToString(p[|p| - 1]), NatToString(w[|w| - 1]))
  {
    BestDominates(addresses, i);
    KeyWithinGroup(Accept(addresses[i]).value, Best(addresses).value);
  }

  // ---------------------------------------------------------------- re-joining

  /** Splitting the re-joined text at dots and parsing each piece gives the
      parts back: the returned text is the normal form of the accepted one. */
  lemma ParseOfRender(ip: Parts)
    ensures ParseParts(Render(ip)) == Some(ip)
  {
    var texts := seq(|ip|, i requires 0 <= i < |ip| => NatToString(ip[i]));
    forall i | 0 <= i < |texts| ensures '.' !in texts[i] && ParseDecimal(texts[i]) == Some(ip[i]) {
      NatToStringHasNoDot(ip[i]);
      ParseOfNatToString(ip[i]);
    }
    SplitOfJoin(texts, '.');
    PartValuesOfTexts(texts, ip);
  }

  lemma {:induction false} PartValuesOfTexts(texts: seq<string>, values: seq<nat>)
    requires |texts| == |values|
    requires forall i :: 0 <= i < |texts| ==> ParseDecimal(texts[i]) == Some(values[i])
    ensures PartValues(texts) == Some(values)
    decreases |texts|
  {
    if texts != [] {
      PartValuesOfTexts(texts[1..], values[1..]);
      assert values == [values[0]] + values[1..];
    }
  }

  /** The returned address is itself acceptable, and choosing from it alone
      returns it again. */
  lemma ChosenIsStable(addresses: seq<string>)
    requires Chosen(addresses).Some?
    ensures Accept(Chosen(addresses).value) == Best(addresses)
    ensures Chosen([Chosen(addresses).value]) == Chosen(addresses)
  {
    var ip := Best(addresses).value;
    BestIsLastBest(addresses);
    var k :| IsLastBest(Possible(addresses), k) && ip == Possible(addresses)[k];
    ParseOfRender(ip);
    var v := Render(ip);
    assert [v][..0] == [];
    assert Possible([v]) == [ip];
    assert SortByKey([ip]) == [ip] by {
      assert [ip][..0] == [];
    }
  }
}

/** The address cache of `DevNS` (the `address` property, its setter and
    `_address_age`) and `_build_response`, which reads the cache. */
module Server {
  import opened Common
  import opened Text
  import opened AddressSelector
  import opened Ifconfig
  import opened Wire

  // ---------------------------------------------------------------- the outside world

  /** `datetime` keeps microseconds; the clock is read as microseconds. */
  const MicrosPerSecond := 1000000

  /** The outcome of `socket.getfqdn()` followed by `socket.gethostbyname`. */
  datatype HostnameLookup = FqdnRaised | ResolveRaised | Resolved(address: string)

  /** What one call sees of the world: the `ifconfig` output (None when running
      it raised), the hostname lookup, and `datetime.utcnow()`. */
  datatype Environment = Environment(ifconfig: Option<string>, hostname: HostnameLookup, now: int)

  /** The address sources the setter falls back on, in the order it tries them. */
  datatype Source = IfconfigSource | HostnameSource

  /** `_get_address_by_hostname`: the resolved address goes through the
      selector as a one-element list; a lookup that raises gives None, except
      that when `getfqdn` itself raised the handler's log call names the
      unbound `hostname` and raises in turn. */
  function ByHostname(lookup: HostnameLookup): (r: Result<Option<string>>)
    ensures r == Failure(HostnameUnbound) <==> lookup.FqdnRaised?
    ensures r.Success? && r.value.Some? ==> lookup.Resolved? && Accept(r.value.value).Some?
  {
    match lookup
    case FqdnRaised => Failure(HostnameUnbound)
    case ResolveRaised => Success(None)
    case Resolved(address) => Success(Chosen([address]))
  }

  method GetAddressByHostname(lookup: HostnameLookup) returns (r: Result<Option<string>>)
    ensures r == ByHostname(lookup)
  {
    match lookup
    case FqdnRaised =>
      r := Failure(HostnameUnbound);
    case ResolveRaised =>
      r := Success(None);
    case Resolved(address) =>
      var chosen := ChooseAddress(SingleCandidate(address));
      r := Success(chosen);
  }

  /** Python truth of what an address source returns. */
  predicate Truthy(o: Option<string>)
  {
    o.Some? && o.value != ""
  }

  // ---------------------------------------------------------------- the setter

  /** The address the setter settles on and the sources it consulted. */
  datatype Refresh = Refresh(outcome: Result<string>, consulted: seq<Source>)

  /** `address = address or self._get_address_by_ifconfig()`, then
      `address = address or self._get_address_by_hostname()`, then the
      RuntimeError when nothing is left. */
  function Resolve(given: string, env: Environment): (r: Refresh)
    ensures r.outcome.Success? ==> r.outcome.value != ""
    ensures r.consulted == [] <==> given != ""
  {
    if given != "" then Refresh(Success(given), [])
    else
      match ByIfconfig(env.ifconfig)
      case Failure(e) => Refresh(Failure(e), [IfconfigSource])
      case Success(fromIfconfig) =>
        if Truthy(fromIfconfig) then Refresh(Success(fromIfconfig.value), [IfconfigSource])
        else
          match ByHostname(env.hostname)
          case Failure(e) => Refresh(Failure(e), [IfconfigSource, HostnameSource])
          case Success(fromHostname) =>
            if Truthy(fromHostname) then Refresh(Success(fromHostname.value), [IfconfigSource, HostnameSource])
            else Refresh(Failure(NoSuitableAddress), [IfconfigSource, HostnameSource])
  }

  /** The first half of the setter, up to the RuntimeError. */
  method ResolveAddress(given: string, env: Environment) returns (r: Result<string>, ghost consulted: seq<Source>)
    ensures Refresh(r, consulted) == Resolve(given, env)
  {
    consulted := [];
    if given != "" {
      return Success(given), consulted;
    }
    var fromIfconfig := GetAddressByIfconfig(env.ifconfig);
    consulted := [IfconfigSource];
    if fromIfconfig.Failure? {
      return Failure(fromIfconfig.error), consulted;
    }
    if Truthy(fromIfconfig.value) {
      return Success(fromIfconfig.value.value), consulted;
    }
    var fromHostname := GetAddressByHostname(env.hostname);
    consulted := consulted + [HostnameSource];
    if fromHostname.Failure? {
      return Failure(fromHostname.error), consulted;
    }
    if Truthy(fromHostname.value) {
      return Success(fromHostname.value.value), consulted;
    }
    r := Failure(NoSuitableAddress);
  }

  /** The fallback chain: a given address is used as it is and nothing is
      consulted; otherwise ifconfig is consulted first and once, the hostname
      only after ifconfig came back empty; the outcome is never the empty
      address, and the RuntimeError is raised exactly when every source
      came back empty. */
  lemma ResolveChain(given: string, env: Environment)
    ensures var r := Resolve(given, env);
      && (r.outcome.Success? ==> r.outcome.value != "")
      && (given != "" ==> r == Refresh(Success(given), []))
      && (given == "" ==> 1 <= |r.consulted| <= 2 && r.consulted[0] == IfconfigSource
                          && IfconfigSource !in r.consulted[1..])
      && (HostnameSource in r.consulted <==>
            given == "" && ByIfconfig(env.ifconfig).Success? && !Truthy(ByIfconfig(env.ifconfig).value))
      && (r.outcome == Failure(NoSuitableAddress) <==>
            && given == ""
            && ByIfconfig(env.ifconfig).Success? && !Truthy(ByIfconfig(env.ifconfig).value)
            && ByHostname(env.hostname).Success? && !Truthy(ByHostname(env.hostname).value))
      && (given == "" && ByIfconfig(env.ifconfig).Success? && Truthy(ByIfconfig(env.ifconfig).value) ==>
            r.outcome == Success(ByIfconfig(env.ifconfig).value.value))
      && ((given == "" && ByIfconfig(env.ifconfig).Success? && !Truthy(ByIfconfig(env.ifconfig).value)
           && ByHostname(env.hostname).Success? && Truthy(ByHostname(env.hostname).value)) ==>
            r.outcome == Success(ByHostname(env.hostname).value.value))
      && (given == "" && ByIfconfig(env.ifconfig).Failure? ==> r.outcome == Failure(IfconfigFailed))
      && ((given == "" && ByIfconfig(env.ifconfig).Success? && !Truthy(ByIfconfig(env.ifconfig).value)
           && ByHostname(env.hostname).Failure?) ==> r.outcome == Failure(HostnameUnbound))
  {
  }

  /** `"".join(map(lambda x: chr(int(x)), parts)).encode("latin-1")`: one
      byte per part; None when a part is not a decimal (`int` raises) or
      exceeds 255 (`chr` or the latin-1 encoding raises). */
  function EncodeParts(parts: seq<string>): (r: Option<seq<byte>>)
    ensures r.Some? ==> |r.value| == |parts|
    decreases |parts|
  {
    if parts == [] then Some([])
    else match (ParseDecimal(parts[0]), EncodeParts(parts[1..]))
      case (Some(n), Some(bytes)) => if n < 256 then Some([n] + bytes) else None
      case (None, _) => None
      case (_, None) => None
  }

  function EncodeAddress(address: string): (r: Option<seq<byte>>)
    ensures r.Some? ==> |r.value| == |Split(address, '.')| >= 1
  {
    EncodeParts(Split(address, '.'))
  }

  predicate AllBytes(values: seq<nat>)
  {
    forall i :: 0 <= i < |values| ==> values[i] < 256
  }

  /** The encoding succeeds exactly when every dotted part parses and is at
      most 255, and then it is those values, one byte each. */
  lemma {:induction false} EncodePartsMeaning(parts: seq<string>)
    ensures EncodeParts(parts).Some? <==> PartValues(parts).Some? && AllBytes(PartValues(parts).value)
    ensures EncodeParts(parts).Some? ==> EncodeParts(parts).value == PartValues(parts).value
    decreases |parts|
  {
    if parts != [] {
      EncodePartsMeaning(parts[1..]);
      if PartValues(parts).Some? {
        var vs := PartValues(parts).value;
        assert PartValues(parts[1..]).value == vs[1..];
        if !AllBytes(vs[1..]) {
          var i :| 0 <= i < |vs[1..]| && vs[1..][i] >= 256;
          assert vs[i + 1] >= 256;
        }
      }
    }
  }

  /** An address the selector returns encodes to its own parts when they are
      all at most 255, and fails to encode otherwise. */
  lemma EncodeOfRender(ip: Parts)
    ensures EncodeAddress(Render(ip)) == if AllBytes(ip) then Some(ip) else None
  {
    ParseOfRender(ip);
    EncodePartsMeaning(Split(Render(ip), '.'));
  }

  // ---------------------------------------------------------------- the cache

  /** The fields `_address` ("" while unset), `_encoded_address` (None before
      the first setter call that gets as far as assigning it) and
      `_address_last_updated`. */
  datatype Cache = Cache(address: string, encoded: Option<seq<byte>>, lastUpdated: int)

  /** The two configuration values the cache reads: `config.address`, an
      override ("" when unset), and `config.ttl` in seconds. */
  datatype Config = Config(address: string, ttl: int)

  /** The cache after a call, what the call returned or raised, and the
      address sources it consulted. */
  datatype Step = Step(cache: Cache, outcome: Result<string>, consulted: seq<Source>)

  /** The setter. `_address` is assigned before the encoding runs, so an
      address that fails to encode is kept with the previous encoded bytes
      and timestamp while the error propagates. */
  function Assign(c: Cache, given: string, env: Environment): (s: Step)
    ensures s.consulted == Resolve(given, env).consulted
    ensures s.outcome.Success? ==>
      s.cache == Cache(s.outcome.value, EncodeAddress(s.outcome.value), env.now) && s.cache.encoded.Some?
    ensures s.outcome.Failure? ==> s.cache.encoded == c.encoded && s.cache.lastUpdated == c.lastUpdated
  {
    var refresh := Resolve(given, env);
    match refresh.outcome
    case Failure(e) => Step(c, Failure(e), refresh.consulted)
    case Success(address) =>
      match EncodeAddress(address)
      case None => Step(c.(address := address), Failure(Unencodable), refresh.consulted)
      case Some(bytes) => Step(Cache(address, Some(bytes), env.now), Success(address), refresh.consulted)
  }

  /** `_address_age`: 0 under an override, otherwise the whole seconds since
      the last update (`delta.days * 86400 + delta.seconds` rounds down). */
  function AddressAge(cfg: Config, c: Cache, now: int): (age: int)
    ensures cfg.address != "" ==> age == 0
    ensures cfg.address == "" ==>
      age * MicrosPerSecond <= now - c.lastUpdated < (age + 1) * MicrosPerSecond
  {
    if cfg.address != "" then 0 else (now - c.lastUpdated) / MicrosPerSecond
  }

  /** The getter: refresh through the setter, with `config.address`, when
      the cached address is unset or older than the TTL; then `_address`. */
  function Read(cfg: Config, c: Cache, env: Environment): (s: Step)
    ensures s.outcome.Success? ==> s.outcome.value == s.cache.address != ""
    ensures s.consulted != [] ==> cfg.address == ""
  {
    if c.address == "" || AddressAge(cfg, c, env.now) > cfg.ttl then Assign(c, cfg.address, env)
    else Step(c, Success(c.address), [])
  }

  /** The encoded bytes belong to the cached address. */
  predicate Consistent(c: Cache)
  {
    c.address != "" ==> c.encoded == EncodeAddress(c.address)
  }

  /** A setter call either succeeds and replaces all three fields, with the
      timestamp set to now; or fails before assigning and changes nothing; or
      fails to encode and changes `_address` alone. */
  lemma AssignOutcomes(c: Cache, given: string, env: Environment)
    ensures var s := Assign(c, given, env);
      && (s.outcome.Success? ==>
            && s.cache.address == s.outcome.value != ""
            && s.cache.encoded == EncodeAddress(s.cache.address) && s.cache.encoded.Some?
            && s.cache.lastUpdated == env.now)
      && (s.outcome.Failure? && s.outcome.error != Unencodable ==> s.cache == c)
      && (s.outcome == Failure(Unencodable) ==>
            && s.cache == c.(address := s.cache.address) && s.cache.address != ""
            && EncodeAddress(s.cache.address).None?)
      && s.consulted == Resolve(given, env).consulted
      && (s.outcome.Success? || s.outcome == Failure(Unencodable) ==>
            Resolve(given, env).outcome == Success(s.cache.address))
      && (s.outcome.Failure? && s.outcome.error != Unencodable ==> s.outcome == Resolve(given, env).outcome)
  {
    ResolveChain(given, env);
  }

  /** Every read that does not raise Unencodable leaves the encoded bytes
      belonging to the cached address. */
  lemma ReadKeepsConsistent(cfg: Config, c: Cache, env: Environment)
    requires Consistent(c)
    ensures var s := Read(cfg, c, env);
      s.outcome != Failure(Unencodable) ==> Consistent(s.cache)
  {
    AssignOutcomes(c, cfg.address, env);
  }

  /** A read of a set address no older than the TTL consults nothing and
      changes nothing. */
  lemma FreshReadHits(cfg: Config, c: Cache, env: Environment)
    requires c.address != "" && AddressAge(cfg, c, env.now) <= cfg.ttl
    ensures Read(cfg, c, env) == Step(c, Success(c.address), [])
  {
  }

  /** A read of an unset address, or of one older than the TTL, is a setter
      call with the override: what it returns, stores and consults is what
      `Assign` gives for `cfg.address`. */
  lemma ReadRefreshes(cfg: Config, c: Cache, env: Environment)
    requires c.address == "" || AddressAge(cfg, c, env.now) > cfg.ttl
    ensures Read(cfg, c, env) == Assign(c, cfg.address, env)
  {
  }

  /** Under an override, ifconfig and the hostname are never consulted, and
      a read never depends on them. */
  lemma OverrideNeverConsults(cfg: Config, c: Cache, env: Environment, other: Environment)
    requires cfg.address != "" && other.now == env.now
    ensures Read(cfg, c, env).consulted == []
    ensures Read(cfg, c, env) == Read(cfg, c, other)
  {
  }

  /** Without an override, a stale read consults ifconfig first and once;
      when ifconfig answers an address, the read returns that address, stores
      it with its encoding and moves the timestamp to now. */
  lemma StaleReadRefreshes(cfg: Config, c: Cache, env: Environment)
    requires cfg.address == "" && c.address != "" && AddressAge(cfg, c, env.now) > cfg.ttl
    ensures var s := Read(cfg, c, env);
      && 1 <= |s.consulted| && s.consulted[0] == IfconfigSource && IfconfigSource !in s.consulted[1..]
      && (s.outcome.Success? ==> s.cache.lastUpdated == env.now)
    ensures var s, fromIfconfig := Read(cfg, c, env), ByIfconfig(env.ifconfig);
      fromIfconfig.Success? && Truthy(fromIfconfig.value) && EncodeAddress(fromIfconfig.value.value).Some? ==>
        && s.outcome == Success(fromIfconfig.value.value)
        && s.cache == Cache(fromIfconfig.value.value, EncodeAddress(fromIfconfig.value.value), env.now)
  {
    ResolveChain(cfg.address, env);
    AssignOutcomes(c, cfg.address, env);
  }

  /** With a TTL of at least zero, a second read at the same moment after a
      successful one is served from the cache. */
  lemma ReadTwiceHits(cfg: Config, c: Cache, env: Environment)
    requires cfg.ttl >= 0
    requires Read(cfg, c, env).outcome.Success?
    ensures var first := Read(cfg, c, env);
      Read(cfg, first.cache, env) == Step(first.cache, first.outcome, [])
  {
    var first := Read(cfg, c, env);
    AssignOutcomes(c, cfg.address, env);
    if first.cache != c {
      assert first.cache.lastUpdated == env.now;
    }
  }

  // ---------------------------------------------------------------- _build_response

  /** What `_build_response` returns or raises. */
  datatype Outcome = Reply(bytes: seq<byte>) | Ignored | Raised(error: Error)

  /** The cache after a call to `_build_response` and its outcome. */
  datatype Answer = Answer(cache: Cache, outcome: Outcome, consulted: seq<Source>)

  /** `_build_response`: the opcode read, the label walk, the getter that the
      log line calls, then the reply around the encoded address. */
  function Respond(cfg: Config, c: Cache, data: seq<byte>, env: Environment): (a: Answer)
    ensures a.outcome.Reply? ==>
      && |data| > 12 && a.cache.encoded.Some?
      && |a.outcome.bytes| == |data| + 12 + |a.cache.encoded.value|
      && a.outcome.bytes[..2] == data[..2]
    ensures !a.outcome.Reply? && a.outcome != Raised(Unencodable) ==>
      a.cache.encoded == c.encoded && a.cache.lastUpdated == c.lastUpdated
  {
    if |data| < 3 then Answer(c, Raised(IndexError), [])
    else if Opcode(data[2]) != Query then Answer(c, Ignored, [])
    else if LabelsFrom(data, 12).None? then Answer(c, Raised(IndexError), [])
    else
      var read := Read(cfg, c, env);
      if read.outcome.Failure? then Answer(read.cache, Raised(read.outcome.error), read.consulted)
      else if read.cache.encoded.None? then Answer(read.cache, Raised(NoEncodedAddress), read.consulted)
      else Answer(read.cache, Reply(ReplyBytes(data, read.cache.encoded.value)), read.consulted)
  }

  /** A query whose opcode is not a standard query is dropped without a
      reply, without touching the cache and without consulting anything. */
  lemma NonQueryIgnored(cfg: Config, c: Cache, data: seq<byte>, env: Environment)
    requires |data| >= 3 && Opcode(data[2]) != Query
    ensures Respond(cfg, c, data, env) == Answer(c, Ignored, [])
  {
  }

  /** A query too short for its opcode byte, or whose labels run past its
      end, raises IndexError before the cache is read. */
  lemma TruncatedQueryRaises(cfg: Config, c: Cache, data: seq<byte>, env: Environment)
    requires |data| < 3 || (Opcode(data[2]) == Query && LabelsFrom(data, 12).None?)
    ensures Respond(cfg, c, data, env) == Answer(c, Raised(IndexError), [])
  {
  }

  /** A reply is produced exactly for a standard query whose labels end
      inside it and a read that succeeds; it then carries the encoded address
      of the cache as the read left it, so the reply repeats the question
      name and answers with those bytes. */
  lemma ReplyWhen(cfg: Config, c: Cache, data: seq<byte>, env: Environment)
    ensures var a, read := Respond(cfg, c, data, env), Read(cfg, c, env);
      a.outcome.Reply? <==>
        |data| >= 3 && Opcode(data[2]) == Query && LabelsFrom(data, 12).Some?
        && read.outcome.Success? && read.cache.encoded.Some?
    ensures var a, read := Respond(cfg, c, data, env), Read(cfg, c, env);
      a.outcome.Reply? ==>
        && a.cache == read.cache
        && a.outcome.bytes == ReplyBytes(data, read.cache.encoded.value)
        && LabelsFrom(a.outcome.bytes, 12) == LabelsFrom(data, 12)
    ensures var a, read := Respond(cfg, c, data, env), Read(cfg, c, env);
      |data| >= 3 && Opcode(data[2]) == Query && LabelsFrom(data, 12).Some? && read.outcome.Failure? ==>
        a == Answer(read.cache, Raised(read.outcome.error), read.consulted)
    ensures var a, read := Respond(cfg, c, data, env), Read(cfg, c, env);
      (|data| >= 3 && Opcode(data[2]) == Query && LabelsFrom(data, 12).Some?
       && read.outcome.Success? && read.cache.encoded.None?) ==>
        a == Answer(read.cache, Raised(NoEncodedAddress), read.consulted)
  {
    var a := Respond(cfg, c, data, env);
    if a.outcome.Reply? {
      ReplyRepeatsQuestionName(data, Read(cfg, c, env).cache.encoded.value);
    }
  }

  /** Once a read has succeeded from a consistent cache, the reply's address
      bytes are the encoding of the address the getter returned. */
  lemma ReplyCarriesAddress(cfg: Config, c: Cache, data: seq<byte>, env: Environment)
    requires Consistent(c)
    requires Respond(cfg, c, data, env).outcome.Reply?
    ensures var read := Read(cfg, c, env);
      var bytes := Respond(cfg, c, data, env).outcome.bytes;
      && read.outcome.Success?
      && bytes[|data| + 12..] == EncodeAddress(read.outcome.value).value
  {
    ReadKeepsConsistent(cfg, c, env);
    AssignOutcomes(c, cfg.address, env);
  }

  // ---------------------------------------------------------------- the class

  class DevNS {
    var configAddress: string
    var ttl: int
    var address: string
    var encoded: Option<seq<byte>>
    var lastUpdated: int

    function Settings(): Config
      reads this
    {
      Config(configAddress, ttl)
    }

    function State(): Cache
      reads this
    {
      Cache(address, encoded, lastUpdated)
    }

    /** `__init__`: no address yet, and the clock read once. */
    constructor(configAddress: string, ttl: int, now: int)
      ensures Settings() == Config(configAddress, ttl)
      ensures State() == Cache("", None, now)
    {
      this.configAddress := configAddress;
      this.ttl := ttl;
      address := "";
      encoded := None;
      lastUpdated := now;
    }

    /** The `address` setter. */
    method SetAddress(given: string, env: Environment) returns (r: Result<string>, ghost consulted: seq<Source>)
      modifies this
      ensures Step(State(), r, consulted) == Assign(old(State()), given, env)
      ensures Settings() == old(Settings())
    {
      var chosen;
      chosen, consulted := ResolveAddress(given, env);
      if chosen.Failure? {
        return Failure(chosen.error), consulted;
      }
      address := chosen.value;
      var bytes := EncodeAddress(chosen.value);
      if bytes.None? {
        return Failure(Unencodable), consulted;
      }
      encoded := bytes;
      lastUpdated := env.now;
      r := Success(chosen.value);
    }

    /** The `address` getter. */
    method GetAddress(env: Environment) returns (r: Result<string>, ghost consulted: seq<Source>)
      modifies this
      ensures Step(State(), r, consulted) == Read(old(Settings()), old(State()), env)
      ensures Settings() == old(Settings())
    {
      if address == "" || AddressAge(Settings(), State(), env.now) > ttl {
        r, consulted := SetAddress(configAddress, env);
      } else {
        r, consulted := Success(address), [];
      }
    }

    /** `_build_response`. */
    method BuildResponse(data: seq<byte>, env: Environment) returns (r: Outcome, ghost consulted: seq<Source>)
      modifies this
      ensures Answer(State(), r, consulted) == Respond(old(Settings()), old(State()), data, env)
      ensures Settings() == old(Settings())
    {
      consulted := [];
      if |data| < 3 {
        return Raised(IndexError), consulted;
      }
      if Opcode(data[2]) != Query {
        return Ignored, consulted;
      }
      var labels := WalkLabels(data);
      if labels.None? {
        return Raised(IndexError), consulted;
      }
      var current;
      current, consulted := GetAddress(env);
      if current.Failure? {
        return Raised(current.error), consulted;
      }
      if encoded.None? {
        return Raised(NoEncodedAddress), consulted;
      }
      r := Reply(ReplyBytes(data, encoded.value));
    }
  }
}

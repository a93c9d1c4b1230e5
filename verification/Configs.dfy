/** Configuration defaults and admission (config.go). */
module Configs {
  import opened Text
  import opened Ipv4

  type uint16 = x: nat | x < 0x1_0000
  type uint32 = x: nat | x < 0x1_0000_0000

  const SCHEMA_VERSION := "v0.1"
  const MAX_ENDPOINTS := 191
  const DEFAULT_TCP_PORT: uint16 := 443
  const FIRST_LOCAL_OCTET := 64

  /** A decoded endpoint; a `Set` flag tells whether the JSON object had the field. */
  datatype Endpoint = Endpoint(
    host: string,
    vsockPort: uint32,
    tcpPort: uint16,
    localPort: uint16,
    localIP: string,
    tcpPortSet: bool,
    localPortSet: bool,
    localIPSet: bool)

  datatype Mode = HostMode | EnclaveMode | OtherMode(name: string)

  // ----------------------------------------------------------------- endpoints

  datatype EndpointError =
    | HostEmpty | HostTooLong | HostBadCharacter | HostEmptyLabel | HostLabelTooLong
    | BadVsockPort | BadTcpPort | BadLocalPort | LocalIPEmpty | LocalIPNotLoopback

  predicate HostChar(c: char) {
    'a' <= c <= 'z' || 'A' <= c <= 'Z' || IsDigit(c) || c == '.' || c == '-' || c == '_'
  }

  /** The host alphabet: letters, digits, dots, hyphens and underscores. */
  lemma HostAlphabet(c: char)
    ensures HostChar(c) <==> c in SMALL_LETTERS || c in CAPITALS || c in DIGITS || c in ".-_"
  {
    IsSmall(c);
    IsCapital(c);
    IsDigitCharacter(c);
    hide SMALL_LETTERS, CAPITALS, DIGITS;
  }

  function CheckLabels(labels: seq<string>): (r: Option<EndpointError>)
    ensures r == None <==> forall k :: 0 <= k < |labels| ==> 1 <= |labels[k]| <= 63
  {
    if labels == [] then None
    else if labels[0] == "" then Some(HostEmptyLabel)
    else if |labels[0]| > 63 then Some(HostLabelTooLong)
    else CheckLabels(labels[1..])
  }

  predicate ValidHostname(host: string) {
    && (forall c :: c in host ==> HostChar(c))
    && (forall k :: 0 <= k < |Split(host, '.')| ==> 1 <= |Split(host, '.')[k]| <= 63)
  }

  function ValidateHostname(host: string): (r: Option<EndpointError>)
    ensures r == None <==> ValidHostname(host)
  {
    if exists c :: c in host && !HostChar(c) then Some(HostBadCharacter)
    else CheckLabels(Split(host, '.'))
  }

  predicate LoopbackText(ip: string) {
    ParseIPv4(ip).Some? && IsLoopback(ParseIPv4(ip).value)
  }

  /** The addresses accepted for a listener are the canonical texts of 127.0.0.0/8. */
  lemma LoopbackTexts(ip: string)
    ensures LoopbackText(ip) <==> exists b: octet, c: octet, d: octet ::
      ip == "127" + "." + (Decimal(b) + "." + (Decimal(c) + "." + Decimal(d)))
  {
    hide ParseIPv4, Format;
    if LoopbackText(ip) {
      var x := ParseIPv4(ip).value;
      FormatOfParse(ip);
      LoopbackFormat(x.b, x.c, x.d);
      assert x == Addr(127, x.b, x.c, x.d);
    }
    forall b: octet, c: octet, d: octet | ip == "127" + "." + (Decimal(b) + "." + (Decimal(c) + "." + Decimal(d)))
      ensures LoopbackText(ip)
    {
      LoopbackFormat(b, c, d);
      ParseOfFormat(Addr(127, b, c, d));
    }
  }

  lemma LoopbackFormat(b: octet, c: octet, d: octet)
    ensures Format(Addr(127, b, c, d)) == "127" + "." + (Decimal(b) + "." + (Decimal(c) + "." + Decimal(d)))
  {
    hide Decimal, Format;
    FormatExpanded(Addr(127, b, c, d));
    OneTwoSeven();
  }

  lemma OneTwoSeven()
    ensures Decimal(127) == "127"
  {
    assert Decimal(12) == "12";
  }

  predicate ValidEndpoint(ep: Endpoint) {
    && 1 <= |ep.host| <= 253 && ValidHostname(ep.host)
    && 1 <= ep.vsockPort <= 65535
    && (ep.tcpPortSet ==> ep.tcpPort != 0)
    && (ep.localPortSet ==> ep.localPort != 0)
    && (ep.localIPSet ==> ep.localIP != "")
    && (ep.localIP != "" ==> LoopbackText(ep.localIP))
  }

  function ValidateEndpoint(ep: Endpoint): (r: Option<EndpointError>)
    ensures r == None <==> ValidEndpoint(ep)
  {
    if ep.host == "" then Some(HostEmpty)
    else if |ep.host| > 253 then Some(HostTooLong)
    else if ValidateHostname(ep.host).Some? then ValidateHostname(ep.host)
    else if ep.vsockPort == 0 || ep.vsockPort > 65535 then Some(BadVsockPort)
    else if ep.tcpPortSet && ep.tcpPort == 0 then Some(BadTcpPort)
    else if ep.localPortSet && ep.localPort == 0 then Some(BadLocalPort)
    else if ep.localIPSet && ep.localIP == "" then Some(LocalIPEmpty)
    else if ep.localIP != "" && !LoopbackText(ep.localIP) then Some(LocalIPNotLoopback)
    else None
  }

  /** Label `k` is the first that is empty or longer than 63 characters. */
  predicate FirstBadLabel(labels: seq<string>, k: nat) {
    && k < |labels| && !(1 <= |labels[k]| <= 63)
    && forall j :: 0 <= j < k ==> 1 <= |labels[j]| <= 63
  }

  /** What each reason says of an endpoint, whatever else is wrong with it. */
  predicate Violates(ep: Endpoint, reason: EndpointError) {
    var labels := Split(ep.host, '.');
    match reason
    case HostEmpty => ep.host == ""
    case HostTooLong => |ep.host| > 253
    case HostBadCharacter => exists c :: c in ep.host && !HostChar(c)
    case HostEmptyLabel => exists k :: 0 <= k < |labels| && FirstBadLabel(labels, k) && labels[k] == ""
    case HostLabelTooLong => exists k :: 0 <= k < |labels| && FirstBadLabel(labels, k) && labels[k] != ""
    case BadVsockPort => !(1 <= ep.vsockPort <= 65535)
    case BadTcpPort => ep.tcpPortSet && ep.tcpPort == 0
    case BadLocalPort => ep.localPortSet && ep.localPort == 0
    case LocalIPEmpty => ep.localIPSet && ep.localIP == ""
    case LocalIPNotLoopback => ep.localIP != "" && !LoopbackText(ep.localIP)
  }

  /** The order of the checks; the two about labels exclude each other. */
  function Rank(reason: EndpointError): nat {
    match reason
    case HostEmpty => 0
    case HostTooLong => 1
    case HostBadCharacter => 2
    case HostEmptyLabel => 3
    case HostLabelTooLong => 3
    case BadVsockPort => 4
    case BadTcpPort => 5
    case BadLocalPort => 6
    case LocalIPEmpty => 7
    case LocalIPNotLoopback => 8
  }

  lemma {:induction false} LabelVerdict(labels: seq<string>)
    ensures match CheckLabels(labels)
            case None => forall k :: !FirstBadLabel(labels, k)
            case Some(reason) =>
              exists k :: 0 <= k < |labels| && FirstBadLabel(labels, k)
                && reason == (if labels[k] == "" then HostEmptyLabel else HostLabelTooLong)
  {
    if labels != [] {
      if 1 <= |labels[0]| <= 63 {
        LabelVerdict(labels[1..]);
        if CheckLabels(labels).Some? {
          var k :| 0 <= k < |labels[1..]| && FirstBadLabel(labels[1..], k)
            && CheckLabels(labels) == Some(if labels[1..][k] == "" then HostEmptyLabel else HostLabelTooLong);
          assert labels[k + 1] == labels[1..][k];
          assert FirstBadLabel(labels, k + 1);
        }
      } else {
        assert FirstBadLabel(labels, 0);
      }
    }
  }

  lemma FirstBadLabelUnique(labels: seq<string>, j: nat, k: nat)
    requires FirstBadLabel(labels, j) && FirstBadLabel(labels, k)
    ensures j == k
  {
  }

  lemma SameRank(ep: Endpoint, x: EndpointError, y: EndpointError)
    requires Violates(ep, x) && Violates(ep, y) && Rank(x) == Rank(y)
    ensures x == y
  {
    hide LoopbackText, Split;
    if x != y {
      var labels := Split(ep.host, '.');
      var j :| 0 <= j < |labels| && FirstBadLabel(labels, j) && labels[j] == "";
      var k :| 0 <= k < |labels| && FirstBadLabel(labels, k) && labels[k] != "";
      FirstBadLabelUnique(labels, j, k);
    }
  }

  lemma VerdictIsFirst(ep: Endpoint)
    ensures match ValidateEndpoint(ep)
            case None => forall other :: !Violates(ep, other)
            case Some(reason) =>
              Violates(ep, reason) && forall other :: Violates(ep, other) ==> Rank(reason) <= Rank(other)
  {
    hide LoopbackText, Split, CheckLabels;
    LabelVerdict(Split(ep.host, '.'));
  }

  /** An endpoint is rejected for the first rule it breaks, in the order of the checks. */
  lemma FirstViolationReported(ep: Endpoint, reason: EndpointError)
    ensures ValidateEndpoint(ep) == Some(reason)
       <==> Violates(ep, reason) && forall other :: Violates(ep, other) ==> Rank(reason) <= Rank(other)
  {
    hide ValidateEndpoint, Violates;
    VerdictIsFirst(ep);
    if ValidateEndpoint(ep).Some? && Violates(ep, reason)
      && Rank(reason) == Rank(ValidateEndpoint(ep).value)
    {
      SameRank(ep, reason, ValidateEndpoint(ep).value);
    }
  }

  /** The address an endpoint's listener binds: its own, or one generated from its index. */
  function LocalIP(ep: Endpoint, index: nat): string {
    if ep.localIP != "" then ep.localIP else "127.0.0." + Decimal(FIRST_LOCAL_OCTET + index)
  }

  function LocalKey(ep: Endpoint, index: nat): string {
    Key(LocalIP(ep, index), ep.localPort)
  }

  /** Up to the endpoint limit, generated addresses are 127.0.0.64 to 127.0.0.254. */
  lemma GeneratedAddress(index: nat)
    requires index < MAX_ENDPOINTS
    ensures ParseIPv4("127.0.0." + Decimal(FIRST_LOCAL_OCTET + index))
         == Some(Addr(127, 0, 0, FIRST_LOCAL_OCTET + index))
  {
    var x := Addr(127, 0, 0, FIRST_LOCAL_OCTET + index);
    var o := Octets(x);
    assert Decimal(12) == "12" && Decimal(127) == "127" && Decimal(0) == "0";
    FormatExpanded(x);
    assert Format(x) == "127.0.0." + Decimal(x.d);
    ParseOfFormat(x);
  }

  lemma LocalIPParses(ep: Endpoint, index: nat)
    requires ValidEndpoint(ep) && index < MAX_ENDPOINTS
    ensures LoopbackText(LocalIP(ep, index))
    ensures ep.localIP == "" ==> ParseIPv4(LocalIP(ep, index)) == Some(Addr(127, 0, 0, 64 + index))
    ensures ep.localIP != "" ==> ParseIPv4(LocalIP(ep, index)) == ParseIPv4(ep.localIP)
    ensures ep.localIP != "" ==> Format(ParseIPv4(ep.localIP).value) == LocalIP(ep, index)
  {
    if ep.localIP != "" {
      FormatOfParse(ep.localIP);
    }
    GeneratedAddress(index);
  }

  // -------------------------------------------------------------------- configs

  datatype ConfigValue = ConfigValue(
    schemaVersion: string,
    httpPort: uint16,
    httpVsockPort: uint32,
    httpTCPPort: uint16,
    endpoints: Option<seq<Endpoint>>,
    endpointsSet: bool)

  function WithDefaults(ep: Endpoint): Endpoint {
    ep.(tcpPort := if ep.tcpPortSet then ep.tcpPort else DEFAULT_TCP_PORT,
        localPort := if ep.localPortSet then ep.localPort else DEFAULT_TCP_PORT)
  }

  function AllWithDefaults(es: seq<Endpoint>): seq<Endpoint> {
    seq(|es|, k requires 0 <= k < |es| => WithDefaults(es[k]))
  }

  function Normalized(v: ConfigValue): ConfigValue {
    v.(schemaVersion := if v.schemaVersion == "" then SCHEMA_VERSION else v.schemaVersion,
       endpoints := match v.endpoints case None => None case Some(es) => Some(AllWithDefaults(es)))
  }

  /** What completing a configuration means: an empty schema version becomes v0.1, ports that
      were not given become 443, and everything else stays. */
  ghost predicate Completed(given: ConfigValue, v: ConfigValue) {
    && v.schemaVersion == (if given.schemaVersion == "" then "v0.1" else given.schemaVersion)
    && v.httpPort == given.httpPort && v.httpVsockPort == given.httpVsockPort && v.httpTCPPort == given.httpTCPPort
    && v.endpointsSet == given.endpointsSet
    && (v.endpoints.Some? <==> given.endpoints.Some?)
    && (v.endpoints.Some? ==>
          && |v.endpoints.value| == |given.endpoints.value|
          && forall k :: 0 <= k < |v.endpoints.value| ==>
               CompletedEndpoint(given.endpoints.value[k], v.endpoints.value[k]))
  }

  ghost predicate CompletedEndpoint(given: Endpoint, ep: Endpoint) {
    && ep.tcpPort == (if given.tcpPortSet then given.tcpPort else 443)
    && ep.localPort == (if given.localPortSet then given.localPort else 443)
    && ep.host == given.host && ep.vsockPort == given.vsockPort && ep.localIP == given.localIP
    && ep.tcpPortSet == given.tcpPortSet && ep.localPortSet == given.localPortSet && ep.localIPSet == given.localIPSet
  }

  /** Normalising completes a configuration, and nothing else does. */
  lemma NormalizedCompletes(given: ConfigValue, v: ConfigValue)
    ensures Completed(given, v) <==> v == Normalized(given)
  {
    if Completed(given, v) && given.endpoints.Some? {
      var es, fs := v.endpoints.value, AllWithDefaults(given.endpoints.value);
      forall k | 0 <= k < |es| ensures es[k] == fs[k] {
        assert CompletedEndpoint(given.endpoints.value[k], es[k]);
      }
      assert es == fs;
    }
  }

  /** Parsing normalises and validation normalises again: the second time changes nothing. */
  lemma NormalizedIdempotent(v: ConfigValue)
    ensures Normalized(Normalized(v)) == Normalized(v)
  {
    if v.endpoints.Some? {
      var es := v.endpoints.value;
      assert AllWithDefaults(AllWithDefaults(es)) == AllWithDefaults(es);
    }
  }

  datatype ConfigError =
    | NilConfig
    | UnsupportedSchema(version: string)
    | EndpointsNotArray
    | TooManyEndpoints(count: nat)
    | BadHTTPPort
    | BadHTTPVsockPort
    | BadHTTPTCPPort
    | UnknownMode(name: string)
    | BadEndpoint(index: nat, reason: EndpointError)
    | DuplicateHost(index: nat, earlier: nat)
    | DuplicateVsockPort(index: nat, earlier: nat)
    | DuplicateLocalAddress(index: nat, earlier: nat)

  predicate SameHost(es: seq<Endpoint>, i: nat, j: nat)
    requires i < |es| && j < |es|
  {
    ToLower(es[i].host) == ToLower(es[j].host)
  }

  predicate SameVsockPort(es: seq<Endpoint>, i: nat, j: nat)
    requires i < |es| && j < |es|
  {
    es[i].vsockPort == es[j].vsockPort
  }

  /** Two listeners would bind the same numeric address and port. */
  predicate SameBind(es: seq<Endpoint>, i: nat, j: nat)
    requires i < |es| && j < |es|
  {
    && ParseIPv4(LocalIP(es[i], i)) == ParseIPv4(LocalIP(es[j], j))
    && es[i].localPort == es[j].localPort
  }

  predicate Distinct(es: seq<Endpoint>, i: nat, j: nat)
    requires i < |es| && j < |es|
  {
    !SameHost(es, i, j) && !SameVsockPort(es, i, j) && !SameBind(es, i, j)
  }

  /** The first `n` endpoints are valid and pairwise distinct. */
  ghost predicate PrefixAdmissible(es: seq<Endpoint>, n: nat)
    requires n <= |es|
  {
    && (forall k :: 0 <= k < n ==> ValidEndpoint(es[k]))
    && (forall i, j :: 0 <= i < j < n ==> Distinct(es, i, j))
  }

  predicate VsockPortInRange(port: uint32) {
    1 <= port <= 65535
  }

  predicate ShapeOk(v: ConfigValue) {
    && v.schemaVersion == SCHEMA_VERSION
    && v.endpointsSet && v.endpoints.Some?
    && |v.endpoints.value| <= MAX_ENDPOINTS
  }

  predicate PortsOk(v: ConfigValue, mode: Mode) {
    && VsockPortInRange(v.httpVsockPort)
    && match mode
       case HostMode => v.httpPort != 0
       case EnclaveMode => v.httpTCPPort != 0
       case OtherMode(_) => false
  }

  /** What a normalised configuration must satisfy. */
  ghost predicate Admissible(v: ConfigValue, mode: Mode) {
    && ShapeOk(v)
    && PortsOk(v, mode)
    && PrefixAdmissible(v.endpoints.value, |v.endpoints.value|)
  }

  /** What each verdict about the endpoints says of them: the index is the first at
      fault, and a duplicate is reported by the first of the three checks it fails. */
  ghost predicate Blames(es: seq<Endpoint>, err: Option<ConfigError>) {
    match err
    case None => PrefixAdmissible(es, |es|)
    case Some(BadEndpoint(i, reason)) =>
      i < |es| && PrefixAdmissible(es, i) && ValidateEndpoint(es[i]) == Some(reason)
    case Some(DuplicateHost(i, p)) => AdmissibleUpTo(es, i, p) && SameHost(es, p, i)
    case Some(DuplicateVsockPort(i, p)) =>
      && AdmissibleUpTo(es, i, p) && SameVsockPort(es, p, i)
      && (forall q :: 0 <= q < i ==> !SameHost(es, q, i))
    case Some(DuplicateLocalAddress(i, p)) =>
      && AdmissibleUpTo(es, i, p) && SameBind(es, p, i)
      && (forall q :: 0 <= q < i ==> !SameHost(es, q, i) && !SameVsockPort(es, q, i))
    case Some(_) => false
  }

  /** `p` lies in an admissible prefix that ends before the valid endpoint `i`. */
  ghost predicate AdmissibleUpTo(es: seq<Endpoint>, i: nat, p: nat) {
    p < i < |es| && PrefixAdmissible(es, i) && ValidEndpoint(es[i])
  }

  /** What each verdict says about the normalised configuration. */
  ghost predicate Explains(v: ConfigValue, mode: Mode, err: Option<ConfigError>) {
    match err
    case None => Admissible(v, mode)
    case Some(UnsupportedSchema(s)) => s == v.schemaVersion != SCHEMA_VERSION
    case Some(EndpointsNotArray) =>
      v.schemaVersion == SCHEMA_VERSION && !(v.endpointsSet && v.endpoints.Some?)
    case Some(TooManyEndpoints(n)) =>
      && v.schemaVersion == SCHEMA_VERSION && v.endpointsSet && v.endpoints.Some?
      && n == |v.endpoints.value| > MAX_ENDPOINTS
    case Some(BadHTTPPort) => ShapeOk(v) && mode == HostMode && v.httpPort == 0
    case Some(BadHTTPVsockPort) =>
      && ShapeOk(v) && !VsockPortInRange(v.httpVsockPort)
      && (mode == EnclaveMode || (mode == HostMode && v.httpPort != 0))
    case Some(BadHTTPTCPPort) =>
      && ShapeOk(v) && mode == EnclaveMode
      && VsockPortInRange(v.httpVsockPort) && v.httpTCPPort == 0
    case Some(UnknownMode(name)) => ShapeOk(v) && mode == OtherMode(name)
    case Some(NilConfig) => false
    case _ => ShapeOk(v) && PortsOk(v, mode) && Blames(v.endpoints.value, err)
  }

  /** The first position an endpoint verdict says is at fault; all of them when none is. */
  function FaultIndex(es: seq<Endpoint>, err: Option<ConfigError>): nat {
    match err
    case Some(BadEndpoint(i, _)) => i
    case Some(DuplicateHost(i, _)) => i
    case Some(DuplicateVsockPort(i, _)) => i
    case Some(DuplicateLocalAddress(i, _)) => i
    case _ => |es|
  }

  /** The position a verdict matches the blamed one with. */
  function MatchedWith(err: Option<ConfigError>): nat {
    match err
    case Some(DuplicateHost(_, p)) => p
    case Some(DuplicateVsockPort(_, p)) => p
    case Some(DuplicateLocalAddress(_, p)) => p
    case _ => 0
  }

  /** The index a verdict blames lies outside every admissible prefix. */
  lemma FaultOutsidePrefix(es: seq<Endpoint>, err: Option<ConfigError>, n: nat)
    requires Blames(es, err) && n <= |es| && PrefixAdmissible(es, n)
    ensures n <= FaultIndex(es, err)
  {
    forall q, k | 0 <= q < k < n
      ensures !SameHost(es, q, k) && !SameVsockPort(es, q, k) && !SameBind(es, q, k)
    {
      assert Distinct(es, q, k);
    }
  }

  /** Two earlier positions that match the same one would match each other. */
  lemma MatchUnique(es: seq<Endpoint>, p: nat, q: nat, i: nat)
    requires AdmissibleUpTo(es, i, p) && AdmissibleUpTo(es, i, q)
    requires || (SameHost(es, p, i) && SameHost(es, q, i))
             || (SameVsockPort(es, p, i) && SameVsockPort(es, q, i))
             || (SameBind(es, p, i) && SameBind(es, q, i))
    ensures p == q
  {
    assert !Distinct(es, p, q) && !Distinct(es, q, p);
  }

  lemma BlameUnique(es: seq<Endpoint>, e1: Option<ConfigError>, e2: Option<ConfigError>)
    requires Blames(es, e1) && Blames(es, e2)
    ensures e1 == e2
  {
    hide ValidateEndpoint, ValidEndpoint, PrefixAdmissible, SameHost, SameVsockPort, SameBind;
    FaultOutsidePrefix(es, e1, FaultIndex(es, e2));
    FaultOutsidePrefix(es, e2, FaultIndex(es, e1));
    var i, p, q := FaultIndex(es, e1), MatchedWith(e1), MatchedWith(e2);
    if AdmissibleUpTo(es, i, p) && AdmissibleUpTo(es, i, q) {
      if || (SameHost(es, p, i) && SameHost(es, q, i))
         || (SameVsockPort(es, p, i) && SameVsockPort(es, q, i))
         || (SameBind(es, p, i) && SameBind(es, q, i))
      {
        MatchUnique(es, p, q, i);
      }
    }
  }

  /** One configuration has one verdict: the first failing index, and for a
      duplicate its only earlier match. */
  lemma VerdictUnique(v: ConfigValue, mode: Mode, e1: Option<ConfigError>, e2: Option<ConfigError>)
    requires Explains(v, mode, e1) && Explains(v, mode, e2)
    ensures e1 == e2
  {
    if ShapeOk(v) && PortsOk(v, mode) {
      BlameUnique(v.endpoints.value, e1, e2);
    }
  }

  /** The configuration object, which admission completes in place. */
  class Config {
    var schemaVersion: string
    var httpPort: uint16
    var httpVsockPort: uint32
    var httpTCPPort: uint16
    var endpoints: Option<seq<Endpoint>>
    var endpointsSet: bool

    constructor (v: ConfigValue)
      ensures Value() == v
    {
      schemaVersion, httpPort, httpVsockPort := v.schemaVersion, v.httpPort, v.httpVsockPort;
      httpTCPPort, endpoints, endpointsSet := v.httpTCPPort, v.endpoints, v.endpointsSet;
    }

    function Value(): ConfigValue
      reads this
    {
      ConfigValue(schemaVersion, httpPort, httpVsockPort, httpTCPPort, endpoints, endpointsSet)
    }

    /** Fills in the schema version and the two default ports of every endpoint. */
    method Normalize()
      modifies this
      ensures Value() == Normalized(old(Value()))
      ensures Completed(old(Value()), Value())
    {
      ghost var given := Value();
      if schemaVersion == "" {
        schemaVersion := SCHEMA_VERSION;
      }
      if endpoints.Some? {
        ghost var es := endpoints.value;
        var i := 0;
        while i < |endpoints.value|
          invariant unchanged(`httpPort) && unchanged(`httpVsockPort)
          invariant unchanged(`httpTCPPort) && unchanged(`endpointsSet)
          invariant schemaVersion == Normalized(old(Value())).schemaVersion
          invariant endpoints.Some? && |endpoints.value| == |es| && i <= |es|
          invariant forall k :: 0 <= k < i ==> endpoints.value[k] == WithDefaults(es[k])
          invariant forall k :: i <= k < |es| ==> endpoints.value[k] == es[k]
          decreases |es| - i
        {
          if !endpoints.value[i].tcpPortSet {
            endpoints := Some(endpoints.value[i := endpoints.value[i].(tcpPort := DEFAULT_TCP_PORT)]);
          }
          if !endpoints.value[i].localPortSet {
            endpoints := Some(endpoints.value[i := endpoints.value[i].(localPort := DEFAULT_TCP_PORT)]);
          }
          i := i + 1;
        }
        assert endpoints.value == AllWithDefaults(es);
      }
      NormalizedCompletes(given, Value());
    }
  }

  /** Admission: normalises in place and accepts exactly the admissible configurations. */
  method ValidateConfig(cfg: Config?, mode: Mode) returns (err: Option<ConfigError>)
    modifies cfg
    ensures cfg == null ==> err == Some(NilConfig)
    ensures cfg != null ==> cfg.Value() == Normalized(old(cfg.Value()))
    ensures cfg != null ==> Completed(old(cfg.Value()), cfg.Value())
    ensures cfg != null ==> Explains(cfg.Value(), mode, err)
    ensures cfg != null ==> (err == None <==> Admissible(cfg.Value(), mode))
  {
    if cfg == null {
      return Some(NilConfig);
    }
    cfg.Normalize();
    if cfg.schemaVersion != SCHEMA_VERSION {
      return Some(UnsupportedSchema(cfg.schemaVersion));
    }
    if !cfg.endpointsSet || cfg.endpoints == None {
      return Some(EndpointsNotArray);
    }
    var es := cfg.endpoints.value;
    if |es| > MAX_ENDPOINTS {
      return Some(TooManyEndpoints(|es|));
    }
    match mode {
      case HostMode =>
        if cfg.httpPort == 0 { return Some(BadHTTPPort); }
        if cfg.httpVsockPort == 0 || cfg.httpVsockPort > 65535 { return Some(BadHTTPVsockPort); }
      case EnclaveMode =>
        if cfg.httpVsockPort == 0 || cfg.httpVsockPort > 65535 { return Some(BadHTTPVsockPort); }
        if cfg.httpTCPPort == 0 { return Some(BadHTTPTCPPort); }
      case OtherMode(name) =>
        return Some(UnknownMode(name));
    }
    err := CheckEndpoints(es);
    AcceptedIffAdmissible(cfg.Value(), mode, err);
  }

  /** Admission in numbers. */
  lemma AdmissibleInNumbers(v: ConfigValue, mode: Mode)
    ensures Admissible(v, mode) <==>
      && v.schemaVersion == "v0.1" && v.endpointsSet && v.endpoints.Some? && |v.endpoints.value| <= 191
      && 1 <= v.httpVsockPort <= 65535
      && (mode == HostMode ==> 1 <= v.httpPort) && (mode == EnclaveMode ==> 1 <= v.httpTCPPort)
      && (mode == HostMode || mode == EnclaveMode)
      && (forall k :: 0 <= k < |v.endpoints.value| ==> ValidateEndpoint(v.endpoints.value[k]) == None)
      && (forall i, j :: 0 <= i < j < |v.endpoints.value| ==> Distinct(v.endpoints.value, i, j))
  {
    hide ValidEndpoint, Distinct, ValidateEndpoint;
  }

  lemma AcceptedIffAdmissible(v: ConfigValue, mode: Mode, err: Option<ConfigError>)
    requires Explains(v, mode, err)
    ensures err == None <==> Admissible(v, mode)
  {
    hide PrefixAdmissible, Blames;
    if Admissible(v, mode) {
      VerdictUnique(v, mode, err, None);
    }
  }

  /** Admission leaves every endpoint with usable ports: what the document gave, or the
      default, and never zero. */
  lemma AdmittedPortsUsable(v: ConfigValue, mode: Mode, i: nat)
    requires Admissible(Normalized(v), mode) && i < |v.endpoints.value|
    ensures var given, ep := v.endpoints.value[i], Normalized(v).endpoints.value[i];
            && 1 <= ep.tcpPort <= 65535 && 1 <= ep.localPort <= 65535 && 1 <= ep.vsockPort <= 65535
            && (given.tcpPortSet ==> ep.tcpPort == given.tcpPort)
            && (given.localPortSet ==> ep.localPort == given.localPort)
            && ep.host == given.host && ep.vsockPort == given.vsockPort && ep.localIP == given.localIP
  {
    hide ParseIPv4, ValidHostname;
    assert ValidEndpoint(Normalized(v).endpoints.value[i]);
  }

  // ------------------------------------------------- the three duplicate maps

  ghost predicate HostMap(m: map<string, nat>, es: seq<Endpoint>, n: nat)
    requires n <= |es|
  {
    && (forall k :: 0 <= k < n ==> ToLower(es[k].host) in m)
    && (forall x :: x in m ==> m[x] < n && ToLower(es[m[x]].host) == x)
  }

  ghost predicate VsockMap(m: map<uint32, nat>, es: seq<Endpoint>, n: nat)
    requires n <= |es|
  {
    && (forall k :: 0 <= k < n ==> es[k].vsockPort in m)
    && (forall x :: x in m ==> m[x] < n && es[m[x]].vsockPort == x)
  }

  ghost predicate AddressMap(m: map<string, nat>, es: seq<Endpoint>, n: nat)
    requires n <= |es|
  {
    && (forall k :: 0 <= k < n ==> LocalKey(es[k], k) in m)
    && (forall x :: x in m ==> m[x] < n && LocalKey(es[m[x]], m[x]) == x)
  }

  lemma HostMapStep(m: map<string, nat>, es: seq<Endpoint>, n: nat)
    requires n < |es| && HostMap(m, es, n)
    ensures var key := ToLower(es[n].host);
            && HostMap(m[key := n], es, n + 1)
            && (if key in m then m[key] < n && SameHost(es, m[key], n)
                else forall q :: 0 <= q < n ==> !SameHost(es, q, n))
  {
  }

  lemma VsockMapStep(m: map<uint32, nat>, es: seq<Endpoint>, n: nat)
    requires n < |es| && VsockMap(m, es, n)
    ensures var key := es[n].vsockPort;
            && VsockMap(m[key := n], es, n + 1)
            && (if key in m then m[key] < n && SameVsockPort(es, m[key], n)
                else forall q :: 0 <= q < n ==> !SameVsockPort(es, q, n))
  {
  }

  /** The text of the key decides numeric equality of the bind addresses. */
  lemma AddressMapStep(m: map<string, nat>, es: seq<Endpoint>, n: nat)
    requires n < |es| <= MAX_ENDPOINTS && AddressMap(m, es, n)
    requires forall k :: 0 <= k <= n ==> ValidEndpoint(es[k])
    ensures var key := LocalKey(es[n], n);
            && AddressMap(m[key := n], es, n + 1)
            && (if key in m then m[key] < n && SameBind(es, m[key], n)
                else forall q :: 0 <= q < n ==> !SameBind(es, q, n))
  {
    hide ValidEndpoint, ParseIPv4, LocalIP;
    forall k | 0 <= k < n
      ensures SameBind(es, k, n) <==> LocalKey(es[k], k) == LocalKey(es[n], n)
    {
      LocalIPParses(es[k], k);
      LocalIPParses(es[n], n);
      KeyIsNumeric(LocalIP(es[k], k), es[k].localPort, LocalIP(es[n], n), es[n].localPort);
    }
  }

  lemma NothingRecorded(es: seq<Endpoint>)
    ensures PrefixAdmissible(es, 0)
    ensures HostMap(map[], es, 0) && VsockMap(map[], es, 0) && AddressMap(map[], es, 0)
    ensures PrefixAdmissible(es, |es|) ==> Blames(es, None)
  {
  }

  lemma BlameEndpoint(es: seq<Endpoint>, i: nat)
    requires i < |es| && PrefixAdmissible(es, i)
    ensures match ValidateEndpoint(es[i])
            case Some(reason) => Blames(es, Some(BadEndpoint(i, reason)))
            case None => forall k :: 0 <= k <= i ==> ValidEndpoint(es[k])
  {
  }

  lemma BlameDuplicate(es: seq<Endpoint>, i: nat)
    requires i < |es| && PrefixAdmissible(es, i) && ValidEndpoint(es[i])
    ensures forall p: nat :: p < i && SameHost(es, p, i) ==> Blames(es, Some(DuplicateHost(i, p)))
    ensures (forall q :: 0 <= q < i ==> !SameHost(es, q, i)) ==>
      forall p: nat :: p < i && SameVsockPort(es, p, i) ==> Blames(es, Some(DuplicateVsockPort(i, p)))
    ensures (forall q :: 0 <= q < i ==> !SameHost(es, q, i) && !SameVsockPort(es, q, i)) ==>
      forall p: nat :: p < i && SameBind(es, p, i) ==> Blames(es, Some(DuplicateLocalAddress(i, p)))
  {
  }

  lemma PrefixGrows(es: seq<Endpoint>, n: nat)
    requires n < |es| && PrefixAdmissible(es, n) && ValidEndpoint(es[n])
    requires forall q :: 0 <= q < n ==> !SameHost(es, q, n) && !SameVsockPort(es, q, n) && !SameBind(es, q, n)
    ensures PrefixAdmissible(es, n + 1)
  {
    assert forall q :: 0 <= q < n ==> Distinct(es, q, n);
  }

  /** The duplicate-detection loop over three maps keyed by folded host, VSOCK port
      and bind address text. */
  method CheckEndpoints(es: seq<Endpoint>) returns (err: Option<ConfigError>)
    requires |es| <= MAX_ENDPOINTS
    ensures Blames(es, err)
  {
    hide *;
    NothingRecorded(es);
    var hosts: map<string, nat> := map[];
    var vsockPorts: map<uint32, nat> := map[];
    var localAddrs: map<string, nat> := map[];
    var i := 0;
    while i < |es|
      invariant i <= |es|
      invariant PrefixAdmissible(es, i)
      invariant HostMap(hosts, es, i) && VsockMap(vsockPorts, es, i) && AddressMap(localAddrs, es, i)
    {
      BlameEndpoint(es, i);
      var bad := ValidateEndpoint(es[i]);
      if bad.Some? {
        return Some(BadEndpoint(i, bad.value));
      }

      HostMapStep(hosts, es, i);
      BlameDuplicate(es, i);
      var hostKey := ToLower(es[i].host);
      if hostKey in hosts {
        return Some(DuplicateHost(i, hosts[hostKey]));
      }
      hosts := hosts[hostKey := i];

      VsockMapStep(vsockPorts, es, i);
      if es[i].vsockPort in vsockPorts {
        return Some(DuplicateVsockPort(i, vsockPorts[es[i].vsockPort]));
      }
      vsockPorts := vsockPorts[es[i].vsockPort := i];

      AddressMapStep(localAddrs, es, i);
      var localAddr := LocalKey(es[i], i);
      if localAddr in localAddrs {
        return Some(DuplicateLocalAddress(i, localAddrs[localAddr]));
      }
      localAddrs := localAddrs[localAddr := i];
      PrefixGrows(es, i);
      i := i + 1;
    }
    return None;
  }
}

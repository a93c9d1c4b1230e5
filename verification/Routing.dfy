/** The path of an outbound connection: a name looked up in the merged hosts file, the
    enclave listener bound to that address, its VSOCK port on the parent, and the host
    listener on that port (main.go, hosts.go, config.go together). */
module Routing {
  import opened Text
  import opened Ipv4
  import opened Configs
  import opened Hosts

  // ------------------------------------------------------------ hosts-file lookup

  /** The fields of a hosts line, comments removed: an address, then its names. */
  function LineFields(line: string): seq<string> {
    Fields(Split(line, '#')[0])
  }

  predicate Names(line: string, name: string) {
    var f := LineFields(line);
    exists k :: 1 <= k < |f| && ToLower(f[k]) == ToLower(name)
  }

  function LookupLines(lines: seq<string>, name: string): Option<string> {
    if lines == [] then None
    else if Names(lines[0], name) then Some(LineFields(lines[0])[0])
    else LookupLines(lines[1..], name)
  }

  /** The address on the first line that names `name`, ignoring case. */
  function Lookup(text: string, name: string): Option<string> {
    LookupLines(Split(text, '\n'), name)
  }

  function Either(x: Option<string>, y: Option<string>): Option<string> {
    if x.Some? then x else y
  }

  lemma {:induction false} LookupConcat(xs: seq<string>, ys: seq<string>, name: string)
    ensures LookupLines(xs + ys, name) == Either(LookupLines(xs, name), LookupLines(ys, name))
  {
    hide Names, LineFields;
    if xs == [] {
      assert xs + ys == ys;
    } else {
      assert (xs + ys)[1..] == xs[1..] + ys;
      LookupConcat(xs[1..], ys, name);
    }
  }

  lemma CommentLine(line: string, name: string)
    requires line == "" || line[0] == '#'
    ensures LineFields(line) == [] && !Names(line, name)
  {
    hide Fields;
    NoFields();
    SplitNone("", '#');
    if line != "" {
      SplitAtFirst("", line[1..], '#');
      assert line == "" + ['#'] + line[1..];
    }
  }

  lemma EntryLine(es: seq<Endpoint>, k: nat, name: string)
    requires k < |es| && ValidEndpoint(es[k])
    ensures LineFields(Entry(es, k)) == [LocalIP(es[k], k), es[k].host]
    ensures Names(Entry(es, k), name) <==> ToLower(es[k].host) == ToLower(name)
  {
    hide ValidEndpoint, Fields, LocalIP, Entry, ToLower;
    EntryAlphabet(es, k);
    SplitNone(Entry(es, k), '#');
    EntryFields(es, k);
    var f := LineFields(Entry(es, k));
    assert f[1] == es[k].host;
  }

  /** The first endpoint from position `k` on that has this name, ignoring case. */
  function FirstNamed(es: seq<Endpoint>, k: nat, name: string): Option<nat>
    requires k <= |es|
    decreases |es| - k
  {
    if k == |es| then None
    else if ToLower(es[k].host) == ToLower(name) then Some(k)
    else FirstNamed(es, k + 1, name)
  }

  function AddressOf(es: seq<Endpoint>, k: Option<nat>): Option<string> {
    if k.Some? && k.value < |es| then Some(LocalIP(es[k.value], k.value)) else None
  }

  lemma {:induction false} LookupEntries(es: seq<Endpoint>, k: nat, name: string)
    requires k <= |es| && AllValid(es)
    ensures LookupLines(EntryLines(es, k), name) == AddressOf(es, FirstNamed(es, k, name))
    decreases |es| - k
  {
    hide ValidEndpoint, Entry, LocalIP, Names, LineFields;
    if k < |es| {
      EntryLine(es, k, name);
      LookupEntries(es, k + 1, name);
      assert EntryLines(es, k) == [Entry(es, k)] + EntryLines(es, k + 1);
    }
  }

  /** Looking a name up in a merged file: the kept lines come first, then the endpoint
      that has the name. */
  lemma LookupOfMerge(text: string, es: seq<Endpoint>, name: string)
    requires AllValid(es)
    ensures Lookup(Merge(text, es), name)
         == Either(Lookup(Base(text), name), AddressOf(es, FirstNamed(es, 0, name)))
  {
    hide ValidEndpoint, Names, LineFields, Merge, Base, FirstNamed, AddressOf;
    MergedLines(text, es);
    var base, entries := Split(Base(text), '\n'), EntryLines(es, 0);
    CommentLine("", name);
    MarkerShape();
    CommentLine(BEGIN, name);
    CommentLine(END, name);
    assert LookupLines([""], name) == LookupLines([BEGIN], name) == LookupLines([END], name) == None;
    LookupConcat([""], [BEGIN], name);
    LookupConcat([END], [""], name);
    assert [""] + [BEGIN] == ["", BEGIN] && [END] + [""] == [END, ""];
    LookupEntries(es, 0, name);
    LookupConcat(base + ["", BEGIN] + entries, [END, ""], name);
    LookupConcat(base + ["", BEGIN], entries, name);
    LookupConcat(base, ["", BEGIN], name);
  }

  // -------------------------------------------------------------------- listeners

  /** An enclave listener: connections to `ip:port` go to `vsockPort` on the parent. */
  datatype EnclaveListener = EnclaveListener(ip: string, port: uint16, vsockPort: uint32)

  /** A host listener: VSOCK connections to `vsockPort` go to `host:tcpPort`. */
  datatype HostListener = HostListener(vsockPort: uint32, host: string, tcpPort: uint16)

  function EnclaveListeners(es: seq<Endpoint>): seq<EnclaveListener> {
    seq(|es|, i requires 0 <= i < |es| =>
      EnclaveListener(LocalIP(es[i], i), es[i].localPort, es[i].vsockPort))
  }

  function HostListeners(es: seq<Endpoint>): seq<HostListener> {
    seq(|es|, i requires 0 <= i < |es| =>
      HostListener(es[i].vsockPort, es[i].host, es[i].tcpPort))
  }

  predicate Accepts(l: EnclaveListener, ip: string, port: uint16) {
    ParseIPv4(ip).Some? && ParseIPv4(l.ip) == ParseIPv4(ip) && l.port == port
  }

  /** Some chain of listeners takes a connection to `name:port` on to `host:tcpPort`. */
  ghost predicate Reaches(
    text: string, enclave: seq<EnclaveListener>, parent: seq<HostListener>,
    name: string, port: uint16, host: string, tcpPort: uint16)
  {
    && Lookup(text, name).Some?
    && (exists l, h :: l in enclave && h in parent
          && Accepts(l, Lookup(text, name).value, port)
          && h == HostListener(l.vsockPort, host, tcpPort))
  }

  lemma {:induction false} FirstNamedIs(es: seq<Endpoint>, k: nat, i: nat, name: string)
    requires k <= i < |es| && ToLower(es[i].host) == ToLower(name)
    requires PrefixAdmissible(es, |es|)
    ensures FirstNamed(es, k, name) == Some(i)
    decreases i - k
  {
    hide ValidEndpoint, ToLower;
    if k < i {
      assert Distinct(es, k, i);
      FirstNamedIs(es, k + 1, i, name);
    }
  }

  /** No two enclave listeners bind the same address, no two host listeners the same port. */
  lemma OneListenerEach(es: seq<Endpoint>, i: nat, k: nat)
    requires i < |es| <= MAX_ENDPOINTS && k < |es| && PrefixAdmissible(es, |es|)
    ensures Accepts(EnclaveListeners(es)[k], LocalIP(es[i], i), es[i].localPort) <==> k == i
    ensures es[k].vsockPort == es[i].vsockPort <==> k == i
  {
    hide ValidEndpoint, ParseIPv4, LocalIP, ToLower;
    assert ParseIPv4(LocalIP(es[i], i)).Some? by { LocalIPParses(es[i], i); }
    if k < i {
      assert Distinct(es, k, i);
    } else if i < k {
      assert Distinct(es, i, k);
    }
  }

  /** End to end: for a configuration admitted in both modes, a connection to endpoint
      `i`'s name, in any case, on its local port reaches exactly the host and port of
      that endpoint, provided no kept hosts line names it. */
  lemma EndToEnd(v: ConfigValue, text: string, i: nat, name: string)
    requires Admissible(v, HostMode) && Admissible(v, EnclaveMode)
    requires i < |v.endpoints.value|
    requires ToLower(name) == ToLower(v.endpoints.value[i].host)
    requires Lookup(Base(text), name) == None
    ensures var es := v.endpoints.value;
            forall host, tcpPort ::
              Reaches(Merge(text, es), EnclaveListeners(es), HostListeners(es),
                name, es[i].localPort, host, tcpPort)
              <==> host == es[i].host && tcpPort == es[i].tcpPort
  {
    hide ValidEndpoint, LocalIP, ToLower, Lookup, Merge, Base, FirstNamed, Accepts, Distinct;
    var es := v.endpoints.value;
    LookupOfMerge(text, es, name);
    FirstNamedIs(es, 0, i, name);
    var merged, ls, hs := Merge(text, es), EnclaveListeners(es), HostListeners(es);
    var ip := LocalIP(es[i], i);
    assert Lookup(merged, name) == Some(ip);
    forall k | 0 <= k < |es|
      ensures Accepts(ls[k], ip, es[i].localPort) <==> k == i
      ensures hs[k].vsockPort == es[i].vsockPort <==> k == i
    {
      OneListenerEach(es, i, k);
    }
    forall host, tcpPort | host == es[i].host && tcpPort == es[i].tcpPort
      ensures Reaches(merged, ls, hs, name, es[i].localPort, host, tcpPort)
    {
      assert ls[i] in ls && hs[i] in hs;
    }
  }
}

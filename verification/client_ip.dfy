/** `GetIP`: picks the originating client address of a request from the
    `X-Real-IP` header, else the first parseable entry of the
    `X-Forward-For` header, else the host part of the connection's remote
    address.

    The two library calls it makes are parameters:
    - `validIP(s)` stands for `net.ParseIP(s) != nil`;
    - `hostOf(a)` stands for the host returned by `net.SplitHostPort(a)`,
      `None` when that call returns an error. */
module ClientIP {
  import opened Optional
  import opened Header
  import GoStrings

  /** `Header.Get` canonicalises the key it is given, so the lookups of
      "X-Real-IP" and "X-Forward-For" read these keys. The second is not the
      conventional "X-Forwarded-For". */
  const RealIPKey: string := "X-Real-Ip"
  const ForwardKey: string := "X-Forward-For"
  const ForwardedKey: string := "X-Forwarded-For"

  /** The separator between entries of the forwarding header. */
  const EntrySeparator: char := ','

  /** Why no address was found: `SplitHostPort` refused the remote address,
      or its host part did not parse. */
  datatype IPError = AddrError | NoValidIP

  /** The `(string, error)` pair GetIP returns. */
  datatype IPResult = IPResult(ip: string, err: Option<IPError>)

  /** The parts of a request GetIP reads. */
  datatype Request = Request(header: Headers, remoteAddr: string)

  /** `net.ParseIP("")` is nil. */
  predicate RejectsEmpty(validIP: string -> bool)
  {
    !validIP("")
  }

  /** `net.SplitHostPort` fails on an address without a ':'. */
  ghost predicate NeedsPortSeparator(hostOf: string -> Option<string>)
  {
    forall a :: ':' !in a ==> hostOf(a) == None
  }

  /** The entries of the forwarding header, untrimmed. */
  function Entries(forwardFor: string): seq<string>
  {
    GoStrings.Split(forwardFor, EntrySeparator)
  }

  /** Index of the first entry that parses as an address, scanning left to
      right. */
  function FirstValid(entries: seq<string>, validIP: string -> bool): (r: Option<nat>)
    ensures r.Some? ==> r.value < |entries| && validIP(entries[r.value])
    ensures r.Some? ==> forall j :: 0 <= j < r.value ==> !validIP(entries[j])
    ensures r.None? <==> forall j :: 0 <= j < |entries| ==> !validIP(entries[j])
  {
    if |entries| == 0 then None
    else if validIP(entries[0]) then Some(0)
    else
      match FirstValid(entries[1..], validIP)
      case None => None
      case Some(i) => Some(i + 1)
  }

  /** The last resort: the host part of the remote address. */
  function FromRemoteAddr(remoteAddr: string, validIP: string -> bool,
                          hostOf: string -> Option<string>): (r: IPResult)
    ensures r.err.None? ==> validIP(r.ip) && hostOf(remoteAddr) == Some(r.ip)
    ensures r.err.Some? ==> r.ip == ""
    ensures r.err == Some(AddrError) <==> hostOf(remoteAddr).None?
  {
    match hostOf(remoteAddr)
    case None => IPResult("", Some(AddrError))
    case Some(host) =>
      if validIP(host) then IPResult(host, None) else IPResult("", Some(NoValidIP))
  }

  /** GetIP over the three strings it reads. */
  function SelectIP(realIP: string, forwardFor: string, remoteAddr: string,
                    validIP: string -> bool, hostOf: string -> Option<string>): (r: IPResult)
    ensures r.err.None? ==> validIP(r.ip)
    ensures r.err.Some? ==> r.ip == ""
    ensures r.err.None? ==>
              r.ip == realIP || r.ip in Entries(forwardFor) || hostOf(remoteAddr) == Some(r.ip)
  {
    if validIP(realIP) then IPResult(realIP, None)
    else
      var entries := Entries(forwardFor);
      match FirstValid(entries, validIP)
      case Some(i) => IPResult(entries[i], None)
      case None => FromRemoteAddr(remoteAddr, validIP, hostOf)
  }

  /** GetIP on a request. */
  function GetIP(r: Request, validIP: string -> bool,
                 hostOf: string -> Option<string>): (res: IPResult)
    ensures res.err.None? ==> validIP(res.ip)
    ensures res.err.Some? ==> res.ip == ""
  {
    SelectIP(Get(r.header, RealIPKey), Get(r.header, ForwardKey), r.remoteAddr, validIP, hostOf)
  }

  /** A parseable X-Real-IP value wins, verbatim, whatever else the
      request holds. */
  lemma RealIPFirst(realIP: string, forwardFor: string, remoteAddr: string,
                    validIP: string -> bool, hostOf: string -> Option<string>)
    requires validIP(realIP)
    ensures SelectIP(realIP, forwardFor, remoteAddr, validIP, hostOf) == IPResult(realIP, None)
  {
  }

  /** Without a usable X-Real-IP, the first parseable forwarding entry is
      the answer, exactly as it stands between the commas. */
  lemma ForwardedFirstValid(realIP: string, forwardFor: string, remoteAddr: string,
                            validIP: string -> bool, hostOf: string -> Option<string>, i: nat)
    requires !validIP(realIP)
    requires i < |Entries(forwardFor)| && validIP(Entries(forwardFor)[i])
    requires forall j :: 0 <= j < i ==> !validIP(Entries(forwardFor)[j])
    ensures SelectIP(realIP, forwardFor, remoteAddr, validIP, hostOf)
            == IPResult(Entries(forwardFor)[i], None)
  {
  }

  /** With neither header usable, the remote address decides. */
  lemma FallsBackToRemoteAddr(realIP: string, forwardFor: string, remoteAddr: string,
                              validIP: string -> bool, hostOf: string -> Option<string>)
    requires !validIP(realIP)
    requires forall j :: 0 <= j < |Entries(forwardFor)| ==> !validIP(Entries(forwardFor)[j])
    ensures SelectIP(realIP, forwardFor, remoteAddr, validIP, hostOf)
            == FromRemoteAddr(remoteAddr, validIP, hostOf)
  {
  }

  /** An empty forwarding header is one empty entry, which does not parse,
      so it falls through to the remote address. */
  lemma EmptyForwardFallsThrough(realIP: string, remoteAddr: string,
                                 validIP: string -> bool, hostOf: string -> Option<string>)
    requires RejectsEmpty(validIP)
    requires !validIP(realIP)
    ensures SelectIP(realIP, "", remoteAddr, validIP, hostOf)
            == FromRemoteAddr(remoteAddr, validIP, hostOf)
  {
  }

  /** A remote address without a port separator yields "" and an error. */
  lemma NoPortSeparatorFails(remoteAddr: string, validIP: string -> bool,
                             hostOf: string -> Option<string>)
    requires NeedsPortSeparator(hostOf)
    requires ':' !in remoteAddr
    ensures FromRemoteAddr(remoteAddr, validIP, hostOf) == IPResult("", Some(AddrError))
  {
  }

  /** When SplitHostPort succeeds, its host part is the answer if it parses
      and otherwise the lookup fails with "no valid ip found". */
  lemma RemoteHostDecides(remoteAddr: string, host: string, validIP: string -> bool,
                          hostOf: string -> Option<string>)
    requires hostOf(remoteAddr) == Some(host)
    ensures validIP(host) ==> FromRemoteAddr(remoteAddr, validIP, hostOf) == IPResult(host, None)
    ensures !validIP(host) ==>
              FromRemoteAddr(remoteAddr, validIP, hostOf) == IPResult("", Some(NoValidIP))
  {
  }

  /** GetIP finds an address exactly when one of the three sources offers a
      parseable one. */
  lemma SucceedsIff(realIP: string, forwardFor: string, remoteAddr: string,
                    validIP: string -> bool, hostOf: string -> Option<string>)
    ensures SelectIP(realIP, forwardFor, remoteAddr, validIP, hostOf).err.None?
            <==> (|| validIP(realIP)
                  || (exists j :: 0 <= j < |Entries(forwardFor)| && validIP(Entries(forwardFor)[j]))
                  || (hostOf(remoteAddr).Some? && validIP(hostOf(remoteAddr).value)))
  {
  }

  /** A header spelt the conventional way, "X-Forwarded-For", is never
      consulted. */
  lemma ConventionalSpellingIgnored(r: Request, v: seq<string>, validIP: string -> bool,
                                    hostOf: string -> Option<string>)
    ensures GetIP(Request(r.header[ForwardedKey := v], r.remoteAddr), validIP, hostOf)
            == GetIP(r, validIP, hostOf)
  {
  }

  /** A request carrying only an X-Real-IP header resolves to it. */
  lemma RealIPExample(validIP: string -> bool, hostOf: string -> Option<string>)
    requires validIP("203.0.113.5")
    ensures GetIP(Request(map[RealIPKey := ["203.0.113.5"]], "192.0.2.1:54321"), validIP, hostOf)
            == IPResult("203.0.113.5", None)
  {
  }

  /** The forwarding chain "198.51.100.9, 10.0.0.1" splits into two entries,
      the second keeping its leading space, and resolves to the first. */
  lemma ForwardChainExample(validIP: string -> bool, hostOf: string -> Option<string>)
    requires RejectsEmpty(validIP)
    requires validIP("198.51.100.9")
    ensures Entries("198.51.100.9, 10.0.0.1") == ["198.51.100.9", " 10.0.0.1"]
    ensures GetIP(Request(map[ForwardKey := ["198.51.100.9, 10.0.0.1"]], "192.0.2.1:54321"),
                  validIP, hostOf)
            == IPResult("198.51.100.9", None)
  {
    var parts := ["198.51.100.9", " 10.0.0.1"];
    assert GoStrings.Join(parts, EntrySeparator) == "198.51.100.9, 10.0.0.1";
    GoStrings.SplitJoin(parts, EntrySeparator);
    GoStrings.SplitEmpty(EntrySeparator);
    ForwardedFirstValid("", "198.51.100.9, 10.0.0.1", "192.0.2.1:54321", validIP, hostOf, 0);
  }

  /** Without either header the host part of the remote address is used. */
  lemma RemoteAddrExample(validIP: string -> bool, hostOf: string -> Option<string>)
    requires RejectsEmpty(validIP)
    requires hostOf("192.0.2.1:54321") == Some("192.0.2.1") && validIP("192.0.2.1")
    ensures GetIP(Request(map[], "192.0.2.1:54321"), validIP, hostOf)
            == IPResult("192.0.2.1", None)
  {
  }

  /** Without either header, a remote address lacking a port fails. */
  lemma MalformedRemoteAddrExample(validIP: string -> bool, hostOf: string -> Option<string>)
    requires RejectsEmpty(validIP)
    requires NeedsPortSeparator(hostOf)
    ensures GetIP(Request(map[], "192.0.2.1"), validIP, hostOf) == IPResult("", Some(AddrError))
  {
  }

  /** GetIP reads only the first value of each header it consults: values
      added after an existing one change nothing. */
  lemma GetIPReadsFirstValues(r: Request, extraReal: seq<string>, extraForward: seq<string>,
                              validIP: string -> bool, hostOf: string -> Option<string>)
    requires |Values(r.header, RealIPKey)| > 0 && |Values(r.header, ForwardKey)| > 0
    ensures GetIP(Request(AddAll(AddAll(r.header, RealIPKey, extraReal), ForwardKey, extraForward),
                          r.remoteAddr), validIP, hostOf)
            == GetIP(r, validIP, hostOf)
  {
  }
}

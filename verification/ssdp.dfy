/** SSDP text handling of `UPnPDiscovery`: the M-SEARCH request (section
    1.3.2 of UPnP Device Architecture 1.1), the header parser, the
    within-scan de-duplication and the guarded description fetch of
    `enrich_device_info`. A UPnP device is a `dict` of strings; dictionary
    equality ignores order, so it is a `map` here. */
module Ssdp {
  import opened Common

  type Device = map<string, string>

  const Crlf: string := "\r\n"

  // ---------------------------------------------------------------------
  // The M-SEARCH request
  // ---------------------------------------------------------------------

  /** A header line `key:value`. */
  function HeaderText(key: string, value: string): string {
    key + ":" + value
  }

  /** The multicast group and port, as the HOST value. */
  const MulticastGroup: string := "239.255.255.250:1900"
  const SsdpDiscover: string := "\"ssdp:discover\""

  /** The request lines, before joining with CRLF. */
  function MSearchLines(host: string, man: string, mx: int, st: string): seq<string> {
    ["M-SEARCH * HTTP/1.1",
     HeaderText("HOST", host),
     HeaderText("MAN", man),
     HeaderText("MX", IntToString(mx)),
     HeaderText("ST", st),
     "", ""]
  }

  /** The request `discover` sends: five lines, each ended by CRLF, then an
      empty line. */
  function MSearch(mx: int, st: string): (r: string)
    ensures r == "M-SEARCH * HTTP/1.1" + Crlf
      + HeaderText("HOST", "239.255.255.250:1900") + Crlf
      + HeaderText("MAN", "\"ssdp:discover\"") + Crlf
      + HeaderText("MX", IntToString(mx)) + Crlf
      + HeaderText("ST", st) + Crlf + Crlf
  {
    var lines := MSearchLines(MulticastGroup, SsdpDiscover, mx, st);
    JoinUnfold7(lines, Crlf);
    assert lines[5] == "" && lines[6] == "";
    Join(lines, Crlf)
  }

  lemma JoinUnfold7(p: seq<string>, sep: string)
    requires |p| == 7
    ensures Join(p, sep) == p[0] + sep + p[1] + sep + p[2] + sep + p[3] + sep + p[4] + sep + p[5] + sep + p[6]
  {
    var q := p[1..];
    var q2 := q[1..];
    var q3 := q2[1..];
    var q4 := q3[1..];
    var q5 := q4[1..];
    var q6 := q5[1..];
    assert Join(q6, sep) == p[6];
    assert Join(q5, sep) == p[5] + sep + p[6];
    assert Join(q4, sep) == p[4] + sep + (p[5] + sep + p[6]);
    assert Join(q3, sep) == p[3] + sep + (p[4] + sep + (p[5] + sep + p[6]));
    assert Join(q2, sep) == p[2] + sep + (p[3] + sep + (p[4] + sep + (p[5] + sep + p[6])));
    assert Join(q, sep) == p[1] + sep + (p[2] + sep + (p[3] + sep + (p[4] + sep + (p[5] + sep + p[6]))));
  }

  // ---------------------------------------------------------------------
  // Header parsing
  // ---------------------------------------------------------------------

  /** The header a line contributes: text before the first `:`, stripped
      and upper-cased, and the rest, stripped; `None` without a `:`. */
  function HeaderOf(line: string): (r: Option<(string, string)>)
    ensures r.None? <==> ':' !in line
  {
    match IndexOfChar(line, ':')
    case None => None
    case Some(i) => Some((Upper(Strip(line[..i])), Strip(line[i + 1..])))
  }

  /** The header each line contributes, in order. */
  function HeadersOfLines(lines: seq<string>): (r: seq<Option<(string, string)>>)
    ensures |r| == |lines|
    ensures forall j :: 0 <= j < |r| ==> r[j] == HeaderOf(lines[j])
  {
    seq(|lines|, j requires 0 <= j < |lines| => HeaderOf(lines[j]))
  }

  /** One pass of the loop: `device[key] = value` for a line with a `:`. */
  function Add(m: Device, h: Option<(string, string)>): Device {
    match h
    case None => m
    case Some((k, v)) => m[k := v]
  }

  /** The loop of `parse_response` over the headers of the lines. */
  function Collect(hs: seq<Option<(string, string)>>): Device
    decreases |hs|
  {
    if |hs| == 0 then map[] else Add(Collect(hs[..|hs| - 1]), hs[|hs| - 1])
  }

  /** `parse_response`. */
  function ParseResponse(response: string): Device {
    Collect(HeadersOfLines(SplitOn(response, Crlf)))
  }

  /** The header `h` has key `k`. */
  predicate HasKey(h: Option<(string, string)>, k: string) {
    h.Some? && h.value.0 == k
  }

  /** A key is present exactly when some header gives it. */
  lemma {:induction false} CollectKeys(hs: seq<Option<(string, string)>>, k: string)
    ensures k in Collect(hs) <==> exists j :: 0 <= j < |hs| && HasKey(hs[j], k)
    decreases |hs|
  {
    if |hs| > 0 {
      var init := hs[..|hs| - 1];
      CollectKeys(init, k);
      if exists j :: 0 <= j < |init| && HasKey(init[j], k) {
        var j :| 0 <= j < |init| && HasKey(init[j], k);
        assert hs[j] == init[j];
      }
      if exists j :: 0 <= j < |hs| && HasKey(hs[j], k) {
        var j :| 0 <= j < |hs| && HasKey(hs[j], k);
        if j < |init| { assert init[j] == hs[j]; }
      }
    }
  }

  /** The value kept for a key is that of the last header giving it. */
  lemma {:induction false} LastHeaderWins(hs: seq<Option<(string, string)>>, j: nat)
    requires j < |hs| && hs[j].Some?
    requires forall l :: j < l < |hs| ==> !HasKey(hs[l], hs[j].value.0)
    ensures hs[j].value.0 in Collect(hs) && Collect(hs)[hs[j].value.0] == hs[j].value.1
    decreases |hs|
  {
    if j < |hs| - 1 {
      var init := hs[..|hs| - 1];
      assert init[j] == hs[j];
      LastHeaderWins(init, j);
    }
  }

  /** For a response: a key is present exactly when some line with a `:`
      gives it. */
  lemma ResponseHeaders(response: string, lines: seq<string>, k: string)
    requires lines == SplitOn(response, Crlf)
    ensures k in ParseResponse(response) <==> exists j :: 0 <= j < |lines| && HasKey(HeaderOf(lines[j]), k)
  {
    LinesHeaders(lines, k);
  }

  lemma LinesHeaders(lines: seq<string>, k: string)
    ensures k in Collect(HeadersOfLines(lines)) <==> exists j :: 0 <= j < |lines| && HasKey(HeaderOf(lines[j]), k)
  {
    var hs := HeadersOfLines(lines);
    CollectKeys(hs, k);
    if exists j :: 0 <= j < |lines| && HasKey(HeaderOf(lines[j]), k) {
      var j :| 0 <= j < |lines| && HasKey(HeaderOf(lines[j]), k);
      assert HasKey(hs[j], k);
    }
  }

  /** For a response: the value kept for a key is that of the last line
      giving it. */
  lemma LastLineWins(response: string, lines: seq<string>, j: nat)
    requires lines == SplitOn(response, Crlf)
    requires j < |lines| && HeaderOf(lines[j]).Some?
    requires forall l :: j < l < |lines| ==> !HasKey(HeaderOf(lines[l]), HeaderOf(lines[j]).value.0)
    ensures HeaderOf(lines[j]).value.0 in ParseResponse(response)
    ensures ParseResponse(response)[HeaderOf(lines[j]).value.0] == HeaderOf(lines[j]).value.1
  {
    var hs := HeadersOfLines(lines);
    assert forall l :: j < l < |hs| ==> !HasKey(hs[l], hs[j].value.0);
    LastHeaderWins(hs, j);
  }

  /** The split is at the first `:` only: the value keeps any later colon,
      so a `LOCATION` URL survives whole. */
  lemma FirstColonSplit(key: string, value: string)
    requires ':' !in key
    ensures HeaderOf(key + ":" + value) == Some((Upper(Strip(key)), Strip(value)))
  {
    var line := key + ":" + value;
    assert line[|key|] == ':';
    assert line[..|key|] == key;
    assert line[|key| + 1..] == value;
    assert forall c :: c in line[..|key|] ==> c in key;
  }

  // ---------------------------------------------------------------------
  // Reading the M-SEARCH back
  // ---------------------------------------------------------------------

  /** Splitting text joined with CRLF recovers the parts when none holds a
      carriage return. */
  lemma {:induction false} SplitJoinCrlf(parts: seq<string>)
    requires |parts| >= 1
    requires forall k :: 0 <= k < |parts| ==> '\r' !in parts[k]
    ensures SplitOn(Join(parts, Crlf), Crlf) == parts
    decreases |parts|
  {
    if |parts| > 1 {
      SplitJoinCrlf(parts[1..]);
      SplitHead(parts[0], Join(parts[1..], Crlf));
      assert parts == [parts[0]] + parts[1..];
    } else {
      CrlfStartsWithReturn(parts[0]);
    }
  }

  /** The first CRLF ends the first piece when that piece has no carriage
      return. */
  lemma SplitHead(head: string, rest: string)
    requires '\r' !in head
    ensures SplitOn(head + Crlf + rest, Crlf) == [head] + SplitOn(rest, Crlf)
  {
    var s := head + Crlf + rest;
    assert s[|head|..|head| + 2] == Crlf;
    forall j | 0 <= j < |head| ensures !OccursAt(s, Crlf, j) {
      assert s[j] == head[j];
    }
    IndexOfFirst(s, Crlf, |head|);
    SplitOnUnfold(s, Crlf, |head|);
    assert s[..|head|] == head;
    assert s[|head| + 2..] == rest;
  }

  lemma CrlfStartsWithReturn(s: string)
    ensures forall i :: 0 <= i <= |s| && OccursAt(s, Crlf, i) ==> s[i] == '\r'
  {
    forall i | 0 <= i <= |s| && OccursAt(s, Crlf, i) ensures s[i] == '\r' {
      assert s[i..i + 2][0] == s[i];
    }
  }

  /** The headers a device reads from the request: the request line has no
      `:` and is ignored; every other line gives its header. */
  lemma MSearchParses(mx: int, st: string)
    requires '\r' !in st
    ensures ParseResponse(MSearch(mx, st)) ==
      map["HOST" := "239.255.255.250:1900", "MAN" := "\"ssdp:discover\"",
          "MX" := IntToString(mx), "ST" := Strip(st)]
  {
    RequestParses(MulticastGroup, SsdpDiscover, mx, st);
  }

  /** The same for any one-word HOST and MAN values. */
  lemma RequestParses(host: string, man: string, mx: int, st: string)
    requires PlainText(host) && PlainText(man) && '\r' !in st
    ensures ParseResponse(Join(MSearchLines(host, man, mx, st), Crlf)) ==
      map["HOST" := host, "MAN" := man, "MX" := IntToString(mx), "ST" := Strip(st)]
  {
    var lines := MSearchLines(host, man, mx, st);
    IntToStringShape(mx);
    MSearchLinesShape(host, man, mx, st, lines);
    SplitJoinCrlf(lines);
    var hs := HeadersOfLines(lines);
    RequestLineIgnored(lines[0]);
    RequestKeys("HOST", "MAN", "MX", "ST");
    NoSpaceStrip(host);
    NoSpaceStrip(man);
    HeaderList(lines, hs, "HOST", "MAN", "MX", "ST", host, man, IntToString(mx), st);
    CollectSeven(hs);
  }

  /** Text with no carriage return and nothing for `strip` to remove. */
  predicate PlainText(s: string) {
    |s| > 0 && '\r' !in s && !IsSpace(s[0]) && !IsSpace(s[|s| - 1])
  }

  lemma MSearchLinesShape(host: string, man: string, mx: int, st: string, lines: seq<string>)
    requires lines == MSearchLines(host, man, mx, st)
    requires '\r' !in host && '\r' !in man && '\r' !in st && '\r' !in IntToString(mx)
    ensures |lines| == 7
    ensures forall k :: 0 <= k < |lines| ==> '\r' !in lines[k]
  {
  }

  /** `str(n)` is one word: no carriage return, no surrounding blanks. */
  lemma IntToStringShape(n: int)
    ensures PlainText(IntToString(n))
    ensures Strip(IntToString(n)) == IntToString(n)
  {
    var s := IntToString(n);
    assert forall i :: 0 <= i < |s| ==> s[i] == '-' || IsDigit(s[i]);
    NoSpaceStrip(s);
  }

  /** A header line whose key is upper-case letters. */
  lemma HeaderLine(key: string, value: string)
    requires IsUpperWord(key)
    ensures HeaderOf(HeaderText(key, value)) == Some((key, Strip(value)))
  {
    UpperWord(key);
    UpperWordStrip(key);
    FirstColonSplit(key, value);
  }

  /** Upper-case letters: no colon, and `upper()` changes nothing. */
  predicate IsUpperWord(key: string) {
    |key| > 0 && forall i :: 0 <= i < |key| ==> 'A' <= key[i] <= 'Z'
  }

  /** The four request header names are upper-case words. */
  lemma RequestKeys(host: string, man: string, mx: string, st: string)
    requires host == "HOST" && man == "MAN" && mx == "MX" && st == "ST"
    ensures IsUpperWord(host) && IsUpperWord(man) && IsUpperWord(mx) && IsUpperWord(st)
  {
  }

  lemma UpperWord(key: string)
    requires IsUpperWord(key)
    ensures ':' !in key && Upper(key) == key
  {
  }

  lemma UpperWordStrip(key: string)
    requires IsUpperWord(key)
    ensures Strip(key) == key
  {
    NoSpaceStrip(key);
  }

  /** Seven lines: a request line without `:`, four header lines with
      upper-case names, two empty lines. */
  lemma HeaderList(lines: seq<string>, hs: seq<Option<(string, string)>>,
                   k1: string, k2: string, k3: string, k4: string,
                   v1: string, v2: string, v3: string, v4: string)
    requires |lines| == 7 && HeaderOf(lines[0]).None? && lines[5] == "" && lines[6] == ""
    requires lines[1] == HeaderText(k1, v1) && lines[2] == HeaderText(k2, v2)
    requires lines[3] == HeaderText(k3, v3) && lines[4] == HeaderText(k4, v4)
    requires IsUpperWord(k1) && IsUpperWord(k2) && IsUpperWord(k3) && IsUpperWord(k4)
    requires hs == HeadersOfLines(lines)
    ensures |hs| == 7 && hs[0] == None && hs[5] == None && hs[6] == None
    ensures hs[1] == Some((k1, Strip(v1))) && hs[2] == Some((k2, Strip(v2)))
    ensures hs[3] == Some((k3, Strip(v3))) && hs[4] == Some((k4, Strip(v4)))
  {
    HeaderLine(k1, v1);
    HeaderLine(k2, v2);
    HeaderLine(k3, v3);
    HeaderLine(k4, v4);
  }

  lemma CollectSnoc(hs: seq<Option<(string, string)>>, k: nat)
    requires k < |hs|
    ensures Collect(hs[..k + 1]) == Add(Collect(hs[..k]), hs[k])
  {
    assert hs[..k + 1][..k] == hs[..k];
  }

  lemma CollectSeven(hs: seq<Option<(string, string)>>)
    requires |hs| == 7 && hs[0] == None && hs[5] == None && hs[6] == None
    requires hs[1].Some? && hs[2].Some? && hs[3].Some? && hs[4].Some?
    ensures Collect(hs) == map[hs[1].value.0 := hs[1].value.1][hs[2].value.0 := hs[2].value.1]
                             [hs[3].value.0 := hs[3].value.1][hs[4].value.0 := hs[4].value.1]
  {
    assert hs[..0] == [];
    CollectSnoc(hs, 0);
    CollectSnoc(hs, 1);
    CollectSnoc(hs, 2);
    CollectSnoc(hs, 3);
    CollectSnoc(hs, 4);
    CollectSnoc(hs, 5);
    CollectSnoc(hs, 6);
    assert hs[..7] == hs;
  }

  lemma RequestLineIgnored(line: string)
    requires line == "M-SEARCH * HTTP/1.1"
    ensures HeaderOf(line).None?
  {
    assert forall i :: 0 <= i < |line| ==> line[i] != ':';
  }

  // ---------------------------------------------------------------------
  // The description fetch of `enrich_device_info`
  // ---------------------------------------------------------------------

  /** The port `urlparse` reports: none, a number, or the `ValueError`
      reading it raises. */
  datatype UrlPort = NoPort | PortNumber(number: int) | BadPort(message: string)

  /** What `urlparse` reports: the scheme, the host name and the port. */
  datatype Url = Url(scheme: string, hostname: Option<string>, port: UrlPort)

  /** A call into foreign code: its result, or the message of what it
      raised. */
  datatype Call<T> = Raises(message: string) | Returns(value: T)

  /** The address classes `ipaddress` reports for an address. */
  datatype Address = Address(isPrivate: bool, isLinkLocal: bool, isLoopback: bool)

  /** The foreign code the address gate relies on: URL parsing, IP literal
      parsing (`None` on `ValueError`) and name resolution (`None` when it
      raises). */
  datatype Resolver = Resolver(
    urlParse: string -> Call<Url>,
    ipAddress: string -> Option<Address>,
    resolve: string -> Option<string>)

  /** Private, link-local or loopback. */
  predicate Local(a: Address) {
    a.isPrivate || a.isLinkLocal || a.isLoopback
  }

  /** The address of a host: the host itself when it is an IP literal,
      otherwise the address it resolves to; `None` when either step fails. */
  function HostAddress(host: string, res: Resolver): (r: Option<Address>)
    ensures res.ipAddress(host).Some? ==> r == res.ipAddress(host)
    ensures res.ipAddress(host).None? ==>
      r == if res.resolve(host).Some? then res.ipAddress(res.resolve(host).value) else None
  {
    match res.ipAddress(host)
    case Some(a) => Some(a)
    case None =>
      match res.resolve(host)
      case None => None
      case Some(ip) => res.ipAddress(ip)
  }

  /** The checks after a successful `urlparse`: scheme http or https, a
      non-empty host, and that host's address private, link-local or
      loopback. */
  predicate SafeUrl(u: Url, res: Resolver) {
    (u.scheme == "http" || u.scheme == "https")
    && Truthy(u.hostname)
    && match HostAddress(u.hostname.value, res)
       case None => false
       case Some(a) => Local(a)
  }

  /** The gate in front of the GET: the URL parses and passes `SafeUrl`. */
  predicate SafeTarget(location: string, res: Resolver) {
    res.urlParse(location).Returns? && SafeUrl(res.urlParse(location).value, res)
  }

  /** The reply to the GET: a transport failure, or a status and a body. */
  datatype HttpReply = HttpFailed | HttpReply(status: int, text: string)

  /** The `<device>` node's `friendlyName` and `deviceType` texts. */
  datatype DeviceNode = DeviceNode(friendlyName: Option<string>, deviceType: Option<string>)

  /** The XML parse: an error, or a root with or without a `device` node. */
  datatype Xml = XmlError | XmlRoot(device: Option<DeviceNode>)

  /** The foreign code `enrich_device_info` relies on: the address gate's,
      the HTTP GET and the XML parser. */
  datatype Net = Net(
    resolver: Resolver,
    get: string -> HttpReply,
    parseXml: string -> Xml)

  /** The result of `enrich_device_info`: the updated device and the URL it
      requested, if it requested one. */
  datatype Enriched = Enriched(device: Device, fetched: Option<string>)

  /** The fields a `<device>` node sets: `name` and then `type`, each only
      from non-empty text. */
  function ApplyNode(d: Device, n: DeviceNode): (r: Device)
    ensures r.Keys == d.Keys + (if Truthy(n.friendlyName) then {"name"} else {})
                             + (if Truthy(n.deviceType) then {"type"} else {})
    ensures Truthy(n.friendlyName) ==> r["name"] == n.friendlyName.value
    ensures Truthy(n.deviceType) ==> r["type"] == n.deviceType.value
    ensures forall k :: k in d && k != "name" && k != "type" ==> r[k] == d[k]
    ensures !Truthy(n.friendlyName) && !Truthy(n.deviceType) ==> r == d
  {
    var named := if Truthy(n.friendlyName) then d["name" := n.friendlyName.value] else d;
    if Truthy(n.deviceType) then named["type" := n.deviceType.value] else named
  }

  /** `enrich_device_info`: every refusal and every exception leaves the
      device as it was. */
  function EnrichDeviceInfo(d: Device, net: Net): (r: Enriched)
    ensures r.fetched.Some? <==> "LOCATION" in d && d["LOCATION"] != "" && SafeTarget(d["LOCATION"], net.resolver)
    ensures r.fetched.Some? ==> r.fetched.value == d["LOCATION"]
    ensures r.fetched.None? ==> r.device == d
    ensures d.Keys <= r.device.Keys <= d.Keys + {"name", "type"}
    ensures forall k :: k in d && k != "name" && k != "type" ==> r.device[k] == d[k]
  {
    if "LOCATION" !in d || d["LOCATION"] == "" then Enriched(d, None)
    else
      var location := d["LOCATION"];
      if !SafeTarget(location, net.resolver) then Enriched(d, None)
      else
        match net.get(location)
        case HttpFailed => Enriched(d, Some(location))
        case HttpReply(status, text) =>
          if status != 200 then Enriched(d, Some(location))
          else
            match net.parseXml(text)
            case XmlError => Enriched(d, Some(location))
            case XmlRoot(None) => Enriched(d, Some(location))
            case XmlRoot(Some(n)) => Enriched(ApplyNode(d, n), Some(location))
  }

  /** The description node a fetch of `location` yields, when the reply is
      a 200 whose XML has a `device` node. */
  function DescribedNode(location: string, net: Net): Option<DeviceNode> {
    var reply := net.get(location);
    if reply.HttpReply? && reply.status == 200 && net.parseXml(reply.text).XmlRoot? then
      net.parseXml(reply.text).device
    else None
  }

  /** A device changes only through a 200 reply whose XML has a `device`
      node, and then `name` and `type` come from that node's non-empty
      texts. */
  lemma EnrichOnlyFromDescription(d: Device, net: Net)
    ensures var r := EnrichDeviceInfo(d, net);
      r.device != d ==>
        r.fetched.Some? && DescribedNode(r.fetched.value, net).Some?
        && r.device == ApplyNode(d, DescribedNode(r.fetched.value, net).value)
  {
  }

  /** The gate spelled out: a fetch happens exactly when the URL parses
      with scheme http or https and a non-empty host, and that host's
      literal or resolved address is private, link-local or loopback. */
  lemma SafeTargetMeans(location: string, res: Resolver)
    ensures SafeTarget(location, res) <==>
      res.urlParse(location).Returns?
      && res.urlParse(location).value.scheme in ["http", "https"]
      && Truthy(res.urlParse(location).value.hostname)
      && var host := res.urlParse(location).value.hostname.value;
         if res.ipAddress(host).Some? then Local(res.ipAddress(host).value)
         else res.resolve(host).Some? && res.ipAddress(res.resolve(host).value).Some?
              && Local(res.ipAddress(res.resolve(host).value).value)
  {
  }

  /** A public address is never fetched, whether given literally or found
      by resolution. */
  lemma NoPublicFetch(d: Device, net: Net, host: string)
    requires "LOCATION" in d && net.resolver.urlParse(d["LOCATION"]).Returns?
    requires net.resolver.urlParse(d["LOCATION"]).value.hostname == Some(host)
    requires HostAddress(host, net.resolver).Some? && !Local(HostAddress(host, net.resolver).value)
    ensures EnrichDeviceInfo(d, net).fetched.None?
    ensures EnrichDeviceInfo(d, net).device == d
  {
  }

  // ---------------------------------------------------------------------
  // The receive loop of `discover`
  // ---------------------------------------------------------------------

  /** One datagram, from `address`, with text `response`: parsed, tagged
      with the sender and enriched. */
  function Received(address: string, response: string, net: Net): Device {
    EnrichDeviceInfo(ParseResponse(response)["address" := address], net).device
  }

  /** The devices a scan reports for the datagrams it received, in order:
      a device is appended unless an equal one is already listed. */
  function Discover(replies: seq<(string, string)>, net: Net): (r: seq<Device>)
    ensures NoDup(r)
    ensures forall x :: x in r <==> exists i :: 0 <= i < |replies| && x == Received(replies[i].0, replies[i].1, net)
  {
    var received := seq(|replies|, i requires 0 <= i < |replies| => Received(replies[i].0, replies[i].1, net));
    assert forall i :: 0 <= i < |replies| ==> received[i] == Received(replies[i].0, replies[i].1, net);
    Dedupe(received)
  }

  /** The reported devices keep the order in which each was first seen. */
  lemma DiscoverFirstSeen(replies: seq<(string, string)>, net: Net)
    ensures var received := seq(|replies|, i requires 0 <= i < |replies| => Received(replies[i].0, replies[i].1, net));
      var r := Discover(replies, net);
      forall i, j :: 0 <= i < j < |r| ==> FirstIndex(received, r[i]) < FirstIndex(received, r[j])
  {
    var received := seq(|replies|, i requires 0 <= i < |replies| => Received(replies[i].0, replies[i].1, net));
    DedupeFirstSeen(received);
  }
}

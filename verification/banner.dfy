/** Banner grabbing: the port table, the device's own port added to it,
    the probe text with the host filled in, the banner clean-up rule, and
    how each captured banner is recorded on the device. The connect, TLS
    wrap, send and receive of one port are an oracle: `grab(host, port,
    useTls, probe)` says what came back. */
module Banner {
  import opened Common
  import opened OrderedMap
  import opened DeviceModel
  import opened Enrichment

  // ---------------------------------------------------------------------
  // The port table
  // ---------------------------------------------------------------------

  /** One configuration entry; a key missing from the dictionary is `None`
      and takes the default `_grab_single` reads it with. */
  datatype PortEntry = PortEntry(name: Option<string>, probe: Option<string>, tls: Option<Value>)

  type PortTable = Pairs<int, PortEntry>

  const HostField := "{host}"
  const HttpHead := "GET / HTTP/1.0\r\nHost: "
  const HttpTail := "\r\n\r\n"
  /** The HTTP probe, with the host still to be filled in. */
  const HttpProbe := HttpHead + HostField + HttpTail
  const RtspProbe := "OPTIONS * RTSP/1.0\r\nCSeq: 1\r\n\r\n"

  const MaxBannerLen: nat := 512

  function Entry(name: string, probe: string, tls: bool): PortEntry {
    PortEntry(Some(name), Some(probe), Some(VBool(tls)))
  }

  /** `BANNER_PORTS`. */
  const BannerPorts: PortTable := [
    (21, Entry("FTP", "", false)),
    (22, Entry("SSH", "", false)),
    (23, Entry("Telnet", "", false)),
    (80, Entry("HTTP", HttpProbe, false)),
    (443, Entry("HTTPS", HttpProbe, true)),
    (554, Entry("RTSP", RtspProbe, false)),
    (1883, Entry("MQTT", "", false)),
    (8080, Entry("HTTP-Alt", HttpProbe, false)),
    (8443, Entry("HTTPS-Alt", HttpProbe, true)),
    (8883, Entry("MQTT-TLS", "", true))
  ]

  /** `ports or BANNER_PORTS`. */
  function ActiveTable(ports: PortTable): (r: PortTable)
    ensures |ports| > 0 ==> r == ports
    ensures |ports| == 0 ==> r == BannerPorts
  {
    if |ports| > 0 then ports else BannerPorts
  }

  /** Python truthiness of the device's port. */
  predicate PortSet(port: Option<int>) {
    port.Some? && port.value != 0
  }

  /** The entry made for the device's own port. */
  function OwnPortEntry(port: int): PortEntry {
    Entry("Port-" + IntToString(port), HttpProbe, false)
  }

  /** `ports_to_scan`: a copy of the table, with the device's own port
      appended when it is set and not already listed. */
  function PortsToScan(table: PortTable, port: Option<int>): (r: PortTable)
    ensures PortSet(port) && port.value !in Keys(table) ==> r == table + [(port.value, OwnPortEntry(port.value))]
    ensures !PortSet(port) || port.value in Keys(table) ==> r == table
    ensures UniqueKeys(table) ==> UniqueKeys(r)
  {
    if PortSet(port) && port.value !in Keys(table) then
      var p := port.value;
      assert Keys(table + [(p, OwnPortEntry(p))]) == Keys(table) + [p];
      table + [(p, OwnPortEntry(p))]
    else table
  }

  // ---------------------------------------------------------------------
  // One port
  // ---------------------------------------------------------------------

  /** `probe.replace(b"{host}", host)` when the probe mentions the host. */
  function FillHost(probe: string, host: string): string {
    if Contains(probe, HostField) then ReplaceAll(probe, HostField, host) else probe
  }

  /** The banner clean-up: strip; nothing left means no banner; more than
      512 characters are cut to 512 and marked with "...". */
  function ClipBanner(received: string): (r: Option<string>)
    ensures r.None? <==> Strip(received) == ""
    ensures r.Some? ==> 0 < |r.value| <= MaxBannerLen + 3
    ensures r.Some? && |Strip(received)| <= MaxBannerLen ==> r.value == Strip(received)
    ensures r.Some? && |Strip(received)| > MaxBannerLen ==>
      |r.value| == MaxBannerLen + 3 &&
      r.value[..MaxBannerLen] == Strip(received)[..MaxBannerLen] && r.value[MaxBannerLen..] == "..."
  {
    var b := Strip(received);
    if b == "" then None
    else if |b| > MaxBannerLen then Some(b[..MaxBannerLen] + "...")
    else Some(b)
  }

  /** What one connection produced: nothing (refused, timed out, reset,
      or any other error), or the received text and the version the TLS
      layer reports (read only when TLS was asked for). */
  datatype Reply = NoReply | Received(text: string, tlsVersion: Option<string>)

  /** `grab(host, port, useTls, probe)`. */
  type Grabber = (string, int, bool, string) -> Reply

  /** `BannerResult`. */
  datatype BannerResult = BannerResult(port: int, serviceName: string, banner: string, tls: Value, tlsVersion: Option<string>)

  function EntryName(port: int, e: PortEntry): string {
    e.name.GetOr("Port-" + IntToString(port))
  }

  function EntryTls(e: PortEntry): Value {
    e.tls.GetOr(VBool(false))
  }

  /** What the peer answers to the grab of `port` with entry `e`: the
      connection uses TLS when the entry says so, and the probe is the
      configured one with the host filled in. */
  function ReplyOf(host: string, port: int, e: PortEntry, grab: Grabber): Reply {
    grab(host, port, IsTrue(EntryTls(e)), FillHost(e.probe.GetOr(""), host))
  }

  /** `_grab_single`. */
  function GrabSingle(host: string, port: int, e: PortEntry, grab: Grabber): (r: Option<BannerResult>)
    ensures r.Some? ==> r.value.port == port && r.value.serviceName == EntryName(port, e) && r.value.tls == EntryTls(e)
    ensures r.Some? ==> 0 < |r.value.banner| <= MaxBannerLen + 3
    ensures r.Some? ==>
      && ReplyOf(host, port, e, grab).Received?
      && Some(r.value.banner) == ClipBanner(ReplyOf(host, port, e, grab).text)
      && r.value.tlsVersion == (if IsTrue(EntryTls(e)) then ReplyOf(host, port, e, grab).tlsVersion else None)
    ensures r.Some? && !IsTrue(EntryTls(e)) ==> r.value.tlsVersion == None
    ensures ReplyOf(host, port, e, grab).Received? && ClipBanner(ReplyOf(host, port, e, grab).text).Some? ==> r.Some?
  {
    var useTls := EntryTls(e);
    var probe := FillHost(e.probe.GetOr(""), host);
    match grab(host, port, IsTrue(useTls), probe)
    case NoReply => None
    case Received(text, version) =>
      match ClipBanner(text)
      case None => None
      case Some(b) =>
        Some(BannerResult(port, EntryName(port, e), b, useTls, if IsTrue(useTls) then version else None))
  }

  // ---------------------------------------------------------------------
  // Recording
  // ---------------------------------------------------------------------

  /** The service entry appended for a captured banner. */
  function BannerService(res: BannerResult): Raw {
    [("port", VInt(res.port)), ("name", VStr(res.serviceName)), ("banner", VStr(res.banner)),
     ("tls", res.tls), ("tls_version", TextValue(res.tlsVersion))]
  }

  /** The entry reports the result's port, service name, banner, the TLS
      flag of the port's configuration and the negotiated TLS version. */
  lemma BannerServiceFields(res: BannerResult)
    ensures GetValue(BannerService(res), "port", VNone) == VInt(res.port)
    ensures GetValue(BannerService(res), "name", VNone) == VStr(res.serviceName)
    ensures GetValue(BannerService(res), "banner", VNone) == VStr(res.banner)
    ensures GetValue(BannerService(res), "tls", VNone) == res.tls
    ensures GetValue(BannerService(res), "tls_version", VNone) == TextValue(res.tlsVersion)
  {
    var svc := BannerService(res);
    assert GetValue(svc, "port", VNone) == VInt(res.port) by { FieldAt(svc, 0, VNone); }
    assert GetValue(svc, "name", VNone) == VStr(res.serviceName) by { FieldAt(svc, 1, VNone); }
    assert GetValue(svc, "banner", VNone) == VStr(res.banner) by { FieldAt(svc, 2, VNone); }
    assert GetValue(svc, "tls", VNone) == res.tls by { FieldAt(svc, 3, VNone); }
    assert GetValue(svc, "tls_version", VNone) == TextValue(res.tlsVersion) by { FieldAt(svc, 4, VNone); }
  }

  /** The service entries for a list of results, in order. */
  function ServiceList(c: seq<BannerResult>): (r: seq<Raw>)
    ensures |r| == |c|
    ensures forall i :: 0 <= i < |c| ==> r[i] == BannerService(c[i])
  {
    if |c| == 0 then [] else ServiceList(c[..|c| - 1]) + [BannerService(c[|c| - 1])]
  }

  /** The two fields the port loop writes. */
  datatype Recorded = Recorded(banners: Pairs<int, string>, services: seq<Raw>)

  /** The result of one port as a list of zero or one results. */
  function Outcome(host: string, port: int, e: PortEntry, grab: Grabber): (r: seq<BannerResult>)
    ensures |r| <= 1
    ensures |r| == 1 <==> GrabSingle(host, port, e, grab).Some?
    ensures |r| == 1 ==> r[0] == GrabSingle(host, port, e, grab).value
  {
    match GrabSingle(host, port, e, grab)
    case None => []
    case Some(res) => [res]
  }

  /** The body of the port loop for one port: a captured banner is stored
      under its port and one service entry is appended for it; a failed
      port changes nothing. */
  function RecordPort(st: Recorded, host: string, port: int, e: PortEntry, grab: Grabber): (r: Recorded)
    ensures GrabSingle(host, port, e, grab).None? ==> r == st
    ensures GrabSingle(host, port, e, grab).Some? ==>
      r.services == st.services + [BannerService(GrabSingle(host, port, e, grab).value)]
    ensures r.services == st.services + ServiceList(Outcome(host, port, e, grab))
  {
    match GrabSingle(host, port, e, grab)
    case None => st
    case Some(res) =>
      assert ServiceList([res]) == [BannerService(res)];
      Recorded(Put(st.banners, port, res.banner), st.services + [BannerService(res)])
  }

  /** The port loop over a table, in table order. */
  function RecordAll(st: Recorded, host: string, ports: PortTable, grab: Grabber): Recorded
    decreases |ports|
  {
    if |ports| == 0 then st
    else
      var last := ports[|ports| - 1];
      RecordPort(RecordAll(st, host, ports[..|ports| - 1], grab), host, last.0, last.1, grab)
  }

  /** The ports whose grab succeeds, with their results, in table order. */
  function Captured(host: string, ports: PortTable, grab: Grabber): (r: seq<BannerResult>)
    ensures |r| <= |ports|
    decreases |ports|
  {
    if |ports| == 0 then []
    else
      var last := ports[|ports| - 1];
      Captured(host, ports[..|ports| - 1], grab) + Outcome(host, last.0, last.1, grab)
  }

  /** `enrich`: the port loop over the table plus the device's own port,
      writing into the device's banners and services. */
  function Enrich(d: DeviceInfo, ports: PortTable, grab: Grabber): (r: DeviceInfo)
    ensures r == d.(banners := r.banners, services := r.services)
    ensures var c := Captured(d.address, PortsToScan(ActiveTable(ports), d.port), grab);
      r.services == d.services + ServiceList(c)
  {
    var scan := PortsToScan(ActiveTable(ports), d.port);
    var st := RecordAll(Recorded(d.banners, d.services), d.address, scan, grab);
    ServicesAppended(Recorded(d.banners, d.services), d.address, scan, grab);
    d.(banners := st.banners, services := st.services)
  }

  /** `can_enrich`: the device has an address. */
  predicate CanGrab(d: DeviceInfo) {
    d.address != ""
  }

  /** The banner grabber as a pipeline stage over a configured table. */
  function BannerStage(ports: PortTable, grab: Grabber): (e: Enricher)
    ensures e.name == "banner_grabber"
    ensures forall d :: e.canEnrich(d) == Answer(d.address != "")
    ensures forall d :: e.enrich(d) == Returned(Enrich(d, ports, grab))
  {
    Enricher("banner_grabber", (d: DeviceInfo) => Answer(CanGrab(d)),
             (d: DeviceInfo) => Returned(Enrich(d, ports, grab)))
  }

  // ---------------------------------------------------------------------
  // Properties
  // ---------------------------------------------------------------------

  /** Exactly one service entry per captured banner, appended in table
      order after the entries already there; a failed port adds none. */
  lemma {:induction false} ServicesAppended(st: Recorded, host: string, ports: PortTable, grab: Grabber)
    ensures RecordAll(st, host, ports, grab).services == st.services + ServiceList(Captured(host, ports, grab))
    decreases |ports|
  {
    if |ports| > 0 {
      var init := ports[..|ports| - 1];
      var last := ports[|ports| - 1];
      ServicesAppended(st, host, init, grab);
      var c0 := Captured(host, init, grab);
      var o := Outcome(host, last.0, last.1, grab);
      ServiceListAppend(c0, o);
      AppendAssoc(st.services, ServiceList(c0), ServiceList(o));
    }
  }

  lemma AppendAssoc<T>(a: seq<T>, b: seq<T>, c: seq<T>)
    ensures a + b + c == a + (b + c)
  {
  }

  lemma {:induction false} ServiceListAppend(c: seq<BannerResult>, o: seq<BannerResult>)
    ensures ServiceList(c + o) == ServiceList(c) + ServiceList(o)
    decreases |o|
  {
    if |o| > 0 {
      var o0 := o[..|o| - 1];
      assert (c + o)[..|c + o| - 1] == c + o0;
      assert (c + o)[|c + o| - 1] == o[|o| - 1];
      ServiceListAppend(c, o0);
    } else {
      assert c + o == c;
    }
  }

  /** Every captured banner is stored under its port, as long as the table
      lists each port once: a later port never overwrites it. */
  lemma {:induction false} BannersRecorded(st: Recorded, host: string, ports: PortTable, grab: Grabber, k: nat)
    requires UniqueKeys(ports) && k < |ports|
    requires GrabSingle(host, ports[k].0, ports[k].1, grab).Some?
    ensures Get(RecordAll(st, host, ports, grab).banners, ports[k].0) ==
      Some(GrabSingle(host, ports[k].0, ports[k].1, grab).value.banner)
  {
    StoredAt(st, host, ports, grab, k, ports[k].0, ports[k].1);
  }

  /** `BannersRecorded` for the entry `(key, e)` at index `k`. */
  lemma {:induction false} StoredAt(st: Recorded, host: string, ports: PortTable, grab: Grabber, k: nat, key: int, e: PortEntry)
    requires UniqueKeys(ports) && k < |ports| && ports[k] == (key, e)
    requires GrabSingle(host, key, e, grab).Some?
    ensures Get(RecordAll(st, host, ports, grab).banners, key) == Some(GrabSingle(host, key, e, grab).value.banner)
    decreases |ports|, 1
  {
    if k < |ports| - 1 {
      StoredBefore(st, host, ports, grab, k, key, e);
    } else {
      StoredAtLast(st, host, ports, grab, key, e);
    }
  }

  /** `StoredAt` for an entry before the last: stored by the loop over the
      earlier entries, and kept through the last one. */
  lemma {:induction false} StoredBefore(st: Recorded, host: string, ports: PortTable, grab: Grabber, k: nat, key: int, e: PortEntry)
    requires UniqueKeys(ports) && k < |ports| - 1 && ports[k] == (key, e)
    requires GrabSingle(host, key, e, grab).Some?
    ensures Get(RecordAll(st, host, ports, grab).banners, key) == Some(GrabSingle(host, key, e, grab).value.banner)
    decreases |ports|, 0
  {
    var init := ports[..|ports| - 1];
    UniqueKeysInit(ports);
    assert init[k] == (key, e);
    StoredAt(st, host, init, grab, k, key, e);
    KeptThroughLast(st, host, ports, grab, key, Some(GrabSingle(host, key, e, grab).value.banner));
  }

  /** A banner the loop over all but the last entry stored survives the
      last entry when that entry is for another port. */
  lemma KeptThroughLast(st: Recorded, host: string, ports: PortTable, grab: Grabber, key: int, want: Option<string>)
    requires |ports| > 0 && ports[|ports| - 1].0 != key
    requires Get(RecordAll(st, host, ports[..|ports| - 1], grab).banners, key) == want
    ensures Get(RecordAll(st, host, ports, grab).banners, key) == want
  {
    var last := ports[|ports| - 1];
    RecordAllStep(st, host, ports, grab, last.0, last.1);
    BannerKept(RecordAll(st, host, ports[..|ports| - 1], grab), host, last.0, last.1, grab, key);
  }

  /** The banner of the last entry, when captured, is stored under its port. */
  lemma StoredAtLast(st: Recorded, host: string, ports: PortTable, grab: Grabber, port: int, e: PortEntry)
    requires |ports| > 0 && ports[|ports| - 1] == (port, e)
    requires GrabSingle(host, port, e, grab).Some?
    ensures Get(RecordAll(st, host, ports, grab).banners, port) == Some(GrabSingle(host, port, e, grab).value.banner)
  {
    RecordAllStep(st, host, ports, grab, port, e);
    BannerStored(RecordAll(st, host, ports[..|ports| - 1], grab), host, port, e, grab);
  }

  /** The port loop over a non-empty table is the loop over all but the
      last entry followed by that entry. */
  lemma RecordAllStep(st: Recorded, host: string, ports: PortTable, grab: Grabber, port: int, e: PortEntry)
    requires |ports| > 0 && ports[|ports| - 1] == (port, e)
    ensures RecordAll(st, host, ports, grab) ==
      RecordPort(RecordAll(st, host, ports[..|ports| - 1], grab), host, port, e, grab)
  {
  }

  /** A captured banner is stored under its port. */
  lemma BannerStored(st: Recorded, host: string, port: int, e: PortEntry, grab: Grabber)
    requires GrabSingle(host, port, e, grab).Some?
    ensures Get(RecordPort(st, host, port, e, grab).banners, port) == Some(GrabSingle(host, port, e, grab).value.banner)
  {
  }

  /** Recording one port leaves the banners of other ports alone. */
  lemma BannerKept(st: Recorded, host: string, port: int, e: PortEntry, grab: Grabber, other: int)
    requires other != port
    ensures Get(RecordPort(st, host, port, e, grab).banners, other) == Get(st.banners, other)
  {
    match GrabSingle(host, port, e, grab)
    case None =>
    case Some(res) =>
      PutOther(st.banners, port, res.banner, other);
  }

  /** A port whose grab fails leaves the state as the earlier ports left
      it. */
  lemma FailedPortChangesNothing(st: Recorded, host: string, ports: PortTable, port: int, e: PortEntry, grab: Grabber)
    requires GrabSingle(host, port, e, grab).None?
    ensures RecordAll(st, host, ports + [(port, e)], grab) == RecordAll(st, host, ports, grab)
  {
    assert (ports + [(port, e)])[..|ports|] == ports;
  }

  /** The default table lists each port once. */
  lemma DefaultTableUnique()
    ensures UniqueKeys(BannerPorts)
  {
    IncreasingUnique(BannerPorts);
  }

  // ---------------------------------------------------------------------
  // Probe text
  // ---------------------------------------------------------------------

  /** A probe without the host field is sent as it is. */
  lemma FillHostUnchanged(probe: string, host: string)
    requires !Contains(probe, HostField)
    ensures FillHost(probe, host) == probe
  {
  }

  /** A grab yields a result exactly when the connection returned text
      that is not blank, sent with the entry's probe and TLS flag. */
  lemma GrabSucceeds(host: string, port: int, e: PortEntry, grab: Grabber)
    ensures var reply := grab(host, port, IsTrue(EntryTls(e)), FillHost(e.probe.GetOr(""), host));
      GrabSingle(host, port, e, grab).Some? <==> reply.Received? && Strip(reply.text) != ""
  {
  }

  /** The HTTP probe names the host it is sent to, whatever the host. */
  lemma HttpProbeNamesHost(host: string)
    ensures FillHost(HttpProbe, host) == HttpHead + host + HttpTail
  {
    FillHostEvery([HttpHead, HttpTail], host);
    assert Join([HttpHead, HttpTail], HostField) == HttpProbe;
  }

  /** Every `{host}` field of a probe gets the host: a probe that is
      `parts` joined by `{host}`, with no other `{`, becomes the parts
      joined by the host. */
  lemma FillHostEvery(parts: seq<string>, host: string)
    requires |parts| > 0 && forall k :: 0 <= k < |parts| ==> '{' !in parts[k]
    ensures FillHost(Join(parts, HostField), host) == Join(parts, host)
  {
    ReplaceJoin(parts, HostField, host);
  }

  /** A clean banner of at most 512 characters is kept as it is. */
  lemma ShortBannerKept(b: string)
    requires 0 < |b| <= MaxBannerLen && !IsSpace(b[0]) && !IsSpace(b[|b| - 1])
    ensures ClipBanner(b) == Some(b)
  {
    NoSpaceStrip(b);
  }
}

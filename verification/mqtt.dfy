/** MQTT broker discovery: the port sweep with its seen-set, the choice of
    the port to probe, the bounded message collection, the `$SYS` metadata
    parser and the risk flags of a probed broker. The TCP connect test and
    the whole client session are oracles: the scan asks `isOpen(ip, port)`
    and `session(ip, port)` instead of touching a socket. */
module Mqtt {
  import opened Common
  import opened OrderedMap

  // ---------------------------------------------------------------------
  // Configuration
  // ---------------------------------------------------------------------

  /** One entry of the port table: `{"port", "name", "tls"}`. */
  datatype PortConfig = PortConfig(port: int, name: string, tls: bool)

  const DefaultPorts: seq<PortConfig> :=
    [PortConfig(1883, "MQTT", false), PortConfig(8883, "MQTT-TLS", true)]

  const MaxSampledTopics: nat := 50
  const MaxSysEntries: nat := 200

  /** `ports or DEFAULT_PORTS`. */
  function ActivePorts(ports: seq<PortConfig>): (r: seq<PortConfig>)
    ensures |ports| > 0 ==> r == ports
    ensures |ports| == 0 ==> r == DefaultPorts
    ensures |r| > 0
  {
    if |ports| > 0 then ports else DefaultPorts
  }

  // ---------------------------------------------------------------------
  // The broker record
  // ---------------------------------------------------------------------

  /** Topic name to payload text, in arrival order. */
  type SysData = Pairs<string, string>

  /** The result dictionary `_probe_broker` fills in. The sampled topic
      names are kept as the set they are collected in. */
  datatype Broker = Broker(
    address: string,
    port: int,
    brokerName: Option<string>,
    brokerVersion: Option<string>,
    anonymousAccess: bool,
    tlsSupported: bool,
    anonymousPublish: bool,
    connectedClients: Option<int>,
    uptimeSeconds: Option<int>,
    messagesReceived: Option<int>,
    messagesSent: Option<int>,
    sampledTopics: set<string>,
    topicCount: nat,
    riskFlags: seq<string>,
    metadata: SysData)

  /** The record before the broker has answered anything. */
  function NewBroker(ip: string, port: int, tlsSupported: bool): (r: Broker)
    ensures r.address == ip && r.port == port && r.tlsSupported == tlsSupported
    ensures !r.anonymousAccess && !r.anonymousPublish && r.riskFlags == []
    ensures r.brokerName == None && r.brokerVersion == None && r.uptimeSeconds == None
    ensures r.connectedClients == None && r.messagesReceived == None && r.messagesSent == None
    ensures r.sampledTopics == {} && r.topicCount == 0 && r.metadata == []
  {
    Broker(ip, port, None, None, false, tlsSupported, false, None, None, None, None, {}, 0, [], [])
  }

  // ---------------------------------------------------------------------
  // `$SYS` metadata
  // ---------------------------------------------------------------------

  const VersionKey := "$SYS/broker/version"
  const UptimeKey := "$SYS/broker/uptime"
  const UptimeSecondsKey := "$SYS/broker/uptime/seconds"
  const ClientsConnectedKey := "$SYS/broker/clients/connected"
  const ClientsActiveKey := "$SYS/broker/clients/active"
  const ReceivedKey := "$SYS/broker/messages/received"
  const SentKey := "$SYS/broker/messages/sent"

  /** `sys_data.get(key, "")`. */
  function SysText(sys: SysData, key: string): (r: string)
    ensures key !in Keys(sys) ==> r == ""
    ensures key in Keys(sys) ==> Get(sys, key) == Some(r)
  {
    GetKeys(sys, key);
    Get(sys, key).GetOr("")
  }

  /** `sys_data.get(primary) or sys_data.get(fallback) or ""`. */
  function Fallback(sys: SysData, primary: string, fallback: string): (r: string)
    ensures SysText(sys, primary) != "" ==> r == SysText(sys, primary)
    ensures SysText(sys, primary) == "" ==> r == SysText(sys, fallback)
  {
    if SysText(sys, primary) != "" then SysText(sys, primary) else SysText(sys, fallback)
  }

  /** `int(text)` guarded by `if text:` and `except ValueError: pass`: the
      current value survives an empty or unparsable text. */
  function IntOr(text: string, current: Option<int>): (r: Option<int>)
    ensures ParseInt(text).Some? ==> r == ParseInt(text)
    ensures ParseInt(text).None? ==> r == current
  {
    if text == "" then current
    else
      match ParseInt(text)
      case Some(n) => Some(n)
      case None => current
  }

  /** `int(text.split()[0])` guarded the same way; a text with no word
      raises `IndexError`, which is swallowed too. */
  function FirstWordIntOr(text: string, current: Option<int>): (r: Option<int>)
    ensures |SplitWhitespace(text)| == 0 ==> r == current
    ensures |SplitWhitespace(text)| > 0 ==> r == IntOr(SplitWhitespace(text)[0], current)
  {
    if text == "" then current
    else
      var words := SplitWhitespace(text);
      if |words| == 0 then current else IntOr(words[0], current)
  }

  /** The short broker name: the first word of the lower-cased version,
      capitalised; `None` when the version has no word. */
  function ShortName(version: string): (r: Option<string>)
    ensures r.Some? <==> |SplitWhitespace(version)| > 0
    ensures r.Some? ==> |r.value| > 0
  {
    var parts := SplitWhitespace(Lower(version));
    LowerKeepsWords(version);
    if |parts| > 0 then Some(Capitalize(parts[0])) else None
  }

  /** `_parse_sys_data`: each of the five fields is set from its topic when
      that topic's text is usable and otherwise left alone; nothing else
      in the record changes. */
  function ParseSysData(sys: SysData, b: Broker): (r: Broker)
    ensures r == b.(brokerName := r.brokerName, brokerVersion := r.brokerVersion,
                    uptimeSeconds := r.uptimeSeconds, connectedClients := r.connectedClients,
                    messagesReceived := r.messagesReceived, messagesSent := r.messagesSent)
    ensures SysText(sys, VersionKey) == "" ==> r.brokerVersion == b.brokerVersion && r.brokerName == b.brokerName
    ensures SysText(sys, VersionKey) != "" ==> r.brokerVersion == Some(SysText(sys, VersionKey))
    ensures ShortName(SysText(sys, VersionKey)).Some? ==> r.brokerName == ShortName(SysText(sys, VersionKey))
    ensures ShortName(SysText(sys, VersionKey)).None? ==> r.brokerName == b.brokerName
    ensures r.uptimeSeconds == FirstWordIntOr(Fallback(sys, UptimeKey, UptimeSecondsKey), b.uptimeSeconds)
    ensures r.connectedClients == IntOr(Fallback(sys, ClientsConnectedKey, ClientsActiveKey), b.connectedClients)
    ensures r.messagesReceived == IntOr(SysText(sys, ReceivedKey), b.messagesReceived)
    ensures r.messagesSent == IntOr(SysText(sys, SentKey), b.messagesSent)
  {
    var version := SysText(sys, VersionKey);
    var name := ShortName(version);
    var b1 :=
      if version == "" then b
      else b.(brokerVersion := Some(version), brokerName := if name.Some? then name else b.brokerName);
    assert version == "" ==> name.None? by {
      if version == "" { assert SplitWhitespace(version) == []; }
    }
    b1.(uptimeSeconds := FirstWordIntOr(Fallback(sys, UptimeKey, UptimeSecondsKey), b.uptimeSeconds),
        connectedClients := IntOr(Fallback(sys, ClientsConnectedKey, ClientsActiveKey), b.connectedClients),
        messagesReceived := IntOr(SysText(sys, ReceivedKey), b.messagesReceived),
        messagesSent := IntOr(SysText(sys, SentKey), b.messagesSent))
  }

  // ---------------------------------------------------------------------
  // Word lemmas
  // ---------------------------------------------------------------------

  /** Lower-casing neither creates nor removes whitespace, so it keeps the
      number of words. */
  lemma {:induction false} LowerKeepsWords(s: string)
    ensures |SplitWhitespace(Lower(s))| == |SplitWhitespace(s)|
    ensures |SplitWhitespace(s)| > 0 ==> SplitWhitespace(Lower(s))[0] == Lower(SplitWhitespace(s)[0])
    decreases |s|
  {
    var t := TrimLeft(s);
    LowerTrimLeft(s);
    if |t| > 0 {
      var n := WordLength(t);
      var u := Lower(t);
      LowerWordLength(t);
      LowerSlices(t, n);
      LowerKeepsWords(t[n..]);
      assert SplitWhitespace(s) == [t[..n]] + SplitWhitespace(t[n..]);
      assert SplitWhitespace(Lower(s)) == [u[..n]] + SplitWhitespace(u[n..]);
    } else {
      assert SplitWhitespace(s) == [];
      assert SplitWhitespace(Lower(s)) == [];
    }
  }

  lemma {:induction false} LowerTrimLeft(s: string)
    ensures TrimLeft(Lower(s)) == Lower(TrimLeft(s))
    decreases |s|
  {
    if |s| > 0 {
      assert Lower(s)[0] == LowerChar(s[0]);
      assert IsSpace(LowerChar(s[0])) == IsSpace(s[0]);
      if IsSpace(s[0]) {
        assert Lower(s)[1..] == Lower(s[1..]);
        LowerTrimLeft(s[1..]);
      }
    }
  }

  lemma LowerSlices(t: string, n: nat)
    requires n <= |t|
    ensures Lower(t)[..n] == Lower(t[..n]) && Lower(t)[n..] == Lower(t[n..])
  {
    LowerPrefix(t, n);
    LowerSuffix(t, n);
  }

  lemma LowerPrefix(t: string, n: nat)
    requires n <= |t|
    ensures Lower(t)[..n] == Lower(t[..n])
  {
  }

  lemma LowerSuffix(t: string, n: nat)
    requires n <= |t|
    ensures Lower(t)[n..] == Lower(t[n..])
  {
  }

  lemma {:induction false} LowerWordLength(s: string)
    ensures WordLength(Lower(s)) == WordLength(s)
    decreases |s|
  {
    if |s| > 0 {
      assert Lower(s)[0] == LowerChar(s[0]);
      assert Lower(s)[1..] == Lower(s[1..]);
      LowerWordLength(s[1..]);
    }
  }

  /** A word followed by whitespace or nothing is the first word. */
  lemma {:induction false} FirstWordOf(w: string, rest: string)
    requires |w| > 0 && forall i :: 0 <= i < |w| ==> !IsSpace(w[i])
    requires rest == "" || IsSpace(rest[0])
    ensures |SplitWhitespace(w + rest)| > 0 && SplitWhitespace(w + rest)[0] == w
  {
    var s := w + rest;
    assert TrimLeft(s) == s;
    WordLengthOf(w, rest);
    assert s[..|w|] == w;
  }

  lemma {:induction false} WordLengthOf(w: string, rest: string)
    requires forall i :: 0 <= i < |w| ==> !IsSpace(w[i])
    requires rest == "" || IsSpace(rest[0])
    ensures WordLength(w + rest) == |w|
    decreases |w|
  {
    if |w| > 0 {
      assert (w + rest)[1..] == w[1..] + rest;
      WordLengthOf(w[1..], rest);
    } else {
      assert w + rest == rest;
    }
  }

  // ---------------------------------------------------------------------
  // `$SYS` properties
  // ---------------------------------------------------------------------

  /** A version text `"<word> <anything>"` names the broker after its
      first word, lower-cased and then capitalised. */
  lemma BrokerNameFromVersion(sys: SysData, b: Broker, w: string, rest: string)
    requires Get(sys, VersionKey) == Some(w + rest)
    requires |w| > 0 && forall i :: 0 <= i < |w| ==> !IsSpace(w[i])
    requires rest == "" || IsSpace(rest[0])
    ensures ParseSysData(sys, b).brokerVersion == Some(w + rest)
    ensures ParseSysData(sys, b).brokerName == Some(Capitalize(Lower(w)))
  {
    FirstWordOf(w, rest);
    LowerKeepsWords(w + rest);
  }

  /** An uptime text `"<n> seconds"` (or just `"<n>"`) under the primary
      topic sets `uptime_seconds` to n. */
  lemma UptimeReadsNumber(sys: SysData, b: Broker, n: int, rest: string)
    requires Get(sys, UptimeKey) == Some(IntToString(n) + rest)
    requires rest == "" || IsSpace(rest[0])
    ensures ParseSysData(sys, b).uptimeSeconds == Some(n)
  {
    NoSpaceInNumber(n);
    FirstWordOf(IntToString(n), rest);
    IntToStringRoundTrip(n);
  }

  /** `str(n)` has at least one character and no whitespace. */
  lemma NoSpaceInNumber(n: int)
    ensures |IntToString(n)| > 0
    ensures forall i :: 0 <= i < |IntToString(n)| ==> !IsSpace(IntToString(n)[i])
  {
    var d := NatToString(if n < 0 then -n else n);
    assert forall i :: 0 <= i < |d| ==> IsDigit(d[i]);
    if n < 0 {
      assert IntToString(n) == "-" + d;
      assert forall i :: 1 <= i < |IntToString(n)| ==> IntToString(n)[i] == d[i - 1];
    }
  }

  /** The `uptime/seconds` topic is consulted only when the primary
      uptime topic is absent or empty: with a non-empty primary text,
      whatever the fallback holds does not matter. */
  lemma UptimeFallbackIgnored(sys: SysData, b: Broker, v: string)
    requires SysText(sys, UptimeKey) != ""
    ensures ParseSysData(Put(sys, UptimeSecondsKey, v), b).uptimeSeconds == ParseSysData(sys, b).uptimeSeconds
  {
    PutOther(sys, UptimeSecondsKey, v, UptimeKey);
    assert SysText(Put(sys, UptimeSecondsKey, v), UptimeKey) == SysText(sys, UptimeKey);
  }

  /** With no usable primary uptime, a number under `uptime/seconds` is
      read. */
  lemma UptimeFallbackUsed(sys: SysData, b: Broker, n: int)
    requires SysText(sys, UptimeKey) == ""
    requires Get(sys, UptimeSecondsKey) == Some(IntToString(n))
    ensures ParseSysData(sys, b).uptimeSeconds == Some(n)
  {
    NoSpaceInNumber(n);
    FirstWordOf(IntToString(n), "");
    assert IntToString(n) + "" == IntToString(n);
    IntToStringRoundTrip(n);
  }

  /** `clients/active` is consulted only when `clients/connected` is absent
      or empty. */
  lemma ClientsFallbackIgnored(sys: SysData, b: Broker, v: string)
    requires SysText(sys, ClientsConnectedKey) != ""
    ensures ParseSysData(Put(sys, ClientsActiveKey, v), b).connectedClients == ParseSysData(sys, b).connectedClients
  {
    PutOther(sys, ClientsActiveKey, v, ClientsConnectedKey);
    assert SysText(Put(sys, ClientsActiveKey, v), ClientsConnectedKey) == SysText(sys, ClientsConnectedKey);
  }

  /** Counters written as decimal numbers are read back exactly. */
  lemma CountersRead(sys: SysData, b: Broker, received: int, sent: int, clients: int)
    requires Get(sys, ReceivedKey) == Some(IntToString(received))
    requires Get(sys, SentKey) == Some(IntToString(sent))
    requires Get(sys, ClientsConnectedKey) == Some(IntToString(clients))
    ensures ParseSysData(sys, b).messagesReceived == Some(received)
    ensures ParseSysData(sys, b).messagesSent == Some(sent)
    ensures ParseSysData(sys, b).connectedClients == Some(clients)
  {
    IntToStringRoundTrip(received);
    IntToStringRoundTrip(sent);
    IntToStringRoundTrip(clients);
    NoSpaceInNumber(clients);
  }

  // ---------------------------------------------------------------------
  // Risk flags
  // ---------------------------------------------------------------------

  const MqttFlags: seq<string> := ["open_broker", "anonymous_publish", "no_tls"]

  /** `_generate_risk_flags`: the flags that apply, in table order. */
  function RiskFlags(b: Broker): (r: seq<string>)
    ensures Subsequence(r, MqttFlags)
    ensures "open_broker" in r <==> b.anonymousAccess
    ensures "anonymous_publish" in r <==> b.anonymousPublish
    ensures "no_tls" in r <==> !b.tlsSupported
  {
    var a := if b.anonymousAccess then ["open_broker"] else [];
    var p := if b.anonymousPublish then ["anonymous_publish"] else [];
    var t := if !b.tlsSupported then ["no_tls"] else [];
    assert Subsequence(a + p + t, MqttFlags) by {
      assert MqttFlags[1..] == ["anonymous_publish", "no_tls"];
      assert MqttFlags[1..][1..] == ["no_tls"];
      assert Subsequence(t, ["no_tls"]);
      assert Subsequence(p + t, MqttFlags[1..]) by {
        if |p| > 0 { assert (p + t)[1..] == t; }
      }
      if |a| > 0 { assert (a + p + t)[1..] == p + t; }
      else { assert a + p + t == p + t; }
    }
    a + p + t
  }

  /** The record with its flags replaced; nothing else changes. */
  function WithRiskFlags(b: Broker): (r: Broker)
    ensures r == b.(riskFlags := RiskFlags(b))
    ensures r.riskFlags != [] ==> b.anonymousAccess || b.anonymousPublish || !b.tlsSupported
  {
    b.(riskFlags := RiskFlags(b))
  }

  // ---------------------------------------------------------------------
  // Message collection
  // ---------------------------------------------------------------------

  datatype Message = Message(topic: string, payload: string)

  /** The probe's shared state: `$SYS` payloads by topic, and the set of
      other topic names seen. */
  datatype Collected = Collected(sysData: SysData, sampled: set<string>)

  predicate IsSysTopic(topic: string) {
    StartsWith(topic, "$SYS/")
  }

  /** The caps the collection keeps. */
  predicate Bounded(c: Collected) {
    UniqueKeys(c.sysData) && |c.sysData| <= MaxSysEntries && |c.sampled| <= MaxSampledTopics
  }

  /** `on_message`: a `$SYS/` topic is stored (or overwritten) while fewer
      than 200 entries are held; any other topic name joins the sample
      while fewer than 50 are held. */
  function OnMessage(c: Collected, m: Message): (r: Collected)
    ensures Bounded(c) ==> Bounded(r)
    ensures !IsSysTopic(m.topic) ==> r.sysData == c.sysData
    ensures IsSysTopic(m.topic) ==> r.sampled == c.sampled
    ensures IsSysTopic(m.topic) && |c.sysData| < MaxSysEntries ==> Get(r.sysData, m.topic) == Some(m.payload)
    ensures IsSysTopic(m.topic) && |c.sysData| >= MaxSysEntries ==> r.sysData == c.sysData
    ensures !IsSysTopic(m.topic) && |c.sampled| < MaxSampledTopics ==> r.sampled == c.sampled + {m.topic}
    ensures !IsSysTopic(m.topic) && |c.sampled| >= MaxSampledTopics ==> r.sampled == c.sampled
  {
    if IsSysTopic(m.topic) then
      if |c.sysData| < MaxSysEntries then
        PutKeys(c.sysData, m.topic, m.payload);
        if UniqueKeys(c.sysData) then PutUnique(c.sysData, m.topic, m.payload); c.(sysData := Put(c.sysData, m.topic, m.payload))
        else c.(sysData := Put(c.sysData, m.topic, m.payload))
      else c
    else if |c.sampled| < MaxSampledTopics then c.(sampled := c.sampled + {m.topic})
    else c
  }

  /** The callback applied to each message in arrival order. */
  function Collect(c: Collected, msgs: seq<Message>): (r: Collected)
    decreases |msgs|
  {
    if |msgs| == 0 then c else Collect(OnMessage(c, msgs[0]), msgs[1..])
  }

  /** Whatever arrives, the caps hold, `$SYS/` payloads are stored only
      under `$SYS/` topics, and only other topic names are sampled. */
  lemma {:induction false} CollectBounded(c: Collected, msgs: seq<Message>)
    requires Bounded(c)
    ensures Bounded(Collect(c, msgs))
    ensures forall k :: k in Keys(Collect(c, msgs).sysData) ==> k in Keys(c.sysData) || IsSysTopic(k)
    ensures forall t :: t in Collect(c, msgs).sampled ==> t in c.sampled || !IsSysTopic(t)
    decreases |msgs|
  {
    if |msgs| > 0 {
      var c1 := OnMessage(c, msgs[0]);
      PutKeys(c.sysData, msgs[0].topic, msgs[0].payload);
      assert forall k :: k in Keys(c1.sysData) ==> k in Keys(c.sysData) || IsSysTopic(k);
      CollectBounded(c1, msgs[1..]);
    }
  }

  /** With no `$SYS/` traffic the stored payloads stay as they were. */
  lemma {:induction false} CollectNoSysTraffic(c: Collected, msgs: seq<Message>)
    requires forall i :: 0 <= i < |msgs| ==> !IsSysTopic(msgs[i].topic)
    ensures Collect(c, msgs).sysData == c.sysData
    decreases |msgs|
  {
    if |msgs| > 0 {
      CollectNoSysTraffic(OnMessage(c, msgs[0]), msgs[1..]);
    }
  }

  // ---------------------------------------------------------------------
  // One probe
  // ---------------------------------------------------------------------

  /** What the broker does during a probe: the connect raises, no CONNACK
      arrives in time, or a CONNACK with return code `rc` arrives, followed
      by the messages of the `$SYS/#` phase, those of the `#` phase (empty
      when too little time is left) and the outcome of the test publish. */
  datatype Session =
    | ConnectRaised
    | NoConnack
    | Connack(rc: int, sysPhase: seq<Message>, topicPhase: seq<Message>, publishAccepted: bool)

  /** `_probe_broker`. */
  function Probe(ip: string, cfg: PortConfig, tlsSupported: bool, s: Session): (r: Option<Broker>)
    ensures r.Some? <==> s.Connack?
    ensures r.Some? ==> r.value.address == ip && r.value.port == cfg.port && r.value.tlsSupported == tlsSupported
    ensures r.Some? ==> (r.value.anonymousAccess <==> s.rc == 0)
    ensures r.Some? && s.rc != 0 ==> r.value == NewBroker(ip, cfg.port, tlsSupported)
    ensures r.Some? && s.rc == 0 ==>
      && "open_broker" in r.value.riskFlags
      && ("no_tls" in r.value.riskFlags <==> !tlsSupported)
      && ("anonymous_publish" in r.value.riskFlags <==> s.publishAccepted)
      && r.value.topicCount == |r.value.sampledTopics| <= MaxSampledTopics
      && |r.value.metadata| <= MaxSysEntries
  {
    match s
    case ConnectRaised => None
    case NoConnack => None
    case Connack(rc, sysPhase, topicPhase, published) =>
      var base := NewBroker(ip, cfg.port, tlsSupported);
      if rc != 0 then Some(base)
      else
        var empty := Collected([], {});
        var c1 := Collect(empty, sysPhase);
        CollectBounded(empty, sysPhase);
        var b1 := ParseSysData(c1.sysData, base.(anonymousAccess := true));
        var c2 := Collect(c1, topicPhase);
        CollectBounded(c1, topicPhase);
        var b2 := b1.(sampledTopics := c2.sampled, topicCount := |c2.sampled|,
                      anonymousPublish := published, metadata := c2.sysData);
        Some(WithRiskFlags(b2))
  }

  /** The `$SYS` fields come from the messages of the first phase only:
      `$SYS/` payloads of the second phase reach the stored metadata but
      not the parsed fields. */
  lemma ProbeParsesFirstPhase(ip: string, cfg: PortConfig, tlsSupported: bool, s: Session)
    requires s.Connack? && s.rc == 0
    ensures Probe(ip, cfg, tlsSupported, s).value.brokerVersion ==
      ParseSysData(Collect(Collected([], {}), s.sysPhase).sysData, NewBroker(ip, cfg.port, tlsSupported)).brokerVersion
    ensures Probe(ip, cfg, tlsSupported, s).value.uptimeSeconds ==
      ParseSysData(Collect(Collected([], {}), s.sysPhase).sysData, NewBroker(ip, cfg.port, tlsSupported)).uptimeSeconds
  {
  }

  // ---------------------------------------------------------------------
  // The sweep
  // ---------------------------------------------------------------------

  /** Nothing but TLS ports among `cfgs`. */
  predicate AllTls(cfgs: seq<PortConfig>) {
    forall j :: 0 <= j < |cfgs| ==> cfgs[j].tls
  }

  /** Some TLS port among `cfgs`: `tls_supported` after the port loop. */
  predicate AnyTls(cfgs: seq<PortConfig>) {
    exists j :: 0 <= j < |cfgs| && cfgs[j].tls
  }

  /** `next((p for p in open if not p.get("tls")), open[0])`, as an index:
      the first plain port, else the first port. */
  function ProbeIndex(open: seq<PortConfig>): (i: nat)
    requires |open| > 0
    ensures i < |open|
    ensures forall j :: 0 <= j < i ==> open[j].tls
    ensures !open[i].tls || (i == 0 && AllTls(open))
  {
    if !open[0].tls then 0
    else if |open| == 1 then 0
    else
      var k := ProbeIndex(open[1..]);
      if open[1..][k].tls then 0 else 1 + k
  }

  /** The state the port loop of one address leaves: the open ports in
      table order, whether one of them is a TLS port, the seen-set, and
      the (address, port) pairs probed, in order. */
  datatype PortScan = PortScan(open: seq<PortConfig>, tls: bool, seen: set<(string, int)>, checked: seq<(string, int)>)

  /** Table entry `k` gets its port checked for `ip`: the pair was not seen
      before the loop and no earlier entry has the same port. */
  predicate FreshPort(ip: string, cfgs: seq<PortConfig>, seen: set<(string, int)>, k: nat)
    requires k < |cfgs|
  {
    (ip, cfgs[k].port) !in seen && forall j :: 0 <= j < k ==> cfgs[j].port != cfgs[k].port
  }

  /** Table entry `k` is checked for `ip` and found open. */
  predicate OpenFresh(ip: string, cfgs: seq<PortConfig>, seen: set<(string, int)>,
                      isOpen: (string, int) -> bool, k: nat)
    requires k < |cfgs|
  {
    FreshPort(ip, cfgs, seen, k) && isOpen(ip, cfgs[k].port)
  }

  /** The inner loop of `discover` for one address. */
  function ScanPorts(ip: string, cfgs: seq<PortConfig>, seen: set<(string, int)>,
                     isOpen: (string, int) -> bool): (r: PortScan)
    ensures forall x :: x in r.seen <==> x in seen || x in r.checked
    ensures forall k :: 0 <= k < |r.checked| ==> r.checked[k] !in seen && r.checked[k].0 == ip
    ensures NoDup(r.checked)
    ensures forall k :: 0 <= k < |cfgs| ==> (ip, cfgs[k].port) in r.seen
    ensures forall c :: c in r.open ==> c in cfgs && isOpen(ip, c.port) && (ip, c.port) in r.checked
    ensures r.tls <==> AnyTls(r.open)
    ensures Subsequence(r.open, cfgs)
    ensures forall k :: 0 <= k < |cfgs| && OpenFresh(ip, cfgs, seen, isOpen, k) ==> cfgs[k] in r.open
    decreases |cfgs|
  {
    if |cfgs| == 0 then PortScan([], false, seen, [])
    else
      var key := (ip, cfgs[0].port);
      if key in seen then
        var rest := ScanPorts(ip, cfgs[1..], seen, isOpen);
        ScanSkipStep(ip, cfgs, seen, isOpen, rest);
        rest
      else
        var rest := ScanPorts(ip, cfgs[1..], seen + {key}, isOpen);
        ScanCheckStep(ip, cfgs, seen, isOpen, rest);
        CheckFirst(ip, cfgs, isOpen, rest)
  }

  /** What `ScanPorts` promises about its result `r`. */
  ghost predicate ScanFacts(ip: string, cfgs: seq<PortConfig>, seen: set<(string, int)>,
                      isOpen: (string, int) -> bool, r: PortScan)
  {
    && (forall x :: x in r.seen <==> x in seen || x in r.checked)
    && (forall k :: 0 <= k < |r.checked| ==> r.checked[k] !in seen && r.checked[k].0 == ip)
    && NoDup(r.checked)
    && (forall k :: 0 <= k < |cfgs| ==> (ip, cfgs[k].port) in r.seen)
    && (forall c :: c in r.open ==> c in cfgs && isOpen(ip, c.port) && (ip, c.port) in r.checked)
    && (r.tls <==> AnyTls(r.open))
    && Subsequence(r.open, cfgs)
    && (forall k :: 0 <= k < |cfgs| && OpenFresh(ip, cfgs, seen, isOpen, k) ==> cfgs[k] in r.open)
  }

  /** The first entry's port checked ahead of the rest of the loop. */
  function CheckFirst(ip: string, cfgs: seq<PortConfig>, isOpen: (string, int) -> bool, rest: PortScan): PortScan
    requires |cfgs| > 0
  {
    var c := cfgs[0];
    var here := isOpen(ip, c.port);
    PortScan((if here then [c] else []) + rest.open, (here && c.tls) || rest.tls, rest.seen, [(ip, c.port)] + rest.checked)
  }

  /** An entry whose pair was already seen is skipped. */
  lemma ScanSkipStep(ip: string, cfgs: seq<PortConfig>, seen: set<(string, int)>,
                     isOpen: (string, int) -> bool, rest: PortScan)
    requires |cfgs| > 0 && (ip, cfgs[0].port) in seen
    requires ScanFacts(ip, cfgs[1..], seen, isOpen, rest)
    ensures ScanFacts(ip, cfgs, seen, isOpen, rest)
  {
    var c := cfgs[0];
    assert forall k :: 1 <= k < |cfgs| ==> cfgs[k] == cfgs[1..][k - 1];
    SubsequenceSkip(rest.open, cfgs[1..], c);
    assert [c] + cfgs[1..] == cfgs;
    ScanCompleteStep(ip, cfgs, seen, isOpen, seen, rest.open, rest.open);
  }

  /** An entry whose pair was not seen is checked, and listed when open. */
  lemma ScanCheckStep(ip: string, cfgs: seq<PortConfig>, seen: set<(string, int)>,
                      isOpen: (string, int) -> bool, rest: PortScan)
    requires |cfgs| > 0 && (ip, cfgs[0].port) !in seen
    requires ScanFacts(ip, cfgs[1..], seen + {(ip, cfgs[0].port)}, isOpen, rest)
    ensures ScanFacts(ip, cfgs, seen, isOpen, CheckFirst(ip, cfgs, isOpen, rest))
  {
    var c := cfgs[0];
    var key := (ip, c.port);
    var here := isOpen(ip, c.port);
    assert forall k :: 1 <= k < |cfgs| ==> cfgs[k] == cfgs[1..][k - 1];
    ConsAnyTls(here, c, rest.open);
    ConsNoDup(key, rest.checked);
    SubsequenceCons(here, rest.open, cfgs);
    ScanCompleteStep(ip, cfgs, seen, isOpen, seen + {key}, rest.open, (if here then [c] else []) + rest.open);
  }

  /** Keeping or dropping the first entry, ahead of a subsequence of the
      other entries, gives a subsequence of all of them. */
  lemma SubsequenceCons(keep: bool, rest: seq<PortConfig>, cfgs: seq<PortConfig>)
    requires |cfgs| > 0 && Subsequence(rest, cfgs[1..])
    ensures Subsequence((if keep then [cfgs[0]] else []) + rest, cfgs)
  {
    var open := (if keep then [cfgs[0]] else []) + rest;
    assert [cfgs[0]] + cfgs[1..] == cfgs;
    if keep {
      assert open[1..] == rest;
    } else {
      assert open == rest;
      SubsequenceSkip(rest, cfgs[1..], cfgs[0]);
    }
  }

  /** One step of the port loop keeps every open, freshly checked entry
      listed: the entries after the first are fresh for the rest of the
      loop, and the first is listed when open and fresh. */
  lemma ScanCompleteStep(ip: string, cfgs: seq<PortConfig>, seen: set<(string, int)>,
                         isOpen: (string, int) -> bool, seen2: set<(string, int)>,
                         restOpen: seq<PortConfig>, open: seq<PortConfig>)
    requires |cfgs| > 0
    requires seen2 == seen || seen2 == seen + {(ip, cfgs[0].port)}
    requires forall k :: 0 <= k < |cfgs| - 1 && OpenFresh(ip, cfgs[1..], seen2, isOpen, k) ==> cfgs[1..][k] in restOpen
    requires forall c :: c in restOpen ==> c in open
    requires OpenFresh(ip, cfgs, seen, isOpen, 0) ==> cfgs[0] in open
    ensures forall k :: 0 <= k < |cfgs| && OpenFresh(ip, cfgs, seen, isOpen, k) ==> cfgs[k] in open
  {
    forall k | 1 <= k < |cfgs| && OpenFresh(ip, cfgs, seen, isOpen, k)
      ensures cfgs[k] in open
    {
      var t := cfgs[1..];
      assert t[k - 1] == cfgs[k];
      forall j | 0 <= j < k - 1
        ensures t[j].port != t[k - 1].port
      {
        assert t[j] == cfgs[j + 1];
      }
      assert OpenFresh(ip, t, seen2, isOpen, k - 1);
    }
  }

  lemma ConsAnyTls(here: bool, c: PortConfig, rest: seq<PortConfig>)
    ensures AnyTls((if here then [c] else []) + rest) <==> (here && c.tls) || AnyTls(rest)
  {
    if !here { assert (if here then [c] else []) + rest == rest; return; }
    var open := [c] + rest;
    assert forall j :: 1 <= j < |open| ==> open[j] == rest[j - 1];
    if AnyTls(rest) {
      var j :| 0 <= j < |rest| && rest[j].tls;
      assert open[j + 1].tls;
    }
    if c.tls { assert open[0].tls; }
  }

  lemma ConsNoDup<T>(x: T, rest: seq<T>)
    requires NoDup(rest) && x !in rest
    ensures NoDup([x] + rest)
  {
    var s := [x] + rest;
    assert forall k :: 1 <= k < |s| ==> s[k] == rest[k - 1];
  }

  /** What the whole sweep leaves: the broker records found, the seen-set
      and every (address, port) pair probed, in order. */
  datatype Sweep = Sweep(results: seq<Broker>, seen: set<(string, int)>, checked: seq<(string, int)>)

  /** The probe for one address once its ports are known. */
  function ProbeAddress(ip: string, scan: PortScan, session: (string, int) -> Session): (r: seq<Broker>)
    ensures |r| <= 1
    ensures |scan.open| == 0 ==> r == []
    ensures |r| == 1 ==> r[0].address == ip && r[0].tlsSupported == scan.tls
    ensures |r| == 1 ==> r[0].port == scan.open[ProbeIndex(scan.open)].port
    ensures |scan.open| > 0 ==> (|r| == 1 <==> session(ip, scan.open[ProbeIndex(scan.open)].port).Connack?)
  {
    if |scan.open| == 0 then []
    else
      var cfg := scan.open[ProbeIndex(scan.open)];
      match Probe(ip, cfg, scan.tls, session(ip, cfg.port))
      case None => []
      case Some(b) => [b]
  }

  /** The outer loop of `discover`, over the target addresses in order. */
  function SweepFrom(ips: seq<string>, cfgs: seq<PortConfig>, seen: set<(string, int)>,
                     isOpen: (string, int) -> bool, session: (string, int) -> Session): (r: Sweep)
    ensures forall x :: x in r.seen <==> x in seen || x in r.checked
    ensures forall k :: 0 <= k < |r.checked| ==> r.checked[k] !in seen && r.checked[k].0 in ips
    ensures NoDup(r.checked)
    ensures forall i, k :: 0 <= i < |ips| && 0 <= k < |cfgs| ==> (ips[i], cfgs[k].port) in r.seen
    ensures |r.results| <= |ips|
    decreases |ips|
  {
    if |ips| == 0 then Sweep([], seen, [])
    else
      var scan := ScanPorts(ips[0], cfgs, seen, isOpen);
      var rest := SweepFrom(ips[1..], cfgs, scan.seen, isOpen, session);
      assert forall i :: 1 <= i < |ips| ==> ips[i] == ips[1..][i - 1];
      var found := ProbeAddress(ips[0], scan, session);
      NoDupAppend(scan.checked, rest.checked);
      Sweep(found + rest.results, rest.seen, scan.checked + rest.checked)
  }

  /** The entries from `k` on whose flag is set, in table order. */
  function Flagged(cfgs: seq<PortConfig>, flags: seq<bool>, k: nat): seq<PortConfig>
    requires |flags| == |cfgs| && k <= |cfgs|
    decreases |cfgs| - k
  {
    if k == |cfgs| then []
    else (if flags[k] then [cfgs[k]] else []) + Flagged(cfgs, flags, k + 1)
  }

  /** For each table entry, whether the port loop checks it for `ip` and
      finds it open. */
  function OpenFlags(ip: string, cfgs: seq<PortConfig>, seen: set<(string, int)>,
                     isOpen: (string, int) -> bool): (r: seq<bool>)
    ensures |r| == |cfgs|
    ensures forall k :: 0 <= k < |cfgs| ==> r[k] == OpenFresh(ip, cfgs, seen, isOpen, k)
  {
    seq(|cfgs|, k requires 0 <= k < |cfgs| => OpenFresh(ip, cfgs, seen, isOpen, k))
  }

  /** The seen-set when the port loop reaches entry `k`. */
  function SeenBefore(ip: string, cfgs: seq<PortConfig>, seen: set<(string, int)>, k: nat): set<(string, int)>
    requires k <= |cfgs|
  {
    seen + set j | 0 <= j < k :: (ip, cfgs[j].port)
  }

  lemma {:induction false} ScanFrom(ip: string, cfgs: seq<PortConfig>, seen: set<(string, int)>,
                                    isOpen: (string, int) -> bool, k: nat)
    requires k <= |cfgs|
    ensures ScanPorts(ip, cfgs[k..], SeenBefore(ip, cfgs, seen, k), isOpen).open ==
      Flagged(cfgs, OpenFlags(ip, cfgs, seen, isOpen), k)
    decreases |cfgs| - k
  {
    if k < |cfgs| {
      var sk := SeenBefore(ip, cfgs, seen, k);
      var key := (ip, cfgs[k].port);
      assert cfgs[k..][0] == cfgs[k] && cfgs[k..][1..] == cfgs[k + 1..];
      assert key in sk <==> !FreshPort(ip, cfgs, seen, k) by {
        if !FreshPort(ip, cfgs, seen, k) && key !in seen {
          var j :| 0 <= j < k && cfgs[j].port == cfgs[k].port;
          assert (ip, cfgs[j].port) in sk;
        }
      }
      assert SeenBefore(ip, cfgs, seen, k + 1) == sk + {key};
      if key in sk {
        assert sk + {key} == sk;
      }
      ScanFrom(ip, cfgs, seen, isOpen, k + 1);
    }
  }

  /** The port loop collects exactly the entries it checks and finds open,
      in table order. */
  lemma ScanOpenPorts(ip: string, cfgs: seq<PortConfig>, seen: set<(string, int)>, isOpen: (string, int) -> bool)
    ensures ScanPorts(ip, cfgs, seen, isOpen).open == Flagged(cfgs, OpenFlags(ip, cfgs, seen, isOpen), 0)
  {
    ScanFrom(ip, cfgs, seen, isOpen, 0);
    assert cfgs[0..] == cfgs;
    assert SeenBefore(ip, cfgs, seen, 0) == seen;
  }

  /** A flagged entry from `k` on makes the selection non-empty. */
  lemma {:induction false} FlaggedHas(cfgs: seq<PortConfig>, flags: seq<bool>, k: nat, j: nat)
    requires |flags| == |cfgs| && k <= j < |cfgs| && flags[j]
    ensures |Flagged(cfgs, flags, k)| > 0
    decreases j - k
  {
    if k < j && !flags[k] {
      FlaggedHas(cfgs, flags, k + 1, j);
    }
  }

  /** Entry `m` is the one the probe choice takes among the flagged
      entries from `k` on: flagged, with every flagged entry before it a
      TLS port, and, when it is a TLS port itself, every flagged entry a
      TLS port and none before it. */
  predicate ChosenFrom(cfgs: seq<PortConfig>, flags: seq<bool>, k: nat, m: nat)
    requires |flags| == |cfgs|
  {
    && k <= m < |cfgs| && flags[m]
    && (forall j :: k <= j < m && flags[j] ==> cfgs[j].tls)
    && (cfgs[m].tls ==> forall j :: k <= j < |cfgs| && flags[j] ==> cfgs[j].tls && m <= j)
  }

  /** An unflagged entry `k` does not change the choice from `k + 1`. */
  lemma ChosenSkip(cfgs: seq<PortConfig>, flags: seq<bool>, k: nat, m: nat)
    requires |flags| == |cfgs| && k < |cfgs| && !flags[k]
    requires ChosenFrom(cfgs, flags, k + 1, m)
    ensures ChosenFrom(cfgs, flags, k, m)
  {
  }

  /** A flagged TLS entry `k` before the choice `m` from `k + 1` gives way
      to `m` when `m` is plain, and is chosen itself otherwise. */
  lemma ChosenAfterTls(cfgs: seq<PortConfig>, flags: seq<bool>, k: nat, m: nat)
    requires |flags| == |cfgs| && k < |cfgs| && flags[k] && cfgs[k].tls
    requires ChosenFrom(cfgs, flags, k + 1, m)
    ensures ChosenFrom(cfgs, flags, k, if cfgs[m].tls then k else m)
  {
  }

  /** A flagged TLS entry with no flagged entry after it is chosen. */
  lemma ChosenLastTls(cfgs: seq<PortConfig>, flags: seq<bool>, k: nat)
    requires |flags| == |cfgs| && k < |cfgs| && flags[k] && cfgs[k].tls
    requires |Flagged(cfgs, flags, k + 1)| == 0
    ensures ChosenFrom(cfgs, flags, k, k)
  {
    forall j | k < j < |cfgs| && flags[j]
      ensures false
    {
      FlaggedHas(cfgs, flags, k + 1, j);
    }
  }

  /** `ProbeIndex` over the flagged entries picks the first flagged plain
      entry, else the first flagged entry. */
  lemma {:induction false} FlaggedProbe(cfgs: seq<PortConfig>, flags: seq<bool>, k: nat)
    requires |flags| == |cfgs| && k <= |cfgs| && |Flagged(cfgs, flags, k)| > 0
    ensures var o := Flagged(cfgs, flags, k);
      exists m: nat :: ChosenFrom(cfgs, flags, k, m) && o[ProbeIndex(o)] == cfgs[m]
    decreases |cfgs| - k
  {
    var o := Flagged(cfgs, flags, k);
    var rest := Flagged(cfgs, flags, k + 1);
    if !flags[k] {
      assert o == rest;
      FlaggedProbe(cfgs, flags, k + 1);
      var m: nat :| ChosenFrom(cfgs, flags, k + 1, m) && rest[ProbeIndex(rest)] == cfgs[m];
      ChosenSkip(cfgs, flags, k, m);
    } else if !cfgs[k].tls {
      assert o[0] == cfgs[k] && ProbeIndex(o) == 0;
      assert ChosenFrom(cfgs, flags, k, k);
    } else if |rest| == 0 {
      assert o == [cfgs[k]];
      ChosenLastTls(cfgs, flags, k);
    } else {
      assert o == [cfgs[k]] + rest && o[1..] == rest;
      FlaggedProbe(cfgs, flags, k + 1);
      var m: nat :| ChosenFrom(cfgs, flags, k + 1, m) && rest[ProbeIndex(rest)] == cfgs[m];
      ChosenAfterTls(cfgs, flags, k, m);
      if cfgs[m].tls {
        assert ProbeIndex(o) == 0;
      } else {
        assert ProbeIndex(o) == 1 + ProbeIndex(rest);
      }
    }
  }

  /** Which port the probe of one address uses: an open, freshly checked
      table entry, with every open fresh entry before it a TLS port; when it
      is itself a TLS port, every open fresh entry is a TLS port and none
      comes before it. That is, the first open plain port, else the first
      open port, in table order. */
  lemma ProbeChoice(ip: string, cfgs: seq<PortConfig>, seen: set<(string, int)>,
                    isOpen: (string, int) -> bool, session: (string, int) -> Session)
    ensures var r := ProbeAddress(ip, ScanPorts(ip, cfgs, seen, isOpen), session);
      |r| == 1 ==> exists m: nat :: ChosenFrom(cfgs, OpenFlags(ip, cfgs, seen, isOpen), 0, m) && r[0].port == cfgs[m].port
  {
    var scan := ScanPorts(ip, cfgs, seen, isOpen);
    if |scan.open| > 0 {
      var flags := OpenFlags(ip, cfgs, seen, isOpen);
      ScanOpenPorts(ip, cfgs, seen, isOpen);
      FlaggedProbe(cfgs, flags, 0);
      var m: nat :| ChosenFrom(cfgs, flags, 0, m) && scan.open[ProbeIndex(scan.open)] == cfgs[m];
    }
  }

  /** Two duplicate-free lists with nothing in common concatenate to a
      duplicate-free list. */
  lemma NoDupAppend<T>(a: seq<T>, b: seq<T>)
    requires NoDup(a) && NoDup(b)
    requires forall k :: 0 <= k < |b| ==> b[k] !in a
    ensures NoDup(a + b)
  {
    forall i, j | 0 <= i < j < |a + b| ensures (a + b)[i] != (a + b)[j] {
      if j >= |a| && i < |a| {
        assert (a + b)[j] == b[j - |a|];
        assert (a + b)[i] in a;
      }
    }
  }

  /** `discover`: `target_ips or []` swept against `ports or DEFAULT_PORTS`
      with an empty seen-set. */
  function Discover(targetIps: seq<string>, ports: seq<PortConfig>,
                    isOpen: (string, int) -> bool, session: (string, int) -> Session): (r: seq<Broker>)
    ensures |r| <= |targetIps|
  {
    SweepFrom(targetIps, ActivePorts(ports), {}, isOpen, session).results
  }

  /** Each (address, port) pair of the scan is probed exactly once: every
      pair of a target and a table port is probed, none twice, and
      nothing else is probed. */
  lemma TestsEachPairOnce(targetIps: seq<string>, ports: seq<PortConfig>,
                          isOpen: (string, int) -> bool, session: (string, int) -> Session)
    ensures var s := SweepFrom(targetIps, ActivePorts(ports), {}, isOpen, session);
      && NoDup(s.checked)
      && (forall i, k :: 0 <= i < |targetIps| && 0 <= k < |ActivePorts(ports)| ==>
            (targetIps[i], ActivePorts(ports)[k].port) in s.checked)
      && (forall k :: 0 <= k < |s.checked| ==> s.checked[k].0 in targetIps)
  {
  }
}

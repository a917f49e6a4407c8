/** The rule-based device classifier of `protocols/taxonomy.py`: rules are
    tried in order of decreasing priority, the first rule one of whose
    patterns matches the record's search text decides the category and
    adds its tags. Regular expressions are an uninterpreted match
    relation. */
module Taxonomy {
  import opened Common
  import opened OrderedMap
  import opened DeviceModel
  import opened Enrichment

  /** `TaxonomyRule`: a pattern is the source text of a case-insensitive
      regular expression. */
  datatype Rule = Rule(category: string, tags: seq<string>, patterns: seq<string>, priority: int)

  /** `pattern.search(text)` succeeds. */
  type Matcher = (string, string) -> bool

  /** The built-in rule table, in database order. */
  const DefaultRules: seq<Rule> := [
    Rule("camera", ["surveillance", "video", "onvif"],
         ["onvif|ipcam|hikvision|dahua|axis|amcrest|reolink|vivotek|foscam|camera|webcam|NetworkVideoTransmitter",
          "\\brtsp\\b"], 10),
    Rule("nas", ["storage", "file-server"],
         ["synology|qnap|nas\\b|ReadyNAS|netgear.*(stor|nas)|wd.*my.*cloud|drobo|asustor|freenas|truenas",
          "_smb\\._tcp|_afpovertcp\\._tcp|_nfs\\._tcp"], 9),
    Rule("printer", ["printing"],
         ["_ipp\\._tcp|_printer\\._tcp|_pdl-datastream\\._tcp",
          "printer|brother|canon|epson|hp.*jet|lexmark|xerox|ricoh|kyocera|sharp.*mx|oki\\b"], 8),
    Rule("smart-home-hub", ["smart-home", "automation"],
         ["home.?assistant|hass\\b|hubitat|smartthings|wink|vera|homey|openhab|domoticz",
          "_hap\\._tcp|homekit|zigbee.*(gate|bridge|hub)|z-wave"], 7),
    Rule("mqtt-broker", ["iot", "messaging", "mqtt"],
         ["mosquitto|emqx|hivemq|vernemq|rabbitmq.*mqtt|activemq",
          "mqtt.*broker|broker.*1883"], 7),
    Rule("coap-device", ["iot", "constrained", "coap"],
         ["coap|oic\\.|ocf\\.|lwm2m|ipso",
          "contiki|riot-os|zephyr|mbed"], 6),
    Rule("media", ["streaming", "entertainment"],
         ["chromecast|roku|apple.*tv|fire.*tv|plex|sonos|kodi|dlna|upnp.*media|_airplay|_googlecast",
          "MediaRenderer|MediaServer|_raop\\._tcp"], 5),
    Rule("router", ["networking", "infrastructure"],
         ["router|gateway|InternetGatewayDevice|WANIPConnection|WANDevice",
          "mikrotik|ubiquiti|unifi|netgear|tp-link|asus.*rt-|linksys|openwrt|dd-wrt|cisco|meraki"], 5),
    Rule("smart-speaker", ["voice-assistant", "smart-home"],
         ["echo|alexa|google.*home|google.*nest|homepod"], 4),
    Rule("industrial", ["iot", "scada", "plc"],
         ["modbus|bacnet|siemens|schneider|allen.?bradley|plc|scada|industrial|rockwell"], 4),
    Rule("smart-tv", ["display", "entertainment"],
         ["samsung.*tv|lg.*tv|sony.*bravia|vizio|tcl|hisense|roku.*tv|android.*tv|webos|tizen",
          "urn:.*television|urn:.*tv"], 3),
    Rule("iot-device", ["iot", "embedded"],
         ["esp32|esp8266|arduino|raspberry|tasmota|shelly|tuya|mqtt|zigbee"], 2),
    Rule("computer", ["workstation"],
         ["_workstation\\._tcp|_smb\\._tcp.*windows|_rdp\\._tcp"], 1)
  ]

  // ---------------------------------------------------------------------
  // Rule order
  // ---------------------------------------------------------------------

  /** `rules or TAXONOMY_RULES`: no list, or an empty one, means the
      built-in table. */
  function ActiveRules(rules: Option<seq<Rule>>): (r: seq<Rule>)
    ensures rules.Some? && |rules.value| > 0 ==> r == rules.value
    ensures rules.None? || rules.value == [] ==> r == DefaultRules
  {
    if rules.Some? && |rules.value| > 0 then rules.value else DefaultRules
  }

  /** Place a rule before the first one of no higher priority. */
  function Insert(x: Rule, s: seq<Rule>): (r: seq<Rule>)
    ensures multiset(r) == multiset(s) + multiset{x}
    ensures |r| == |s| + 1
    decreases |s|
  {
    if |s| == 0 then [x]
    else if x.priority >= s[0].priority then [x] + s
    else
      assert s == [s[0]] + s[1..];
      [s[0]] + Insert(x, s[1..])
  }

  /** `sorted(rules, key=lambda r: -r.priority)`, a stable sort. */
  function SortRules(rules: seq<Rule>): (r: seq<Rule>)
    ensures multiset(r) == multiset(rules)
    decreases |rules|
  {
    if |rules| == 0 then []
    else
      assert rules == [rules[0]] + rules[1..];
      Insert(rules[0], SortRules(rules[1..]))
  }

  /** Non-increasing priority. */
  predicate SortedDesc(s: seq<Rule>) {
    forall i, j :: 0 <= i < j < |s| ==> s[i].priority >= s[j].priority
  }

  lemma {:induction false} InsertSorted(x: Rule, s: seq<Rule>)
    requires SortedDesc(s)
    ensures SortedDesc(Insert(x, s))
    ensures forall i :: 0 <= i < |Insert(x, s)| ==> Insert(x, s)[i] == x || Insert(x, s)[i] in s
    decreases |s|
  {
    if |s| > 0 && x.priority < s[0].priority {
      InsertSorted(x, s[1..]);
      var tail := Insert(x, s[1..]);
      forall i | 0 <= i < |tail| ensures s[0].priority >= tail[i].priority {
        if tail[i] != x {
          var k :| 0 <= k < |s[1..]| && s[1..][k] == tail[i];
          assert s[k + 1] == tail[i];
        }
      }
      forall i | 0 <= i < |tail| ensures tail[i] == x || tail[i] in s {
        if tail[i] != x {
          assert tail[i] in s[1..];
        }
      }
    }
  }

  /** The sorted rules are in non-increasing priority order. */
  lemma {:induction false} SortSorted(rules: seq<Rule>)
    ensures SortedDesc(SortRules(rules))
    decreases |rules|
  {
    if |rules| > 0 {
      SortSorted(rules[1..]);
      InsertSorted(rules[0], SortRules(rules[1..]));
    }
  }

  /** The rules of one priority, in order. */
  function AtPriority(s: seq<Rule>, p: int): (r: seq<Rule>)
    ensures forall i :: 0 <= i < |r| ==> r[i].priority == p
    decreases |s|
  {
    if |s| == 0 then []
    else Head(s[0], p) + AtPriority(s[1..], p)
  }

  lemma {:induction false} AtPriorityInsert(x: Rule, s: seq<Rule>, p: int)
    ensures AtPriority(Insert(x, s), p) == Head(x, p) + AtPriority(s, p)
    decreases |s|
  {
    if |s| > 0 && x.priority < s[0].priority {
      var tail := Insert(x, s[1..]);
      AtPriorityInsert(x, s[1..], p);
      assert Insert(x, s) == [s[0]] + tail;
      AtPriorityCons(s[0], tail, p);
      AtPriorityCons(s[0], s[1..], p);
      assert s == [s[0]] + s[1..];
      SwapHeads(Head(s[0], p), Head(x, p), AtPriority(s[1..], p));
    } else {
      AtPriorityCons(x, s, p);
    }
  }

  /** `[x]` when `x` has priority `p`, else nothing. */
  function Head(x: Rule, p: int): seq<Rule> {
    if x.priority == p then [x] else []
  }

  lemma AtPriorityCons(y: Rule, t: seq<Rule>, p: int)
    ensures AtPriority([y] + t, p) == Head(y, p) + AtPriority(t, p)
  {
    assert ([y] + t)[1..] == t;
  }

  lemma SwapHeads(a: seq<Rule>, b: seq<Rule>, rest: seq<Rule>)
    requires a == [] || b == []
    ensures a + (b + rest) == b + (a + rest)
  {
    if a == [] {
      assert a + (b + rest) == b + rest;
    } else {
      assert b + (a + rest) == a + rest;
    }
  }

  /** The sort is stable: the rules of each priority keep their database
      order. */
  lemma {:induction false} SortStable(rules: seq<Rule>, p: int)
    ensures AtPriority(SortRules(rules), p) == AtPriority(rules, p)
    decreases |rules|
  {
    if |rules| > 0 {
      SortStable(rules[1..], p);
      AtPriorityInsert(rules[0], SortRules(rules[1..]), p);
    }
  }

  // ---------------------------------------------------------------------
  // First match
  // ---------------------------------------------------------------------

  /** `any(p.search(blob) for p in rule.patterns)`. */
  predicate RuleMatches(rule: Rule, blob: string, matches: Matcher) {
    exists k :: 0 <= k < |rule.patterns| && matches(rule.patterns[k], blob)
  }

  /** Index of the first rule that matches, if any. */
  function FirstMatch(rules: seq<Rule>, blob: string, matches: Matcher): (r: Option<nat>)
    ensures r.Some? ==> r.value < |rules| && RuleMatches(rules[r.value], blob, matches)
    ensures r.Some? ==> forall j :: 0 <= j < r.value ==> !RuleMatches(rules[j], blob, matches)
    ensures r.None? ==> forall j :: 0 <= j < |rules| ==> !RuleMatches(rules[j], blob, matches)
    decreases |rules|
  {
    if |rules| == 0 then None
    else if RuleMatches(rules[0], blob, matches) then Some(0)
    else
      match FirstMatch(rules[1..], blob, matches)
      case None => None
      case Some(i) => Some(i + 1)
  }

  /** Rules after the first match are never consulted. */
  lemma {:induction false} FirstMatchIgnoresLater(rules: seq<Rule>, more: seq<Rule>, blob: string, matches: Matcher)
    requires FirstMatch(rules, blob, matches).Some?
    ensures FirstMatch(rules + more, blob, matches) == FirstMatch(rules, blob, matches)
    decreases |rules|
  {
    assert (rules + more)[0] == rules[0];
    if !RuleMatches(rules[0], blob, matches) {
      assert (rules + more)[1..] == rules[1..] + more;
      FirstMatchIgnoresLater(rules[1..], more, blob, matches);
    }
  }

  /** Classify a record with the given search text against rules already
      in order: the first matching rule sets the category and its tags are
      added, each tag once; with no match the tags stay and the category
      falls back to "unknown" only when unset. */
  function ClassifyWith(d: DeviceInfo, rules: seq<Rule>, blob: string, matches: Matcher): (r: DeviceInfo)
    ensures r.(deviceCategory := d.deviceCategory, deviceTags := d.deviceTags) == d
    ensures FirstMatch(rules, blob, matches).None? ==> r.deviceTags == d.deviceTags
    ensures FirstMatch(rules, blob, matches).None? && Truthy(d.deviceCategory) ==> r.deviceCategory == d.deviceCategory
    ensures FirstMatch(rules, blob, matches).None? && !Truthy(d.deviceCategory) ==> r.deviceCategory == Some("unknown")
    ensures FirstMatch(rules, blob, matches).Some? ==>
      var rule := rules[FirstMatch(rules, blob, matches).value];
      && r.deviceCategory == Some(rule.category)
      && NoDup(r.deviceTags)
      && (forall t :: t in r.deviceTags <==> t in d.deviceTags || t in rule.tags)
  {
    match FirstMatch(rules, blob, matches)
    case Some(i) =>
      d.(deviceCategory := Some(rules[i].category), deviceTags := Dedupe(d.deviceTags + rules[i].tags))
    case None =>
      d.(deviceCategory := Or(d.deviceCategory, Some("unknown")))
  }

  // ---------------------------------------------------------------------
  // Search text
  // ---------------------------------------------------------------------

  /** The pieces of the search text: the five identity fields and the raw
      data, then the banner texts, the services and the tags. */
  function BlobParts(d: DeviceInfo): (r: seq<string>)
    ensures |r| == 6 + |d.banners| + |d.services| + |d.deviceTags|
    ensures r[..6] == [d.friendlyName.GetOr(""), d.manufacturer.GetOr(""), d.model.GetOr(""),
                       d.firmwareVersion.GetOr(""), d.osGuess.GetOr(""), RawText(d.rawData)]
    ensures forall k :: 0 <= k < |d.banners| ==> r[6 + k] == d.banners[k].1
    ensures forall k :: 0 <= k < |d.services| ==> r[6 + |d.banners| + k] == RawText(d.services[k])
    ensures forall k :: 0 <= k < |d.deviceTags| ==> r[6 + |d.banners| + |d.services| + k] == d.deviceTags[k]
  {
    [d.friendlyName.GetOr(""), d.manufacturer.GetOr(""), d.model.GetOr(""),
     d.firmwareVersion.GetOr(""), d.osGuess.GetOr(""), RawText(d.rawData)]
    + Values(d.banners)
    + seq(|d.services|, k requires 0 <= k < |d.services| => RawText(d.services[k]))
    + d.deviceTags
  }

  /** `_build_search_blob`: the pieces joined by single spaces. */
  function SearchBlob(d: DeviceInfo): string {
    Join(BlobParts(d), " ")
  }

  /** Everything the classifier may look at is in the search text: each
      tag, each banner and each identity field. */
  lemma BlobHasTags(d: DeviceInfo, k: nat)
    requires k < |d.deviceTags|
    ensures Contains(SearchBlob(d), d.deviceTags[k])
  {
    JoinContainsPart(BlobParts(d), " ", 6 + |d.banners| + |d.services| + k);
  }

  lemma BlobHasBanners(d: DeviceInfo, k: nat)
    requires k < |d.banners|
    ensures Contains(SearchBlob(d), d.banners[k].1)
  {
    JoinContainsPart(BlobParts(d), " ", 6 + k);
  }

  lemma BlobHasModel(d: DeviceInfo)
    requires d.model.Some?
    ensures Contains(SearchBlob(d), d.model.value)
  {
    assert BlobParts(d)[2] == BlobParts(d)[..6][2];
    JoinContainsPart(BlobParts(d), " ", 2);
  }

  // ---------------------------------------------------------------------
  // The classifier stage
  // ---------------------------------------------------------------------

  /** `DeviceClassifier.enrich` with the rules it was built with. */
  function Classify(d: DeviceInfo, rules: Option<seq<Rule>>, matches: Matcher): DeviceInfo {
    ClassifyWith(d, SortRules(ActiveRules(rules)), SearchBlob(d), matches)
  }

  /** The classifier as a pipeline stage: it always runs and never
      raises. */
  function ClassifierStage(rules: Option<seq<Rule>>, matches: Matcher): (e: Enricher)
    ensures e.name == "device_classifier"
    ensures forall d :: e.canEnrich(d) == Answer(true) && e.enrich(d) == Returned(Classify(d, rules, matches))
  {
    Enricher("device_classifier", (d: DeviceInfo) => Answer(true),
             (d: DeviceInfo) => Returned(Classify(d, rules, matches)))
  }

  /** A rule of higher priority that matches always wins over one of
      lower priority: the chosen rule is of the highest priority among the
      matching ones. */
  lemma ClassifyHighestPriority(d: DeviceInfo, rules: Option<seq<Rule>>, matches: Matcher, j: nat)
    requires var sorted := SortRules(ActiveRules(rules));
      j < |sorted| && RuleMatches(sorted[j], SearchBlob(d), matches)
    ensures var sorted := SortRules(ActiveRules(rules));
      var i := FirstMatch(sorted, SearchBlob(d), matches);
      i.Some? && i.value <= j && sorted[i.value].priority >= sorted[j].priority
      && Classify(d, rules, matches).deviceCategory == Some(sorted[i.value].category)
  {
    SortSorted(ActiveRules(rules));
  }
}

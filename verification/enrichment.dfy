/** The enrichment pipeline of `protocols/enrichment.py`: enrichers run in
    order over one record, their errors recorded and absorbed; discovery
    results become `DeviceInfo` records and fingerprints go back by
    position within each protocol's list. */
module Enrichment {
  import opened Common
  import opened OrderedMap
  import opened DeviceModel

  // ---------------------------------------------------------------------
  // Running the enrichers
  // ---------------------------------------------------------------------

  /** What `can_enrich` does: answer, or raise with a message. */
  datatype Check = Answer(ok: bool) | CheckRaised(message: string)

  /** What `enrich` does: return a record, or raise with a message, leaving
      the record it was given as far as it had changed it. */
  datatype Step = Returned(device: DeviceInfo) | Raised(message: string, device: DeviceInfo)

  /** An enrichment stage: its name and its two calls. */
  datatype Enricher = Enricher(name: string, canEnrich: DeviceInfo -> Check, enrich: DeviceInfo -> Step)

  /** The text recorded for a stage that raised. */
  function ErrorText(name: string, message: string): string {
    name + ": " + message
  }

  /** The record with one more error. */
  function WithError(d: DeviceInfo, error: string): (r: DeviceInfo)
    ensures r.enrichmentErrors == d.enrichmentErrors + [error]
    ensures r.(enrichmentErrors := d.enrichmentErrors) == d
  {
    d.(enrichmentErrors := d.enrichmentErrors + [error])
  }

  /** One pass of the loop of `enrich_device`: run the stage only when it
      says it can; a raise from either call is recorded, not propagated. */
  function RunStage(e: Enricher, d: DeviceInfo): (r: DeviceInfo)
    ensures e.canEnrich(d) == Answer(false) ==> r == d
    ensures e.canEnrich(d).CheckRaised? ==>
      r == WithError(d, ErrorText(e.name, e.canEnrich(d).message))
    ensures e.canEnrich(d) == Answer(true) && e.enrich(d).Raised? ==>
      r == WithError(e.enrich(d).device, ErrorText(e.name, e.enrich(d).message))
    ensures e.canEnrich(d) == Answer(true) && e.enrich(d).Returned? ==> r == e.enrich(d).device
  {
    match e.canEnrich(d)
    case CheckRaised(m) => WithError(d, ErrorText(e.name, m))
    case Answer(ok) =>
      if !ok then d
      else
        match e.enrich(d)
        case Returned(x) => x
        case Raised(m, x) => WithError(x, ErrorText(e.name, m))
  }

  /** `enrich_device`: the stages in registration order. */
  function EnrichDevice(stages: seq<Enricher>, d: DeviceInfo): DeviceInfo
    decreases |stages|
  {
    if |stages| == 0 then d else EnrichDevice(stages[1..], RunStage(stages[0], d))
  }

  /** A stage raising does not stop the ones after it: running `p + q` is
      running `q` on what `p` left. */
  lemma {:induction false} EnrichDeviceAppend(p: seq<Enricher>, q: seq<Enricher>, d: DeviceInfo)
    ensures EnrichDevice(p + q, d) == EnrichDevice(q, EnrichDevice(p, d))
    decreases |p|
  {
    if |p| > 0 {
      assert (p + q)[0] == p[0];
      assert (p + q)[1..] == p[1..] + q;
      EnrichDeviceAppend(p[1..], q, RunStage(p[0], d));
    } else {
      assert p + q == q;
    }
  }

  /** A stage keeps the error list when whatever it returns or leaves
      behind still starts with the errors it was given. */
  ghost predicate KeepsErrors(e: Enricher) {
    forall x: DeviceInfo ::
      IsPrefix(x.enrichmentErrors, e.enrich(x).device.enrichmentErrors)
  }

  predicate IsPrefix<T(==)>(a: seq<T>, b: seq<T>) {
    |a| <= |b| && b[..|a|] == a
  }

  /** Errors recorded earlier are never lost when every stage keeps the
      list it was given. */
  lemma {:induction false} ErrorsOnlyGrow(stages: seq<Enricher>, d: DeviceInfo)
    requires forall k :: 0 <= k < |stages| ==> KeepsErrors(stages[k])
    ensures IsPrefix(d.enrichmentErrors, EnrichDevice(stages, d).enrichmentErrors)
    decreases |stages|
  {
    if |stages| > 0 {
      var e := stages[0];
      var x := RunStage(e, d);
      assert IsPrefix(d.enrichmentErrors, x.enrichmentErrors) by {
        if e.canEnrich(d) == Answer(true) {
          assert IsPrefix(d.enrichmentErrors, e.enrich(d).device.enrichmentErrors);
          var y := e.enrich(d).device;
          if e.enrich(d).Raised? {
            assert (y.enrichmentErrors + [ErrorText(e.name, e.enrich(d).message)])[..|y.enrichmentErrors|] == y.enrichmentErrors;
          }
        } else if e.canEnrich(d).CheckRaised? {
          assert (d.enrichmentErrors + [ErrorText(e.name, e.canEnrich(d).message)])[..|d.enrichmentErrors|] == d.enrichmentErrors;
        }
      }
      ErrorsOnlyGrow(stages[1..], x);
      var z := EnrichDevice(stages[1..], x);
      assert z.enrichmentErrors[..|x.enrichmentErrors|][..|d.enrichmentErrors|] == z.enrichmentErrors[..|d.enrichmentErrors|];
    }
  }

  /** Stages that all decline leave the record as it was. */
  lemma {:induction false} AllDecline(stages: seq<Enricher>, d: DeviceInfo)
    requires forall k :: 0 <= k < |stages| ==> stages[k].canEnrich(d) == Answer(false)
    ensures EnrichDevice(stages, d) == d
    decreases |stages|
  {
    if |stages| > 0 {
      AllDecline(stages[1..], d);
    }
  }

  /** `as_completed` yields every future of the batch: `order` lists the
      indices of the records as their futures complete, and covers every
      index below `n` and nothing else. */
  predicate CoversIndices(order: seq<nat>, n: nat) {
    && (forall k :: 0 <= k < |order| ==> order[k] < n)
    && (forall i :: 0 <= i < n ==> i in order)
  }

  /** The collection loop of `enrich_all`: as each future completes, its
      record's result goes to `results[idx]`. */
  function Fill(stages: seq<Enricher>, devices: seq<DeviceInfo>, order: seq<nat>,
                slots: seq<Option<DeviceInfo>>): (r: seq<Option<DeviceInfo>>)
    requires |slots| == |devices|
    requires forall k :: 0 <= k < |order| ==> order[k] < |devices|
    ensures |r| == |slots|
    decreases |order|
  {
    if |order| == 0 then slots
    else
      var idx := order[0];
      Fill(stages, devices, order[1..], slots[idx := Some(EnrichDevice(stages, devices[idx]))])
  }

  /** A slot written by some completed future holds its own record
      enriched; any other slot is as it was. */
  lemma {:induction false} FillSlot(stages: seq<Enricher>, devices: seq<DeviceInfo>, order: seq<nat>,
                                    slots: seq<Option<DeviceInfo>>, i: nat)
    requires |slots| == |devices| && i < |devices|
    requires forall k :: 0 <= k < |order| ==> order[k] < |devices|
    ensures Fill(stages, devices, order, slots)[i] ==
      if i in order then Some(EnrichDevice(stages, devices[i])) else slots[i]
    decreases |order|
  {
    if |order| > 0 {
      var idx := order[0];
      var next := slots[idx := Some(EnrichDevice(stages, devices[idx]))];
      assert order == [idx] + order[1..];
      assert i in order <==> i == idx || i in order[1..];
      FillSlot(stages, devices, order[1..], next, i);
    }
  }

  /** Once every future has completed, every slot holds its own record
      enriched. */
  lemma FillCovers(stages: seq<Enricher>, devices: seq<DeviceInfo>, order: seq<nat>)
    requires CoversIndices(order, |devices|)
    ensures var slots := Fill(stages, devices, order, seq(|devices|, _ => None));
      forall i :: 0 <= i < |devices| ==> slots[i] == Some(EnrichDevice(stages, devices[i]))
  {
    forall i | 0 <= i < |devices|
      ensures Fill(stages, devices, order, seq(|devices|, _ => None))[i] == Some(EnrichDevice(stages, devices[i]))
    {
      FillSlot(stages, devices, order, seq(|devices|, _ => None), i);
    }
  }

  /** `enrich_all` with its futures completing in `order`: an empty batch
      is returned as is; otherwise the filled slots are kept. Whatever the
      completion order, slot `i` holds record `i` enriched on its own. The
      fallback to the original record is for a raise out of
      `enrich_device`, which catches every `Exception` itself. */
  function EnrichAll(stages: seq<Enricher>, devices: seq<DeviceInfo>, order: seq<nat>): (r: seq<DeviceInfo>)
    requires CoversIndices(order, |devices|)
    ensures |r| == |devices|
    ensures forall i :: 0 <= i < |devices| ==> r[i] == EnrichDevice(stages, devices[i])
  {
    if |devices| == 0 then devices
    else
      var slots := Fill(stages, devices, order, seq(|devices|, _ => None));
      FillCovers(stages, devices, order);
      SomesAll(slots);
      Somes(slots)
  }

  /** The batch does not depend on the order in which the futures
      complete. */
  lemma CompletionOrderIrrelevant(stages: seq<Enricher>, devices: seq<DeviceInfo>,
                                  order1: seq<nat>, order2: seq<nat>)
    requires CoversIndices(order1, |devices|) && CoversIndices(order2, |devices|)
    ensures EnrichAll(stages, devices, order1) == EnrichAll(stages, devices, order2)
  {
    var r1 := EnrichAll(stages, devices, order1);
    var r2 := EnrichAll(stages, devices, order2);
    assert forall i :: 0 <= i < |r1| ==> r1[i] == r2[i];
  }

  // ---------------------------------------------------------------------
  // Discovery results to records
  // ---------------------------------------------------------------------

  /** The discovery results: one list of raw dictionaries per protocol. */
  type Results = Pairs<string, seq<Raw>>

  /** `results.get(proto, [])`. */
  function ListOf(results: Results, proto: string): seq<Raw> {
    Get(results, proto).GetOr([])
  }

  /** `raw.get(key, "")` read as text. */
  function TextField(raw: Raw, key: string): string {
    AsText(GetValue(raw, key, VStr(""))).GetOr("")
  }

  /** `addrs[0] if addrs else ""` for `addrs = raw.get("addresses") or []`:
      the first address of a list; the first character of a text. */
  function FirstAddress(raw: Raw): (r: string)
    ensures GetValue(raw, "addresses", VNone) == VList([]) ==> r == ""
    ensures !IsTrue(GetValue(raw, "addresses", VNone)) ==> r == ""
  {
    match GetValue(raw, "addresses", VNone)
    case VList(items) => if |items| > 0 then AsText(items[0]).GetOr("") else ""
    case VStr(s) => if |s| > 0 then [s[0]] else ""
    case _ => ""
  }

  /** The address a record takes: the first address for mDNS, the
      `address` entry otherwise. */
  function AddressOf(proto: string, raw: Raw): string {
    if proto == "mdns" then FirstAddress(raw) else TextField(raw, "address")
  }

  /** The port a record takes: MQTT and CoAP default to 1883 and 5683;
      UPnP and WS-Discovery records have none. */
  function PortOf(proto: string, raw: Raw): Option<int> {
    if proto == "mdns" then AsPort(GetValue(raw, "port", VNone))
    else if proto == "mqtt" then AsPort(GetValue(raw, "port", VInt(1883)))
    else if proto == "coap" then AsPort(GetValue(raw, "port", VInt(5683)))
    else None
  }

  /** The friendly name a record starts with. */
  function NameOf(proto: string, raw: Raw): Option<string> {
    if proto == "upnp" || proto == "mdns" then AsText(GetValue(raw, "name", VNone))
    else if proto == "mqtt" then AsText(GetValue(raw, "broker_name", VNone))
    else if proto == "coap" then AsText(GetValue(raw, "device_type", VNone))
    else None
  }

  /** The record one raw entry of a protocol's list becomes. */
  function FromRaw(proto: string, raw: Raw): DeviceInfo {
    NewDeviceInfo(proto, AddressOf(proto, raw), PortOf(proto, raw), raw, NameOf(proto, raw))
  }

  /** The records of one protocol's list. */
  function Build(proto: string, raws: seq<Raw>): (r: seq<DeviceInfo>)
    ensures |r| == |raws|
    ensures forall i :: 0 <= i < |r| ==> r[i] == FromRaw(proto, raws[i])
  {
    seq(|raws|, i requires 0 <= i < |raws| => FromRaw(proto, raws[i]))
  }

  /** The protocols in the order their lists are read. */
  const Protocols: seq<string> := ["upnp", "mdns", "wsd", "mqtt", "coap"]

  /** The records of the lists of `protos`, one protocol after another. */
  function BuildAll(results: Results, protos: seq<string>): seq<DeviceInfo>
    decreases |protos|
  {
    if |protos| == 0 then []
    else Build(protos[0], ListOf(results, protos[0])) + BuildAll(results, protos[1..])
  }

  /** `devices_from_results`: the records of each protocol's list, the
      protocols in the order upnp, mdns, wsd, mqtt, coap. */
  function DevicesFromResults(results: Results): seq<DeviceInfo> {
    BuildAll(results, Protocols)
  }

  /** The records of one protocol, in order. */
  function OfProtocol(devices: seq<DeviceInfo>, proto: string): (r: seq<DeviceInfo>)
    ensures |r| <= |devices|
    ensures forall i :: 0 <= i < |r| ==> r[i].protocol == proto
    decreases |devices|
  {
    if |devices| == 0 then []
    else
      var init := OfProtocol(devices[..|devices| - 1], proto);
      if devices[|devices| - 1].protocol == proto then init + [devices[|devices| - 1]] else init
  }

  lemma {:induction false} OfProtocolAppend(a: seq<DeviceInfo>, b: seq<DeviceInfo>, proto: string)
    ensures OfProtocol(a + b, proto) == OfProtocol(a, proto) + OfProtocol(b, proto)
    decreases |b|
  {
    if |b| == 0 {
      assert a + b == a;
    } else {
      var b0 := b[..|b| - 1];
      assert (a + b)[..|a + b| - 1] == a + b0;
      OfProtocolAppend(a, b0, proto);
    }
  }

  /** A list built for one protocol holds no record of another. */
  lemma OfProtocolBuild(p: string, raws: seq<Raw>, proto: string)
    ensures OfProtocol(Build(p, raws), proto) == if p == proto then Build(p, raws) else []
  {
    OfProtocolUniform(Build(p, raws), p, proto);
  }

  lemma {:induction false} OfProtocolUniform(xs: seq<DeviceInfo>, p: string, proto: string)
    requires forall i :: 0 <= i < |xs| ==> xs[i].protocol == p
    ensures OfProtocol(xs, proto) == if p == proto then xs else []
    decreases |xs|
  {
    if |xs| > 0 {
      var init := xs[..|xs| - 1];
      OfProtocolUniform(init, p, proto);
      assert init + [xs[|xs| - 1]] == xs;
    }
  }

  /** Among the lists of distinct protocols, a protocol's records are those
      built from its own list. */
  lemma {:induction false} OfProtocolBuildAll(results: Results, protos: seq<string>, proto: string)
    requires NoDup(protos)
    ensures OfProtocol(BuildAll(results, protos), proto) ==
      if proto in protos then Build(proto, ListOf(results, proto)) else []
    decreases |protos|
  {
    if |protos| > 0 {
      var head := Build(protos[0], ListOf(results, protos[0]));
      OfProtocolAppend(head, BuildAll(results, protos[1..]), proto);
      OfProtocolBuild(protos[0], ListOf(results, protos[0]), proto);
      assert NoDup(protos[1..]);
      OfProtocolBuildAll(results, protos[1..], proto);
      assert proto in protos <==> proto == protos[0] || proto in protos[1..];
      if proto == protos[0] {
        assert proto !in protos[1..];
      }
    }
  }

  /** The `k`-th record of a protocol is built from entry `k` of that
      protocol's list: the positions `apply_enrichment` relies on. Records
      of other protocols do not occur. */
  lemma ProtocolPositions(results: Results, proto: string)
    ensures OfProtocol(DevicesFromResults(results), proto) ==
      if proto in Protocols then Build(proto, ListOf(results, proto)) else []
  {
    ProtocolsDistinct(Protocols);
    OfProtocolBuildAll(results, Protocols, proto);
  }

  lemma ProtocolsDistinct(ps: seq<string>)
    requires ps == ["upnp", "mdns", "wsd", "mqtt", "coap"]
    ensures NoDup(ps)
  {
  }

  /** An mDNS record's address is the first listed address, or "" when
      there is none. */
  lemma MdnsAddress(raw: Raw)
    ensures var items := GetValue(raw, "addresses", VNone);
      FromRaw("mdns", raw).address ==
        if items.VList? && |items.items| > 0 then AsText(items.items[0]).GetOr("")
        else if items.VStr? && |items.s| > 0 then [items.s[0]]
        else ""
  {
  }

  /** MQTT and CoAP records without a port take 1883 and 5683. */
  lemma DefaultPorts(raw: Raw)
    requires "port" !in Keys(raw)
    ensures FromRaw("mqtt", raw).port == Some(1883)
    ensures FromRaw("coap", raw).port == Some(5683)
    ensures FromRaw("mdns", raw).port == None
  {
  }

  // ---------------------------------------------------------------------
  // Fingerprints back into the results
  // ---------------------------------------------------------------------

  /** `{str(k): v for k, v in banners.items()}`. */
  function BannersValue(banners: Pairs<int, string>): (r: Pairs<string, Value>)
    decreases |banners|
  {
    if |banners| == 0 then []
    else
      var last := banners[|banners| - 1];
      Put(BannersValue(banners[..|banners| - 1]), IntToString(last.0), VStr(last.1))
  }

  /** The banner dictionary written out: one entry per port, in order. */
  function BannerPairs(banners: Pairs<int, string>): (r: Pairs<string, Value>)
    ensures |r| == |banners|
  {
    seq(|banners|, i requires 0 <= i < |banners| => (IntToString(banners[i].0), VStr(banners[i].1)))
  }

  /** Distinct ports give distinct keys, so each assignment appends: the
      banner dictionary has one entry per port, in order, with its text. */
  lemma {:induction false} BannersKept(banners: Pairs<int, string>)
    requires UniqueKeys(banners)
    ensures BannersValue(banners) == BannerPairs(banners)
    decreases |banners|
  {
    if |banners| > 0 {
      var n := |banners| - 1;
      var init := banners[..n];
      assert UniqueKeys(init) by {
        assert Keys(init) == Keys(banners)[..n];
      }
      BannersKept(init);
      var prev := BannerPairs(init);
      var k := IntToString(banners[n].0);
      forall i | 0 <= i < |prev| ensures prev[i].0 != k {
        FreshBannerKey(banners, i);
      }
      PutAppends(prev, k, VStr(banners[n].1));
      BannerPairsSnoc(banners);
    }
  }

  lemma BannerPairsSnoc(banners: Pairs<int, string>)
    requires |banners| > 0
    ensures var n := |banners| - 1;
      BannerPairs(banners) == BannerPairs(banners[..n]) + [(IntToString(banners[n].0), VStr(banners[n].1))]
  {
    var n := |banners| - 1;
    var a := BannerPairs(banners);
    var b := BannerPairs(banners[..n]) + [(IntToString(banners[n].0), VStr(banners[n].1))];
    forall i | 0 <= i < |a| ensures a[i] == b[i] {
      if i < n {
        assert banners[..n][i] == banners[i];
      }
    }
  }

  lemma FreshBannerKey(banners: Pairs<int, string>, i: nat)
    requires UniqueKeys(banners)
    requires i < |banners| - 1
    ensures IntToString(banners[i].0) != IntToString(banners[|banners| - 1].0)
  {
    var n := |banners| - 1;
    assert Keys(banners)[i] != Keys(banners)[n];
    IntToStringDistinct(banners[i].0, banners[n].0);
  }

  /** Assigning a key not yet present appends it. */
  lemma {:induction false} PutAppends<K, V>(d: Pairs<K, V>, k: K, v: V)
    requires forall i :: 0 <= i < |d| ==> d[i].0 != k
    ensures Put(d, k, v) == d + [(k, v)]
    decreases |d|
  {
    if |d| > 0 {
      assert d[0].0 != k;
      PutAppends(d[1..], k, v);
      assert Put(d, k, v) == [d[0]] + Put(d[1..], k, v);
      ConsSnoc(d, (k, v));
    }
  }

  lemma ConsSnoc<T>(d: seq<T>, x: T)
    requires |d| > 0
    ensures [d[0]] + (d[1..] + [x]) == d + [x]
  {
  }

  /** `fingerprint_dict`: the enrichment fields under their JSON names. */
  function FingerprintDict(dev: DeviceInfo): Raw {
    [("manufacturer", TextValue(dev.manufacturer)),
     ("model", TextValue(dev.model)),
     ("firmware_version", TextValue(dev.firmwareVersion)),
     ("serial_number", TextValue(dev.serialNumber)),
     ("device_url", TextValue(dev.deviceUrl)),
     ("device_category", TextValue(dev.deviceCategory)),
     ("device_tags", VList(seq(|dev.deviceTags|, i requires 0 <= i < |dev.deviceTags| => VStr(dev.deviceTags[i])))),
     ("os_guess", TextValue(dev.osGuess)),
     ("services", VList(seq(|dev.services|, i requires 0 <= i < |dev.services| => VDict(dev.services[i])))),
     ("banners", VDict(BannersValue(dev.banners)))]
  }

  /** The initial counters: one per known protocol, at zero. */
  function InitialCounters(): map<string, nat> {
    map p | p in Protocols :: 0
  }

  /** `counters.get(proto, 0)`. */
  function CounterOf(counters: map<string, nat>, proto: string): nat {
    if proto in counters then counters[proto] else 0
  }

  /** The fingerprint of `dev` set on a raw entry. */
  function WithFingerprint(raw: Raw, dev: DeviceInfo): (r: Raw)
    ensures Get(r, "fingerprint") == Some(VDict(FingerprintDict(dev)))
  {
    Put(raw, "fingerprint", VDict(FingerprintDict(dev)))
  }

  /** One pass of the loop of `apply_enrichment`: the record's protocol
      list gets the fingerprint at the protocol's counter, if the list is
      that long, and the counter moves on. */
  function Attach(results: Results, counters: map<string, nat>, dev: DeviceInfo): (r: (Results, map<string, nat>))
  {
    var proto := dev.protocol;
    var idx := CounterOf(counters, proto);
    var list := ListOf(results, proto);
    var results' :=
      if idx < |list| then Put(results, proto, list[idx := WithFingerprint(list[idx], dev)])
      else results;
    (results', counters[proto := idx + 1])
  }

  function AttachAll(results: Results, counters: map<string, nat>, enriched: seq<DeviceInfo>): (Results, map<string, nat>)
    decreases |enriched|
  {
    if |enriched| == 0 then (results, counters)
    else
      var (r, c) := AttachAll(results, counters, enriched[..|enriched| - 1]);
      Attach(r, c, enriched[|enriched| - 1])
  }

  /** `apply_enrichment`. */
  function ApplyEnrichment(results: Results, enriched: seq<DeviceInfo>): Results {
    AttachAll(results, InitialCounters(), enriched).0
  }

  /** Entry `k` of a list with the fingerprint of the `k`-th record of the
      protocol set, when there is one: the reference the loop is held to. */
  function Fingerprinted(list: seq<Raw>, sel: seq<DeviceInfo>): (r: seq<Raw>)
    ensures |r| == |list|
  {
    seq(|list|, k requires 0 <= k < |list| => if k < |sel| then WithFingerprint(list[k], sel[k]) else list[k])
  }

  /** The loop never adds or removes a protocol key. */
  lemma {:induction false} AttachAllKeys(results: Results, counters: map<string, nat>, enriched: seq<DeviceInfo>)
    ensures Keys(AttachAll(results, counters, enriched).0) == Keys(results)
    decreases |enriched|
  {
    if |enriched| > 0 {
      AttachAllKeys(results, counters, enriched[..|enriched| - 1]);
      var (r, c) := AttachAll(results, counters, enriched[..|enriched| - 1]);
      var proto := enriched[|enriched| - 1].protocol;
      var idx := CounterOf(c, proto);
      var list := ListOf(r, proto);
      if idx < |list| {
        assert Get(r, proto).Some?;
        GetKeys(r, proto);
        PutKeys(r, proto, list[idx := WithFingerprint(list[idx], enriched[|enriched| - 1])]);
      }
    }
  }

  /** One pass keeps, for protocol `p`, the list equal to the reference
      and the counter equal to the number of `p` records seen. */
  lemma AttachAt(results: Results, r: Results, c: map<string, nat>, all: seq<DeviceInfo>, p: string)
    requires |all| > 0
    requires ListOf(r, p) == Fingerprinted(ListOf(results, p), OfProtocol(all[..|all| - 1], p))
    requires CounterOf(c, p) == |OfProtocol(all[..|all| - 1], p)|
    ensures ListOf(Attach(r, c, all[|all| - 1]).0, p) == Fingerprinted(ListOf(results, p), OfProtocol(all, p))
    ensures CounterOf(Attach(r, c, all[|all| - 1]).1, p) == |OfProtocol(all, p)|
  {
    var dev := all[|all| - 1];
    if dev.protocol == p {
      AttachSame(results, r, c, OfProtocol(all[..|all| - 1], p), dev);
    } else {
      var idx := CounterOf(c, dev.protocol);
      var list := ListOf(r, dev.protocol);
      if idx < |list| {
        PutOther(r, dev.protocol, list[idx := WithFingerprint(list[idx], dev)], p);
      }
    }
  }

  lemma AttachSame(results: Results, r: Results, c: map<string, nat>, sel: seq<DeviceInfo>, dev: DeviceInfo)
    requires ListOf(r, dev.protocol) == Fingerprinted(ListOf(results, dev.protocol), sel)
    requires CounterOf(c, dev.protocol) == |sel|
    ensures ListOf(Attach(r, c, dev).0, dev.protocol) == Fingerprinted(ListOf(results, dev.protocol), sel + [dev])
  {
    var list := ListOf(r, dev.protocol);
    var base := ListOf(results, dev.protocol);
    var next := Fingerprinted(base, sel + [dev]);
    if |sel| < |list| {
      assert list[|sel| := WithFingerprint(list[|sel|], dev)] == next;
    } else {
      assert list == next;
    }
  }

  /** The whole loop, for one protocol `p` whose counter starts at zero. */
  lemma {:induction false} AttachAllAt(results: Results, c0: map<string, nat>, enriched: seq<DeviceInfo>, p: string)
    requires CounterOf(c0, p) == 0
    ensures ListOf(AttachAll(results, c0, enriched).0, p) ==
      Fingerprinted(ListOf(results, p), OfProtocol(enriched, p))
    ensures CounterOf(AttachAll(results, c0, enriched).1, p) == |OfProtocol(enriched, p)|
    decreases |enriched|
  {
    if |enriched| == 0 {
      FingerprintedNone(ListOf(results, p));
    } else {
      var init := enriched[..|enriched| - 1];
      AttachAllAt(results, c0, init, p);
      AttachAllStep(results, c0, enriched, p);
    }
  }

  lemma AttachAllStep(results: Results, c0: map<string, nat>, enriched: seq<DeviceInfo>, p: string)
    requires |enriched| > 0
    requires var rc := AttachAll(results, c0, enriched[..|enriched| - 1]);
      && ListOf(rc.0, p) == Fingerprinted(ListOf(results, p), OfProtocol(enriched[..|enriched| - 1], p))
      && CounterOf(rc.1, p) == |OfProtocol(enriched[..|enriched| - 1], p)|
    ensures ListOf(AttachAll(results, c0, enriched).0, p) ==
      Fingerprinted(ListOf(results, p), OfProtocol(enriched, p))
    ensures CounterOf(AttachAll(results, c0, enriched).1, p) == |OfProtocol(enriched, p)|
  {
    var init := enriched[..|enriched| - 1];
    var rc := AttachAll(results, c0, init);
    AttachAt(results, rc.0, rc.1, enriched, p);
  }

  lemma FingerprintedNone(list: seq<Raw>)
    ensures Fingerprinted(list, []) == list
  {
  }

  lemma InitialCountersZero(p: string)
    ensures CounterOf(InitialCounters(), p) == 0
  {
  }

  /** `apply_enrichment` sets the fingerprint of entry `k` of protocol `p`
      from the `k`-th enriched record of `p`; entries past the number of
      such records, lists of other keys and the set of keys are untouched. */
  lemma ApplyByPosition(results: Results, enriched: seq<DeviceInfo>, p: string)
    ensures Keys(ApplyEnrichment(results, enriched)) == Keys(results)
    ensures ListOf(ApplyEnrichment(results, enriched), p) ==
      Fingerprinted(ListOf(results, p), OfProtocol(enriched, p))
  {
    AttachAllKeys(results, InitialCounters(), enriched);
    InitialCountersZero(p);
    AttachAllAt(results, InitialCounters(), enriched, p);
  }
}

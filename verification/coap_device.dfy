/** The device record that `CoAPDiscovery._process_wellknown_response`
    builds from a `/.well-known/core` reply, and the risk flags that
    `_generate_risk_flags` derives from it. Devices are an insertion-ordered
    dictionary keyed by source address. */
module CoapDevice {
  import opened Common
  import opened OrderedMap
  import opened LinkFormat

  const CoapPort: int := 5683

  /** One entry of `resources`; the attribute values are those of the
      parsed link, `None` where the link lacks the attribute. */
  datatype ResourceEntry = ResourceEntry(
    uri: AttrValue,
    rt: Option<AttrValue>,
    ifDesc: Option<AttrValue>,
    ct: Option<AttrValue>,
    observable: bool,
    title: Option<AttrValue>)

  /** The fields of a CoAP device dictionary that this code reads or writes.
      A key the dictionary lacks reads as its falsy default. */
  datatype Device = Device(
    address: string,
    port: int,
    resources: seq<ResourceEntry>,
    observableResources: seq<AttrValue>,
    unauthenticatedAccess: bool,
    deviceType: Option<string>,
    firmware: Option<string>,
    rawLinkFormat: Option<string>,
    dtlsSupported: Option<bool>,
    riskFlags: seq<string>)

  type Devices = Pairs<string, Device>

  /** The result of a step that may raise an uncaught exception. */
  datatype Outcome<T> = Raised | Done(value: T)

  /** The dictionary `setdefault` inserts for a new source address. */
  function NewDevice(ip: string): Device {
    Device(ip, CoapPort, [], [], false, None, None, None, None, [])
  }

  /** `devices.setdefault(ip, {...})`: the existing record when there is one. */
  function DeviceAt(devices: Devices, ip: string): (d: Device)
    ensures ip !in Keys(devices) ==> d == NewDevice(ip)
    ensures ip in Keys(devices) ==> Get(devices, ip) == Some(d)
  {
    GetKeys(devices, ip);
    match Get(devices, ip)
    case Some(d) => d
    case None => NewDevice(ip)
  }

  /** The `resource_entry` built for one parsed link. */
  function EntryOf(res: Resource): (r: ResourceEntry)
    ensures r.observable <==> "obs" in Keys(res)
    ensures "uri" in Keys(res) ==> Some(r.uri) == Get(res, "uri")
    ensures r.rt == Get(res, "rt") && r.ifDesc == Get(res, "if")
    ensures r.ct == Get(res, "ct") && r.title == Get(res, "title")
  {
    GetKeys(res, "obs");
    GetKeys(res, "uri");
    ResourceEntry(
      match Get(res, "uri") case Some(u) => u case None => Text(""),
      Get(res, "rt"),
      Get(res, "if"),
      Get(res, "ct"),
      Get(res, "obs").Some?,
      Get(res, "title"))
  }

  /** The entries of all parsed links, in order. */
  function Entries(parsed: seq<Resource>): (r: seq<ResourceEntry>)
    ensures |r| == |parsed|
    ensures forall i :: 0 <= i < |r| ==> r[i] == EntryOf(parsed[i])
  {
    seq(|parsed|, i requires 0 <= i < |parsed| => EntryOf(parsed[i]))
  }

  lemma EntriesCons(parsed: seq<Resource>)
    requires |parsed| > 0
    ensures Entries(parsed) == [EntryOf(parsed[0])] + Entries(parsed[1..])
  {
  }

  /** Reference definition: the URIs of the observable entries, in order. */
  function ObservableUris(entries: seq<ResourceEntry>): (r: seq<AttrValue>)
    ensures |r| <= |entries|
  {
    if |entries| == 0 then []
    else (if entries[0].observable then [entries[0].uri] else []) + ObservableUris(entries[1..])
  }

  // ---------------------------------------------------------------------
  // Device-type inference
  // ---------------------------------------------------------------------

  /** One step of the inference over a text `rt`. */
  function TypeFromText(acc: Option<string>, rt: string): Option<string> {
    if rt == "" then acc
    else if Contains(rt, "oic.d.") then Some(LastPiece(rt, "oic.d."))
    else if Contains(Lower(rt), "temperature") then Or(acc, Some("sensor"))
    else if Contains(Lower(rt), "light") then Or(acc, Some("light"))
    else acc
  }

  /** The step as written: `rt` defaults to `""`, and a bare `;rt` yields
      `True`, on which the `in` test raises a `TypeError` that nothing
      catches. */
  function TypeStepAsWritten(acc: Option<string>, rt: Option<AttrValue>): (r: Outcome<Option<string>>)
    ensures r.Raised? <==> rt == Some(Flag)
  {
    match rt
    case None => Done(acc)
    case Some(Flag) => Raised
    case Some(Text(t)) => Done(TypeFromText(acc, t))
  }

  /** The step as intended: an `rt` that is not text names no type. */
  function TypeStep(acc: Option<string>, rt: Option<AttrValue>): (r: Option<string>)
    ensures rt != Some(Flag) ==> TypeStepAsWritten(acc, rt) == Done(r)
    ensures rt == Some(Flag) ==> r == acc
  {
    match rt
    case Some(Text(t)) => TypeFromText(acc, t)
    case _ => acc
  }

  /** The text of an `rt` that contains `oic.d.`. */
  predicate OicType(rt: Option<AttrValue>) {
    rt.Some? && rt.value.Text? && Contains(rt.value.text, "oic.d.")
  }

  /** The device type the loop infers from the `rt` values in order. */
  function InferType(acc: Option<string>, rts: seq<Option<AttrValue>>): Option<string>
    decreases |rts|
  {
    if |rts| == 0 then acc else InferType(TypeStep(acc, rts[0]), rts[1..])
  }

  /** The same, as written: it raises at the first bare `rt`. */
  function InferTypeAsWritten(acc: Option<string>, rts: seq<Option<AttrValue>>): Outcome<Option<string>>
    decreases |rts|
  {
    if |rts| == 0 then Done(acc)
    else
      match TypeStepAsWritten(acc, rts[0])
      case Raised => Raised
      case Done(t) => InferTypeAsWritten(t, rts[1..])
  }

  /** The `rt` value of every parsed link, `None` where it has none. */
  function RtsOf(parsed: seq<Resource>): (r: seq<Option<AttrValue>>)
    ensures |r| == |parsed|
    ensures forall i :: 0 <= i < |r| ==> r[i] == Get(parsed[i], "rt")
  {
    seq(|parsed|, i requires 0 <= i < |parsed| => Get(parsed[i], "rt"))
  }

  /** Some parsed link carries a bare `rt`. */
  predicate HasBareRt(parsed: seq<Resource>) {
    exists i :: 0 <= i < |parsed| && Get(parsed[i], "rt") == Some(Flag)
  }

  /** The `observable` list as the loop builds it, appending to `acc`. */
  function ObservableLoop(entries: seq<ResourceEntry>, acc: seq<AttrValue>): seq<AttrValue>
    decreases |entries|
  {
    if |entries| == 0 then acc
    else if entries[0].observable then ObservableLoop(entries[1..], acc + [entries[0].uri])
    else ObservableLoop(entries[1..], acc)
  }

  // ---------------------------------------------------------------------
  // Processing one reply
  // ---------------------------------------------------------------------

  /** The record after a non-empty parse, written over the `setdefault`
      record. */
  function Populate(dev: Device, parsed: seq<Resource>, deviceType: Option<string>, payload: string): Device {
    var entries := Entries(parsed);
    dev.(resources := entries, observableResources := ObservableLoop(entries, []),
         unauthenticatedAccess := true, deviceType := deviceType,
         firmware := None, rawLinkFormat := Some(payload))
  }

  /** `_process_wellknown_response` as intended (a bare `rt` is ignored). */
  function ProcessWellknown(devices: Devices, ip: string, payload: string): (r: Devices)
    ensures ParseLinkFormat(payload) == [] ==> r == devices
    ensures ParseLinkFormat(payload) != [] ==> Get(r, ip).Some?
    ensures ip in Keys(devices) ==> Keys(r) == Keys(devices)
    ensures ip !in Keys(devices) && ParseLinkFormat(payload) != [] ==> Keys(r) == Keys(devices) + [ip]
  {
    var parsed := ParseLinkFormat(payload);
    if parsed == [] then devices
    else
      var dev := Populate(DeviceAt(devices, ip), parsed, InferType(None, RtsOf(parsed)), payload);
      PutKeys(devices, ip, dev);
      Put(devices, ip, dev)
  }

  /** `_process_wellknown_response` as written: the exception escapes, so
      no device list comes back. */
  function ProcessWellknownAsWritten(devices: Devices, ip: string, payload: string): Outcome<Devices> {
    var parsed := ParseLinkFormat(payload);
    if parsed == [] then Done(devices)
    else
      match InferTypeAsWritten(None, RtsOf(parsed))
      case Raised => Raised
      case Done(t) => Done(Put(devices, ip, Populate(DeviceAt(devices, ip), parsed, t, payload)))
  }

  // ---------------------------------------------------------------------
  // Risk flags
  // ---------------------------------------------------------------------

  const CoapFlags: seq<string> := ["unauthenticated_access", "no_dtls", "observable_data_leak"]

  /** `_generate_risk_flags`: the flags a device earns. */
  function RiskFlags(dev: Device): (r: seq<string>)
    ensures Subsequence(r, CoapFlags)
    ensures "unauthenticated_access" in r <==> dev.unauthenticatedAccess
    ensures "no_dtls" in r <==> dev.dtlsSupported != Some(true)
    ensures "observable_data_leak" in r <==> |dev.observableResources| > 0
  {
    var a := if dev.unauthenticatedAccess then ["unauthenticated_access"] else [];
    var b := if dev.dtlsSupported != Some(true) then ["no_dtls"] else [];
    var c := if |dev.observableResources| > 0 then ["observable_data_leak"] else [];
    assert Subsequence(a + b + c, CoapFlags) by {
      assert CoapFlags[1..] == ["no_dtls", "observable_data_leak"];
      assert CoapFlags[1..][1..] == ["observable_data_leak"];
      assert Subsequence(c, ["observable_data_leak"]);
      assert Subsequence(b + c, CoapFlags[1..]) by {
        if |b| > 0 { assert (b + c)[1..] == c; }
      }
      if |a| > 0 { assert (a + b + c)[1..] == b + c; }
      else { assert a + b + c == b + c; }
    }
    a + b + c
  }

  /** The results loop of `discover`: each record, in dictionary order,
      carries its risk flags. */
  function FinalResults(devices: Devices): (r: seq<Device>)
    ensures |r| == |devices|
    ensures forall i :: 0 <= i < |r| ==>
      r[i].riskFlags == RiskFlags(devices[i].1) && r[i] == devices[i].1.(riskFlags := r[i].riskFlags)
  {
    seq(|devices|, i requires 0 <= i < |devices| => devices[i].1.(riskFlags := RiskFlags(devices[i].1)))
  }

  /** The replies of the multicast and unicast phases, handled in order:
      each is a source address and its `/.well-known/core` payload. */
  function ProcessAll(devices: Devices, replies: seq<(string, string)>): Devices
    decreases |replies|
  {
    if |replies| == 0 then devices
    else ProcessAll(ProcessWellknown(devices, replies[0].0, replies[0].1), replies[1..])
  }

  /** Some reply from `a` carries at least one link. */
  predicate Announced(replies: seq<(string, string)>, a: string) {
    exists k :: 0 <= k < |replies| && replies[k].0 == a && ParseLinkFormat(replies[k].1) != []
  }

  /** The addresses of the results, in order. */
  function AddressesOf(results: seq<Device>): (r: seq<string>)
    ensures |r| == |results|
    ensures forall i :: 0 <= i < |r| ==> r[i] == results[i].address
  {
    seq(|results|, i requires 0 <= i < |results| => results[i].address)
  }

  /** Every record sits under its own address. */
  predicate Keyed(devices: Devices) {
    forall i :: 0 <= i < |devices| ==> devices[i].1.address == devices[i].0
  }

  // ---------------------------------------------------------------------
  // Properties
  // ---------------------------------------------------------------------

  /** The loop's appends build exactly the observable URIs in order. */
  lemma {:induction false} ObservableLoopMatches(entries: seq<ResourceEntry>, acc: seq<AttrValue>)
    ensures ObservableLoop(entries, acc) == acc + ObservableUris(entries)
    decreases |entries|
  {
    if |entries| > 0 {
      if entries[0].observable {
        ObservableLoopMatches(entries[1..], acc + [entries[0].uri]);
      } else {
        ObservableLoopMatches(entries[1..], acc);
      }
    }
  }

  /** An observable entry's URI is listed. */
  lemma {:induction false} ObservableListed(entries: seq<ResourceEntry>, i: nat)
    requires i < |entries| && entries[i].observable
    ensures entries[i].uri in ObservableUris(entries)
    decreases i
  {
    if i > 0 {
      ObservableListed(entries[1..], i - 1);
    }
  }

  /** Only URIs of observable entries are listed. */
  lemma {:induction false} ObservableOnly(entries: seq<ResourceEntry>, u: AttrValue)
    requires u in ObservableUris(entries)
    ensures exists i :: 0 <= i < |entries| && entries[i].observable && entries[i].uri == u
    decreases |entries|
  {
    if !(entries[0].observable && entries[0].uri == u) {
      assert u in ObservableUris(entries[1..]);
      ObservableOnly(entries[1..], u);
      var i :| 0 <= i < |entries[1..]| && entries[1..][i].observable && entries[1..][i].uri == u;
      assert entries[i + 1] == entries[1..][i];
    }
  }

  /** What a non-empty reply writes into the record for its source. */
  lemma ProcessedRecord(devices: Devices, ip: string, payload: string)
    requires ParseLinkFormat(payload) != []
    ensures var parsed := ParseLinkFormat(payload);
      var d := Get(ProcessWellknown(devices, ip, payload), ip).value;
      var old_ := DeviceAt(devices, ip);
      && d.resources == Entries(parsed)
      && d.observableResources == ObservableUris(Entries(parsed))
      && d.unauthenticatedAccess
      && d.deviceType == InferType(None, RtsOf(parsed))
      && d.firmware == None
      && d.rawLinkFormat == Some(payload)
      && d.address == old_.address && d.port == old_.port
      && d.dtlsSupported == old_.dtlsSupported
  {
    ObservableLoopMatches(Entries(ParseLinkFormat(payload)), []);
  }

  /** Another source's record is untouched. */
  lemma ProcessOtherUnchanged(devices: Devices, ip: string, payload: string, other: string)
    requires other != ip
    ensures Get(ProcessWellknown(devices, ip, payload), other) == Get(devices, other)
  {
    var parsed := ParseLinkFormat(payload);
    if parsed != [] {
      PutOther(devices, ip, Populate(DeviceAt(devices, ip), parsed, InferType(None, RtsOf(parsed)), payload), other);
    }
  }

  /** Processing keeps the dictionary well-formed. */
  lemma ProcessUnique(devices: Devices, ip: string, payload: string)
    requires UniqueKeys(devices)
    ensures UniqueKeys(ProcessWellknown(devices, ip, payload))
  {
    var parsed := ParseLinkFormat(payload);
    if parsed != [] {
      PutUnique(devices, ip, Populate(DeviceAt(devices, ip), parsed, InferType(None, RtsOf(parsed)), payload));
    }
  }

  /** The written inference raises exactly when some `rt` is bare, and
      otherwise agrees with the intended one. */
  lemma {:induction false} InferAsWrittenAgrees(acc: Option<string>, rts: seq<Option<AttrValue>>)
    ensures (exists i :: 0 <= i < |rts| && rts[i] == Some(Flag)) ==> InferTypeAsWritten(acc, rts) == Raised
    ensures (forall i :: 0 <= i < |rts| ==> rts[i] != Some(Flag)) ==> InferTypeAsWritten(acc, rts) == Done(InferType(acc, rts))
    decreases |rts|
  {
    if |rts| > 0 {
      if rts[0] == Some(Flag) {
      } else {
        InferAsWrittenAgrees(TypeStep(acc, rts[0]), rts[1..]);
        if exists i :: 0 <= i < |rts| && rts[i] == Some(Flag) {
          var i :| 0 <= i < |rts| && rts[i] == Some(Flag);
          assert rts[1..][i - 1] == Some(Flag);
        }
      }
    }
  }

  /** The processing as written raises exactly on a non-empty parse with a
      bare `rt`, and otherwise gives the intended devices. */
  lemma ProcessAsWrittenAgrees(devices: Devices, ip: string, payload: string)
    ensures ParseLinkFormat(payload) != [] && HasBareRt(ParseLinkFormat(payload)) ==>
      ProcessWellknownAsWritten(devices, ip, payload) == Raised
    ensures !(ParseLinkFormat(payload) != [] && HasBareRt(ParseLinkFormat(payload))) ==>
      ProcessWellknownAsWritten(devices, ip, payload) == Done(ProcessWellknown(devices, ip, payload))
  {
    var parsed := ParseLinkFormat(payload);
    InferAsWrittenAgrees(None, RtsOf(parsed));
    if HasBareRt(parsed) {
      var i :| 0 <= i < |parsed| && Get(parsed[i], "rt") == Some(Flag);
      assert RtsOf(parsed)[i] == Some(Flag);
    }
  }

  /** The inference over one more `rt` is one more step. */
  lemma {:induction false} InferSnoc(acc: Option<string>, rts: seq<Option<AttrValue>>, rt: Option<AttrValue>)
    ensures InferType(acc, rts + [rt]) == TypeStep(InferType(acc, rts), rt)
    decreases |rts|
  {
    if |rts| == 0 {
      assert (rts + [rt])[1..] == [];
    } else {
      InferSnoc(TypeStep(acc, rts[0]), rts[1..], rt);
      assert (rts + [rt])[1..] == rts[1..] + [rt];
    }
  }

  /** A last `rt` naming an `oic.d.` type decides the device type. */
  lemma LastOicWins(acc: Option<string>, rts: seq<Option<AttrValue>>, rt: Option<AttrValue>)
    requires OicType(rt)
    ensures InferType(acc, rts + [rt]) == Some(LastPiece(rt.value.text, "oic.d."))
  {
    InferSnoc(acc, rts, rt);
  }

  /** Once a type is set, only an `oic.d.` type replaces it: the sensor and
      light hints never overwrite. */
  lemma {:induction false} TypeKept(acc: Option<string>, rts: seq<Option<AttrValue>>)
    requires Truthy(acc)
    requires forall i :: 0 <= i < |rts| ==> !OicType(rts[i])
    ensures InferType(acc, rts) == acc
    decreases |rts|
  {
    if |rts| > 0 {
      assert !OicType(rts[0]);
      assert TypeStep(acc, rts[0]) == acc;
      TypeKept(acc, rts[1..]);
    }
  }

  /** An `rt` that gives a hint: non-empty text naming an `oic.d.` type or
      mentioning a temperature or a light. */
  predicate TypeHint(rt: Option<AttrValue>) {
    rt.Some? && rt.value.Text? && rt.value.text != "" &&
    (Contains(rt.value.text, "oic.d.") ||
     Contains(Lower(rt.value.text), "temperature") ||
     Contains(Lower(rt.value.text), "light"))
  }

  /** Without a hint the device type stays as it was (`None` for a new
      reply). */
  lemma {:induction false} NoHintNoType(acc: Option<string>, rts: seq<Option<AttrValue>>)
    requires forall i :: 0 <= i < |rts| ==> !TypeHint(rts[i])
    ensures InferType(acc, rts) == acc
    decreases |rts|
  {
    if |rts| > 0 {
      assert !TypeHint(rts[0]);
      assert TypeStep(acc, rts[0]) == acc;
      NoHintNoType(acc, rts[1..]);
    }
  }

  /** The `rt` values of a single link whose `rt` is bare. */
  lemma OneBareRt(parsed: seq<Resource>, uri: string)
    requires parsed == [[("uri", Text(uri)), ("rt", Flag)]]
    ensures RtsOf(parsed) == [Some(Flag)]
  {
    assert Get(parsed[0], "rt") == Some(Flag);
  }

  /** A reply whose only `rt` is bare makes the processing as written
      raise. */
  lemma OneBareRtRaises(devices: Devices, ip: string, payload: string)
    requires RtsOf(ParseLinkFormat(payload)) == [Some(Flag)]
    ensures ProcessWellknownAsWritten(devices, ip, payload) == Raised
  {
  }

  /** The intended processing records that link with no device type. */
  lemma OneBareRtIgnored(devices: Devices, ip: string, payload: string)
    requires RtsOf(ParseLinkFormat(payload)) == [Some(Flag)]
    ensures Get(ProcessWellknown(devices, ip, payload), ip).value.deviceType == None
  {
    ProcessedRecord(devices, ip, payload);
    assert InferType(None, [Some(Flag)]) == None by {
      assert [Some(Flag)][1..] == [];
    }
  }

  /** The reply `</a>;rt` is such a reply. */
  lemma BareRtRaises(devices: Devices, ip: string)
    ensures ProcessWellknownAsWritten(devices, ip, "</a>;rt") == Raised
    ensures Get(ProcessWellknown(devices, ip, "</a>;rt"), ip).value.deviceType == None
  {
    BareRtExample("</a>;rt");
    OneBareRt(ParseLinkFormat("</a>;rt"), "/a");
    OneBareRtRaises(devices, ip, "</a>;rt");
    OneBareRtIgnored(devices, ip, "</a>;rt");
  }

  /** Processing a reply keeps every record under its own address: the
      record it writes is the `setdefault` one for the source address. */
  lemma ProcessKeyed(devices: Devices, ip: string, payload: string)
    requires Keyed(devices)
    ensures Keyed(ProcessWellknown(devices, ip, payload))
  {
    var parsed := ParseLinkFormat(payload);
    if parsed != [] {
      var old_ := DeviceAt(devices, ip);
      var dev := Populate(old_, parsed, InferType(None, RtsOf(parsed)), payload);
      assert dev.address == ip by {
        if ip in Keys(devices) {
          GetKeys(devices, ip);
          var j :| 0 <= j < |devices| && devices[j] == (ip, old_);
        }
      }
      PutEntries(devices, ip, dev);
      var r := Put(devices, ip, dev);
      forall i | 0 <= i < |r|
        ensures r[i].1.address == r[i].0
      {
        if r[i] != (ip, dev) {
          var j :| 0 <= j < |devices| && devices[j] == r[i];
        }
      }
    }
  }

  /** A run of replies from an empty start leaves a well-formed dictionary
      with every record under its own address, holding exactly the
      addresses that sent a reply with at least one link. */
  lemma {:induction false} ProcessAllKeyed(devices: Devices, replies: seq<(string, string)>)
    requires Keyed(devices) && UniqueKeys(devices)
    ensures var r := ProcessAll(devices, replies);
      && Keyed(r) && UniqueKeys(r)
      && forall a :: a in Keys(r) <==> a in Keys(devices) || Announced(replies, a)
    decreases |replies|
  {
    if |replies| > 0 {
      var (ip, payload) := replies[0];
      var next := ProcessWellknown(devices, ip, payload);
      ProcessKeyed(devices, ip, payload);
      ProcessUnique(devices, ip, payload);
      ProcessAllKeyed(next, replies[1..]);
      var r := ProcessAll(next, replies[1..]);
      forall a
        ensures a in Keys(r) <==> a in Keys(devices) || Announced(replies, a)
      {
        assert a in Keys(next) <==> a in Keys(devices) || (a == ip && ParseLinkFormat(payload) != []);
        if Announced(replies[1..], a) {
          var k :| 0 <= k < |replies[1..]| && replies[1..][k].0 == a && ParseLinkFormat(replies[1..][k].1) != [];
          assert replies[k + 1] == replies[1..][k];
        }
        if Announced(replies, a) {
          var k :| 0 <= k < |replies| && replies[k].0 == a && ParseLinkFormat(replies[k].1) != [];
          if k > 0 {
            assert replies[1..][k - 1] == replies[k];
          } else {
            assert a == ip && ParseLinkFormat(payload) != [];
          }
        }
      }
    }
  }

  /** The results loop gives one result per stored address, in dictionary
      order, each carrying that address, so the loop's
      `setdefault("address", ip)` never changes a record. */
  lemma FinalOnePerAddress(devices: Devices)
    requires Keyed(devices) && UniqueKeys(devices)
    ensures var r := FinalResults(devices);
      && |r| == |devices|
      && (forall i :: 0 <= i < |r| ==> r[i].address == Keys(devices)[i])
      && (forall i, j :: 0 <= i < j < |r| ==> r[i].address != r[j].address)
  {
  }

  /** `discover` over a run of replies: one result per address that sent a
      reply with at least one link, and no address twice. */
  lemma DiscoverOnePerAddress(replies: seq<(string, string)>)
    ensures var r := AddressesOf(FinalResults(ProcessAll([], replies)));
      && NoDup(r)
      && forall a :: a in r <==> Announced(replies, a)
  {
    var devices := ProcessAll([], replies);
    ProcessAllKeyed([], replies);
    FinalOnePerAddress(devices);
    var r := AddressesOf(FinalResults(devices));
    assert r == Keys(devices);
  }
}

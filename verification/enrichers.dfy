/** The per-protocol field selection of `protocols/enrichment.py`: the
    UPnP description fetch behind its address gate, the mDNS TXT key
    priorities and the ONVIF scope parsing of WS-Discovery. */
module Enrichers {
  import opened Common
  import opened OrderedMap
  import opened DeviceModel
  import opened Enrichment
  import Ssdp

  // ---------------------------------------------------------------------
  // UPnP device description
  // ---------------------------------------------------------------------

  /** The body size cap of the description fetch, in bytes. */
  const MaxBytes: nat := 1024 * 1024

  /** The reply to the streamed GET: what it raised, or the status, the
      `Content-Type` header, the sizes of the chunks read in order and the
      decoded body. */
  datatype Reply =
    | GetRaised(message: string)
    | Got(status: int, contentType: Option<string>, chunks: seq<nat>, body: string)

  /** A `<device>` node: the raw text of each child element (`None` when
      the element is missing or has no text) and the `serviceType` texts of
      the `<service>` entries of its `serviceList`, in order. */
  datatype Description = Description(child: string -> Option<string>, serviceTypes: seq<string>)

  /** The XML parse: what it raised, or a document with or without a
      `<device>` node. */
  datatype Document = XmlRaised(message: string) | XmlDoc(device: Option<Description>)

  /** The foreign code the enricher relies on. */
  datatype DeepNet = DeepNet(
    resolver: Ssdp.Resolver,
    get: string -> Reply,
    parseXml: string -> Document)

  /** Total of the chunk sizes. */
  function Sum(xs: seq<nat>): nat
    decreases |xs|
  {
    if |xs| == 0 then 0 else Sum(xs[..|xs| - 1]) + xs[|xs| - 1]
  }

  lemma {:induction false} SumPrefix(xs: seq<nat>, k: nat)
    requires k <= |xs|
    ensures Sum(xs[..k]) <= Sum(xs)
    decreases |xs|
  {
    if k < |xs| {
      var init := xs[..|xs| - 1];
      assert xs[..k] == init[..k];
      SumPrefix(init, k);
    } else {
      assert xs[..k] == xs;
    }
  }

  /** The streaming loop: add up the chunk sizes and give up as soon as
      the running total passes the cap. Because sizes are never negative,
      it reads the whole body exactly when the total is within the cap. */
  method ReadCapped(chunks: seq<nat>) returns (fits: bool)
    ensures fits <==> Sum(chunks) <= MaxBytes
  {
    var total := 0;
    var i := 0;
    while i < |chunks|
      invariant 0 <= i <= |chunks|
      invariant total == Sum(chunks[..i])
      invariant total <= MaxBytes
    {
      assert chunks[..i + 1][..i] == chunks[..i];
      total := total + chunks[i];
      if total > MaxBytes {
        SumPrefix(chunks, i + 1);
        return false;
      }
      i := i + 1;
    }
    assert chunks[..i] == chunks;
    return true;
  }

  /** `LOCATION` as text; a missing entry reads as empty. */
  function LocationOf(d: DeviceInfo): string {
    match GetValue(d.rawData, "LOCATION", VStr(""))
    case VStr(s) => s
    case _ => ""
  }

  /** `can_enrich` of the UPnP enricher. */
  predicate UpnpCanEnrich(d: DeviceInfo) {
    d.protocol == "upnp" && IsTrue(GetValue(d.rawData, "LOCATION", VNone))
  }

  /** `_text(tag)`: the stripped text of a child element with non-empty
      text. */
  function Text(desc: Description, tag: string): (r: Option<string>)
    ensures r.Some? <==> desc.child(tag).Some? && desc.child(tag).value != ""
    ensures r.Some? ==> r.value == Strip(desc.child(tag).value)
  {
    match desc.child(tag)
    case Some(t) => if t != "" then Some(Strip(t)) else None
    case None => None
  }

  /** The identity fields a description sets. */
  function DescribeFields(d: DeviceInfo, desc: Description, location: string): (r: DeviceInfo)
    ensures Truthy(d.friendlyName) ==> r.friendlyName == d.friendlyName
    ensures !Truthy(d.friendlyName) ==> r.friendlyName == Text(desc, "friendlyName")
    ensures r.manufacturer == Text(desc, "manufacturer")
    ensures Truthy(Text(desc, "modelName")) ==> r.model == Text(desc, "modelName")
    ensures !Truthy(Text(desc, "modelName")) ==> r.model == Text(desc, "modelNumber")
    ensures Truthy(Text(desc, "firmwareVersion")) ==> r.firmwareVersion == Text(desc, "firmwareVersion")
    ensures !Truthy(Text(desc, "firmwareVersion")) && Truthy(Text(desc, "modelNumber")) && Truthy(Text(desc, "modelName"))
      ==> r.firmwareVersion == Text(desc, "modelNumber")
    ensures !Truthy(Text(desc, "firmwareVersion")) && !(Truthy(Text(desc, "modelNumber")) && Truthy(Text(desc, "modelName")))
      ==> r.firmwareVersion == d.firmwareVersion
    ensures Truthy(Text(desc, "serialNumber")) ==> r.serialNumber == Text(desc, "serialNumber")
    ensures !Truthy(Text(desc, "serialNumber")) ==> r.serialNumber == Text(desc, "UDN")
    ensures Truthy(Text(desc, "presentationURL")) ==> r.deviceUrl == Text(desc, "presentationURL")
    ensures !Truthy(Text(desc, "presentationURL")) && Truthy(Text(desc, "URLBase")) ==> r.deviceUrl == Text(desc, "URLBase")
    ensures !Truthy(Text(desc, "presentationURL")) && !Truthy(Text(desc, "URLBase")) ==> r.deviceUrl == Some(location)
    ensures r.(friendlyName := d.friendlyName, manufacturer := d.manufacturer, model := d.model,
               firmwareVersion := d.firmwareVersion, serialNumber := d.serialNumber, deviceUrl := d.deviceUrl) == d
  {
    var modelName := Text(desc, "modelName");
    var modelNumber := Text(desc, "modelNumber");
    var fw := Text(desc, "firmwareVersion");
    d.(friendlyName := Or(d.friendlyName, Text(desc, "friendlyName")),
       manufacturer := Text(desc, "manufacturer"),
       model := Or(modelName, modelNumber),
       firmwareVersion :=
         if Truthy(fw) then fw
         else if Truthy(modelNumber) && Truthy(modelName) then modelNumber
         else d.firmwareVersion,
       serialNumber := Or(Text(desc, "serialNumber"), Text(desc, "UDN")),
       deviceUrl := Or(Text(desc, "presentationURL"), Or(Text(desc, "URLBase"), Some(location))))
  }

  /** `parsed.port or (443 if https else 80)`: a port of 0 counts as
      missing; a port `urlparse` cannot read raises. */
  function ServicePort(u: Ssdp.Url): (r: Ssdp.Call<int>)
    ensures u.port.BadPort? <==> r.Raises?
    ensures u.port.PortNumber? && u.port.number != 0 ==> r == Ssdp.Returns(u.port.number)
    ensures r.Returns? && !(u.port.PortNumber? && u.port.number != 0) ==>
      r.value == (if u.scheme == "https" then 443 else 80)
  {
    match u.port
    case BadPort(m) => Ssdp.Raises(m)
    case PortNumber(n) => if n != 0 then Ssdp.Returns(n) else Ssdp.Returns(if u.scheme == "https" then 443 else 80)
    case NoPort => Ssdp.Returns(if u.scheme == "https" then 443 else 80)
  }

  /** A colon in the text means the colon separator occurs. */
  lemma ColonOccurs(t: string)
    requires ':' in t
    ensures IndexOf(t, ":").Some?
  {
    var j :| 0 <= j < |t| && t[j] == ':';
    assert t[j..j + 1] == ":";
    assert OccursAt(t, ":", j);
  }

  /** With the separator present the split has at least two pieces. */
  lemma SplitTwoPieces(t: string, sep: string)
    requires |sep| > 0 && IndexOf(t, sep).Some?
    ensures |SplitOn(t, sep)| >= 2
  {
    SplitOnUnfold(t, sep, IndexOf(t, sep).value);
  }

  /** With a colon present, the next-to-last piece of the split sits
      between a prefix that is empty or ends at a colon and a colon-free
      last piece. */
  lemma ColonPieces(t: string)
    requires ':' in t
    ensures var pieces := SplitOn(t, ":");
      |pieces| >= 2 &&
      exists p, q :: t == p + pieces[|pieces| - 2] + ":" + q && ':' !in q && (p == "" || p[|p| - 1] == ':')
  {
    ColonOccurs(t);
    SplitTwoPieces(t, ":");
    var pieces := SplitOn(t, ":");
    var n := |pieces|;
    var init, mid, q := pieces[..n - 2], pieces[n - 2], pieces[n - 1];
    var p := if |init| == 0 then "" else Join(init, ":") + ":";
    assert t == p + mid + ":" + q by {
      JoinSplitOn(t, ":");
      JoinLastTwo(pieces, ":");
    }
    assert ':' !in q by {
      SplitOnPiecesAvoidSep(t, ":");
      assert !Contains(pieces[n - 1], ":");
      if ':' in q {
        ColonOccurs(q);
      }
    }
    assert p == "" || p[|p| - 1] == ':';
  }

  /** `svc_type.split(":")[-2] if ":" in svc_type else svc_type`: for a
      type such as `urn:schemas-upnp-org:service:AVTransport:1`, the piece
      between the last two colons. */
  function ShortName(t: string): (r: string)
    ensures ':' !in t ==> r == t
    ensures ':' in t ==> !Contains(r, ":")
    ensures ':' in t ==> exists p, q :: t == p + r + ":" + q && ':' !in q && (p == "" || p[|p| - 1] == ':')
  {
    if ':' in t then
      ColonPieces(t);
      SplitOnPiecesAvoidSep(t, ":");
      var pieces := SplitOn(t, ":");
      pieces[|pieces| - 2]
    else t
  }

  /** One service entry per non-empty service type, in order. */
  function ServicesOf(types: seq<string>, port: int, tls: bool): (r: seq<Raw>)
    ensures |r| <= |types|
    ensures (forall k :: 0 <= k < |types| ==> types[k] == "") ==> r == []
    decreases |types|
  {
    if |types| == 0 then []
    else
      var n := |types| - 1;
      var init := ServicesOf(types[..n], port, tls);
      if types[n] != "" then init + [ServiceEntry(port, ShortName(types[n]), types[n], VBool(tls))] else init
  }

  /** The error text the enricher records itself. */
  function DeepError(message: string): string {
    "upnp_deep: " + message
  }

  /** Everything after the address gate: the GET, its guards and the
      description. An error inside the `try` is recorded on the record as
      it stands at that point and the record is returned. */
  function Fetch(d: DeviceInfo, location: string, u: Ssdp.Url, net: DeepNet): DeviceInfo {
    match net.get(location)
    case GetRaised(m) => WithError(d, DeepError(m))
    case Got(status, ct, chunks, body) =>
      if status != 200 then d
      else if !Contains(Lower(ct.GetOr("")), "xml") then d
      else if Sum(chunks) > MaxBytes then d
      else
        match net.parseXml(body)
        case XmlRaised(m) => WithError(d, DeepError(m))
        case XmlDoc(None) => d
        case XmlDoc(Some(desc)) => Describe(d, desc, location, u)
  }

  /** A description read: the identity fields, then one service per
      non-empty service type. The port of a service is read only when
      there is one to add; when it raises, the fields stay set and the
      error is recorded. */
  function Describe(d: DeviceInfo, desc: Description, location: string, u: Ssdp.Url): (r: DeviceInfo)
    ensures SameIdentity(r, DescribeFields(d, desc, location))
    ensures IsPrefix(d.services, r.services)
  {
    var named := DescribeFields(d, desc, location);
    var types := desc.serviceTypes;
    if forall k :: 0 <= k < |types| ==> types[k] == "" then named
    else
      match ServicePort(u)
      case Raises(m) => WithError(named, DeepError(m))
      case Returns(port) => named.(services := named.services + ServicesOf(types, port, u.scheme == "https"))
  }

  /** `UPnPDeepEnricher.enrich`: no location, or a URL the gate refuses,
      leaves the record as it is; a raise from `urlparse` escapes to the
      pipeline. */
  function UpnpDeep(d: DeviceInfo, net: DeepNet): (r: Step)
    ensures LocationOf(d) == "" ==> r == Returned(d)
    ensures LocationOf(d) != "" && net.resolver.urlParse(LocationOf(d)).Raises? ==>
      r == Raised(net.resolver.urlParse(LocationOf(d)).message, d)
    ensures r.Raised? ==> r.device == d
    ensures r.device != d ==> LocationOf(d) != "" && Ssdp.SafeTarget(LocationOf(d), net.resolver)
  {
    var location := LocationOf(d);
    if location == "" then Returned(d)
    else
      match net.resolver.urlParse(location)
      case Raises(m) => Raised(m, d)
      case Returns(u) =>
        if !Ssdp.SafeUrl(u, net.resolver) then Returned(d)
        else Returned(Fetch(d, location, u, net))
  }

  /** All the conditions under which the fetched description is used: a
      location the gate accepts, a 200 reply of an XML type, and a body
      within the cap. */
  predicate DeepReady(d: DeviceInfo, net: DeepNet) {
    var location := LocationOf(d);
    && location != ""
    && Ssdp.SafeTarget(location, net.resolver)
    && net.get(location).Got?
    && net.get(location).status == 200
    && Contains(Lower(net.get(location).contentType.GetOr("")), "xml")
    && Sum(net.get(location).chunks) <= MaxBytes
  }

  /** Unless every condition holds, no field of the record changes: only
      an error from a failed GET may be added. */
  lemma DeepUntouched(d: DeviceInfo, net: DeepNet)
    requires !DeepReady(d, net)
    ensures UpnpDeep(d, net).device.(enrichmentErrors := d.enrichmentErrors) == d
    ensures !net.get(LocationOf(d)).GetRaised? ==> UpnpDeep(d, net).device == d
  {
  }

  /** When every condition holds and the XML has a `<device>` node, the
      identity fields are the description's, by the fallbacks of
      `DescribeFields`, and the record keeps its protocol, address, raw
      data, tags and banners. */
  lemma DeepSelects(d: DeviceInfo, net: DeepNet, desc: Description)
    requires DeepReady(d, net)
    requires net.parseXml(net.get(LocationOf(d)).body) == XmlDoc(Some(desc))
    ensures SameIdentity(UpnpDeep(d, net).device, DescribeFields(d, desc, LocationOf(d)))
  {
    var location := LocationOf(d);
    var u := net.resolver.urlParse(location).value;
    assert UpnpDeep(d, net) == Returned(Fetch(d, location, u, net));
    FetchSelects(d, location, u, net, desc);
  }

  /** The two records agree on every field but the services and errors. */
  predicate SameIdentity(a: DeviceInfo, b: DeviceInfo) {
    a.(services := b.services, enrichmentErrors := b.enrichmentErrors) == b
  }

  lemma FetchSelects(d: DeviceInfo, location: string, u: Ssdp.Url, net: DeepNet, desc: Description)
    requires net.get(location).Got? && net.get(location).status == 200
    requires Contains(Lower(net.get(location).contentType.GetOr("")), "xml")
    requires Sum(net.get(location).chunks) <= MaxBytes
    requires net.parseXml(net.get(location).body) == XmlDoc(Some(desc))
    ensures SameIdentity(Fetch(d, location, u, net), DescribeFields(d, desc, location))
  {
  }

  /** The UPnP enricher as a pipeline stage. */
  function UpnpDeepEnricher(net: DeepNet): (e: Enricher)
    ensures e.name == "upnp_deep"
    ensures forall d :: e.canEnrich(d) == Answer(UpnpCanEnrich(d)) && e.enrich(d) == UpnpDeep(d, net)
  {
    Enricher("upnp_deep", (d: DeviceInfo) => Answer(UpnpCanEnrich(d)), (d: DeviceInfo) => UpnpDeep(d, net))
  }

  // ---------------------------------------------------------------------
  // mDNS TXT records
  // ---------------------------------------------------------------------

  /** The TXT properties as (lower-cased key, text value) pairs. */
  function TxtPairs(entries: seq<(string, Value)>): seq<(string, string)> {
    seq(|entries|, i requires 0 <= i < |entries| => (Lower(entries[i].0), Str(entries[i].1)))
  }

  /** The TXT dictionary: keys lower-cased, values as text; of two keys
      equal once lower-cased the later one's value stays, at the earlier
      one's position. */
  function TxtOf(entries: seq<(string, Value)>): Pairs<string, string> {
    FromPairs(TxtPairs(entries))
  }

  /** The value under a key is the value of the last property whose key
      lower-cases to it. */
  lemma TxtLastWins(entries: seq<(string, Value)>, key: string, j: nat)
    requires j < |entries| && Lower(entries[j].0) == key
    requires forall i :: j < i < |entries| ==> Lower(entries[i].0) != key
    ensures Get(TxtOf(entries), key) == Some(Str(entries[j].1))
  {
    FromPairsLastWins(TxtPairs(entries), key, j);
  }

  /** A key no property lower-cases to is absent. */
  lemma TxtAbsent(entries: seq<(string, Value)>, key: string)
    requires forall i :: 0 <= i < |entries| ==> Lower(entries[i].0) != key
    ensures Get(TxtOf(entries), key) == None
  {
    FromPairsAbsent(TxtPairs(entries), key);
  }

  /** `txt.get(k1) or txt.get(k2) or … or fallback`. */
  function Pick(txt: Pairs<string, string>, keys: seq<string>, fallback: Option<string>): (r: Option<string>)
    ensures (forall i :: 0 <= i < |keys| ==> !Truthy(Get(txt, keys[i]))) ==> r == fallback
    decreases |keys|
  {
    if |keys| == 0 then fallback else Or(Get(txt, keys[0]), Pick(txt, keys[1..], fallback))
  }

  /** The first key with a non-empty value decides. */
  lemma {:induction false} PickFirst(txt: Pairs<string, string>, keys: seq<string>, fallback: Option<string>, i: nat)
    requires i < |keys| && Truthy(Get(txt, keys[i]))
    requires forall j :: 0 <= j < i ==> !Truthy(Get(txt, keys[j]))
    ensures Pick(txt, keys, fallback) == Get(txt, keys[i])
    decreases i
  {
    if i > 0 {
      assert !Truthy(Get(txt, keys[0]));
      PickFirst(txt, keys[1..], fallback, i - 1);
    }
  }

  const ManufacturerKeys: seq<string> := ["manufacturer", "usb_mfg", "vendor"]
  const ModelKeys: seq<string> := ["ty", "model", "product", "usb_mdl"]
  const FirmwareKeys: seq<string> := ["fv", "firmware", "sw", "txtvers"]
  const SerialKeys: seq<string> := ["serialnumber", "sn"]
  const UrlKeys: seq<string> := ["adminurl", "url"]

  /** Python's name for the type of a value. */
  function TypeName(v: Value): string {
    match v
    case VNone => "NoneType"
    case VBool(_) => "bool"
    case VInt(_) => "int"
    case VStr(_) => "str"
    case VList(_) => "list"
    case VDict(_) => "dict"
  }

  /** The five fields the TXT dictionary sets. */
  function TxtFields(d: DeviceInfo, txt: Pairs<string, string>): (r: DeviceInfo)
    ensures r.(manufacturer := d.manufacturer, model := d.model, firmwareVersion := d.firmwareVersion,
               serialNumber := d.serialNumber, deviceUrl := d.deviceUrl) == d
  {
    d.(manufacturer := Pick(txt, ManufacturerKeys, d.manufacturer),
       model := Pick(txt, ModelKeys, d.model),
       firmwareVersion := Pick(txt, FirmwareKeys, d.firmwareVersion),
       serialNumber := Pick(txt, SerialKeys, d.serialNumber),
       deviceUrl := Pick(txt, UrlKeys, d.deviceUrl))
  }

  /** `MDNSTxtEnricher.enrich`: empty properties leave the record as it
      is; properties that are not a dictionary raise on `.items()`. */
  function MdnsTxt(d: DeviceInfo): (r: Step)
    ensures !IsTrue(GetValue(d.rawData, "properties", VNone)) ==> r == Returned(d)
    ensures r.Raised? <==> IsTrue(GetValue(d.rawData, "properties", VNone)) && !GetValue(d.rawData, "properties", VNone).VDict?
    ensures r.Raised? ==> r.device == d
    ensures r.Returned? ==> r.device.(manufacturer := d.manufacturer, model := d.model, firmwareVersion := d.firmwareVersion,
                                      serialNumber := d.serialNumber, deviceUrl := d.deviceUrl) == d
  {
    var props := GetValue(d.rawData, "properties", VNone);
    if !IsTrue(props) then Returned(d)
    else
      match props
      case VDict(entries) => Returned(TxtFields(d, TxtOf(entries)))
      case _ => Raised("'" + TypeName(props) + "' object has no attribute 'items'", d)
  }

  /** The five fields the TXT dictionary feeds. */
  datatype TxtField = Manufacturer | Model | Firmware | Serial | Url

  /** The keys a field reads, highest priority first. */
  function KeysOf(f: TxtField): seq<string> {
    match f
    case Manufacturer => ManufacturerKeys
    case Model => ModelKeys
    case Firmware => FirmwareKeys
    case Serial => SerialKeys
    case Url => UrlKeys
  }

  function FieldOf(d: DeviceInfo, f: TxtField): Option<string> {
    match f
    case Manufacturer => d.manufacturer
    case Model => d.model
    case Firmware => d.firmwareVersion
    case Serial => d.serialNumber
    case Url => d.deviceUrl
  }

  lemma TxtFieldsPick(d: DeviceInfo, txt: Pairs<string, string>, f: TxtField)
    ensures FieldOf(TxtFields(d, txt), f) == Pick(txt, KeysOf(f), FieldOf(d, f))
  {
  }

  /** The TXT dictionary of a record whose properties are a non-empty
      dictionary. */
  function TxtOfRecord(d: DeviceInfo): Pairs<string, string>
    requires GetValue(d.rawData, "properties", VNone).VDict?
  {
    TxtOf(GetValue(d.rawData, "properties", VNone).entries)
  }

  /** With a properties dictionary, a field takes the value of the first
      key in its priority list whose value is non-empty. */
  lemma MdnsTxtPicks(d: DeviceInfo, f: TxtField, i: nat)
    requires GetValue(d.rawData, "properties", VNone).VDict?
    requires IsTrue(GetValue(d.rawData, "properties", VNone))
    requires i < |KeysOf(f)| && Truthy(Get(TxtOfRecord(d), KeysOf(f)[i]))
    requires forall j :: 0 <= j < i ==> !Truthy(Get(TxtOfRecord(d), KeysOf(f)[j]))
    ensures FieldOf(MdnsTxt(d).device, f) == Get(TxtOfRecord(d), KeysOf(f)[i])
  {
    TxtFieldsPick(d, TxtOfRecord(d), f);
    PickFirst(TxtOfRecord(d), KeysOf(f), FieldOf(d, f), i);
  }

  /** With no non-empty value under any of its keys, a field keeps its
      previous value. */
  lemma MdnsTxtFallback(d: DeviceInfo, f: TxtField)
    requires GetValue(d.rawData, "properties", VNone).VDict?
    requires forall j :: 0 <= j < |KeysOf(f)| ==> !Truthy(Get(TxtOfRecord(d), KeysOf(f)[j]))
    ensures FieldOf(MdnsTxt(d).device, f) == FieldOf(d, f)
  {
    if IsTrue(GetValue(d.rawData, "properties", VNone)) {
      TxtFieldsPick(d, TxtOfRecord(d), f);
    }
  }

  /** The mDNS TXT enricher as a pipeline stage. */
  function MdnsTxtEnricher(): (e: Enricher)
    ensures e.name == "mdns_txt"
    ensures forall d :: e.canEnrich(d) == Answer(d.protocol == "mdns") && e.enrich(d) == MdnsTxt(d)
  {
    Enricher("mdns_txt", (d: DeviceInfo) => Answer(d.protocol == "mdns"), (d: DeviceInfo) => MdnsTxt(d))
  }

  // ---------------------------------------------------------------------
  // ONVIF scopes
  // ---------------------------------------------------------------------

  /** What a scope URI sets, by the first test it passes on its
      lower-cased text: `onvif.org/name/`, then `onvif.org/hardware/`,
      then `onvif.org/type/`. */
  datatype ScopeKind = NameScope | HardwareScope | TypeScope | OtherScope

  function KindOf(scope: string): ScopeKind {
    var lower := Lower(scope);
    if Contains(lower, "onvif.org/name/") then NameScope
    else if Contains(lower, "onvif.org/hardware/") then HardwareScope
    else if Contains(lower, "onvif.org/type/") then TypeScope
    else OtherScope
  }

  /** `scope.split(sep)[-1].replace("%20", " ")`: the text after the last
      `sep` as written, `%20` read as a space. */
  function ScopeText(scope: string, sep: string): string
    requires |sep| > 0
  {
    ReplaceAll(LastPiece(scope, sep), "%20", " ")
  }

  /** One scope URI: a name or hardware scope sets the name or model from
      the text after the last separator, `%20` read as a space; a type
      scope adds the text after its last `/type/` as a tag when new and
      non-empty. The test is on the lower-cased scope, the split on the
      scope as written. */
  function ApplyScope(d: DeviceInfo, scope: string): (r: DeviceInfo)
    ensures r.(friendlyName := d.friendlyName, model := d.model, deviceTags := d.deviceTags) == d
    ensures IsPrefix(d.deviceTags, r.deviceTags) && |r.deviceTags| <= |d.deviceTags| + 1
    ensures |r.deviceTags| == |d.deviceTags| + 1 ==>
      r.deviceTags[|d.deviceTags|] != "" && r.deviceTags[|d.deviceTags|] !in d.deviceTags
    ensures r.friendlyName == if KindOf(scope) == NameScope then Some(ScopeText(scope, "/name/")) else d.friendlyName
    ensures r.model == if KindOf(scope) == HardwareScope then Some(ScopeText(scope, "/hardware/")) else d.model
    ensures KindOf(scope) != TypeScope ==> r.deviceTags == d.deviceTags
    ensures KindOf(scope) == TypeScope ==>
      var tag := LastPiece(scope, "/type/");
      && (tag != "" ==> tag in r.deviceTags)
      && (|r.deviceTags| > |d.deviceTags| ==> r.deviceTags[|d.deviceTags|] == tag)
  {
    match KindOf(scope)
    case NameScope => d.(friendlyName := Some(ScopeText(scope, "/name/")))
    case HardwareScope => d.(model := Some(ScopeText(scope, "/hardware/")))
    case OtherScope => d
    case TypeScope =>
      var tag := LastPiece(scope, "/type/");
      if tag != "" && tag !in d.deviceTags then d.(deviceTags := d.deviceTags + [tag]) else d
  }

  /** The scopes in order. */
  function ApplyScopes(d: DeviceInfo, scopes: seq<string>): (r: DeviceInfo)
    ensures r.(friendlyName := d.friendlyName, model := d.model, deviceTags := d.deviceTags) == d
    ensures IsPrefix(d.deviceTags, r.deviceTags)
    ensures NoDup(d.deviceTags) ==> NoDup(r.deviceTags)
    ensures forall k :: |d.deviceTags| <= k < |r.deviceTags| ==> r.deviceTags[k] != ""
    decreases |scopes|
  {
    if |scopes| == 0 then d
    else
      var n := |scopes| - 1;
      var prev := ApplyScopes(d, scopes[..n]);
      var r := ApplyScope(prev, scopes[n]);
      TagsGrow(d.deviceTags, prev.deviceTags, r.deviceTags);
      r
  }

  /** Tags that grew from `a` to `b` by non-empty, distinct additions and
      then by at most one more such tag still grew that way from `a`. */
  lemma TagsGrow(a: seq<string>, b: seq<string>, c: seq<string>)
    requires IsPrefix(a, b) && (NoDup(a) ==> NoDup(b))
    requires forall k :: |a| <= k < |b| ==> b[k] != ""
    requires IsPrefix(b, c) && |c| <= |b| + 1
    requires |c| == |b| + 1 ==> c[|b|] != "" && c[|b|] !in b
    ensures IsPrefix(a, c) && (NoDup(a) ==> NoDup(c))
    ensures forall k :: |a| <= k < |c| ==> c[k] != ""
  {
    assert c[..|a|] == b[..|a|];
    assert forall k :: 0 <= k < |b| ==> c[k] == b[k];
  }

  /** `_parse_wsd_scopes`: the whitespace-separated scopes in order. Tags
      only grow, at the end, never by an empty or repeated tag. */
  function ParseWsdScopes(d: DeviceInfo, scopes: string): (r: DeviceInfo)
    ensures r.(friendlyName := d.friendlyName, model := d.model, deviceTags := d.deviceTags) == d
    ensures IsPrefix(d.deviceTags, r.deviceTags)
    ensures NoDup(d.deviceTags) ==> NoDup(r.deviceTags)
  {
    ApplyScopes(d, SplitWhitespace(scopes))
  }

  /** The last scope is applied to what the others leave. */
  lemma ApplyScopesLast(d: DeviceInfo, scopes: seq<string>)
    requires |scopes| > 0
    ensures ApplyScopes(d, scopes) == ApplyScope(ApplyScopes(d, scopes[..|scopes| - 1]), scopes[|scopes| - 1])
  {
  }

  /** The name after the scopes is that of the last name scope. */
  lemma {:induction false} ScopesLastName(d: DeviceInfo, scopes: seq<string>, j: nat)
    requires j < |scopes| && KindOf(scopes[j]) == NameScope
    requires forall k :: j < k < |scopes| ==> KindOf(scopes[k]) != NameScope
    ensures ApplyScopes(d, scopes).friendlyName == Some(ScopeText(scopes[j], "/name/"))
    decreases |scopes|
  {
    var n := |scopes| - 1;
    var init := scopes[..n];
    var last := scopes[n];
    ApplyScopesLast(d, scopes);
    if j < n {
      assert init[j] == scopes[j];
      assert forall k :: j < k < |init| ==> init[k] == scopes[k];
      ScopesLastName(d, init, j);
      assert KindOf(last) != NameScope;
    }
  }

  /** Without a name scope the name is left alone. */
  lemma {:induction false} ScopesNoName(d: DeviceInfo, scopes: seq<string>)
    requires forall k :: 0 <= k < |scopes| ==> KindOf(scopes[k]) != NameScope
    ensures ApplyScopes(d, scopes).friendlyName == d.friendlyName
    decreases |scopes|
  {
    if |scopes| > 0 {
      var n := |scopes| - 1;
      var init := scopes[..n];
      ApplyScopesLast(d, scopes);
      assert forall k :: 0 <= k < |init| ==> init[k] == scopes[k];
      ScopesNoName(d, init);
      assert KindOf(scopes[n]) != NameScope;
    }
  }

  /** The model after the scopes is that of the last hardware scope. */
  lemma {:induction false} ScopesLastModel(d: DeviceInfo, scopes: seq<string>, j: nat)
    requires j < |scopes| && KindOf(scopes[j]) == HardwareScope
    requires forall k :: j < k < |scopes| ==> KindOf(scopes[k]) != HardwareScope
    ensures ApplyScopes(d, scopes).model == Some(ScopeText(scopes[j], "/hardware/"))
    decreases |scopes|
  {
    var n := |scopes| - 1;
    var init := scopes[..n];
    var last := scopes[n];
    ApplyScopesLast(d, scopes);
    if j < n {
      assert init[j] == scopes[j];
      assert forall k :: j < k < |init| ==> init[k] == scopes[k];
      ScopesLastModel(d, init, j);
      assert KindOf(last) != HardwareScope;
    }
  }

  /** Without a hardware scope the model is left alone. */
  lemma {:induction false} ScopesNoModel(d: DeviceInfo, scopes: seq<string>)
    requires forall k :: 0 <= k < |scopes| ==> KindOf(scopes[k]) != HardwareScope
    ensures ApplyScopes(d, scopes).model == d.model
    decreases |scopes|
  {
    if |scopes| > 0 {
      var n := |scopes| - 1;
      var init := scopes[..n];
      ApplyScopesLast(d, scopes);
      assert forall k :: 0 <= k < |init| ==> init[k] == scopes[k];
      ScopesNoModel(d, init);
      assert KindOf(scopes[n]) != HardwareScope;
    }
  }

  /** A type scope's tag, when a scope is one. */
  predicate TagFrom(scope: string, tag: string) {
    KindOf(scope) == TypeScope && tag == LastPiece(scope, "/type/")
  }

  /** Every non-empty type-scope tag ends up among the tags. */
  lemma ScopesTagsKept(d: DeviceInfo, scopes: seq<string>, j: nat)
    requires j < |scopes| && KindOf(scopes[j]) == TypeScope && LastPiece(scopes[j], "/type/") != ""
    ensures LastPiece(scopes[j], "/type/") in ApplyScopes(d, scopes).deviceTags
  {
    TagAdded(d, scopes, j);
    TagsKept(d, scopes, j + 1, LastPiece(scopes[j], "/type/"));
  }

  /** Tags present after a prefix of the scopes are present after all of them. */
  lemma {:induction false} TagsKept(d: DeviceInfo, scopes: seq<string>, m: nat, tag: string)
    requires m <= |scopes| && tag in ApplyScopes(d, scopes[..m]).deviceTags
    ensures tag in ApplyScopes(d, scopes).deviceTags
    decreases |scopes| - m
  {
    if m < |scopes| {
      var next := scopes[..m + 1];
      assert next[..|next| - 1] == scopes[..m];
      TagSurvives(d, next, tag);
      TagsKept(d, scopes, m + 1, tag);
    } else {
      assert scopes[..m] == scopes;
    }
  }

  /** A tag already present survives one more scope. */
  lemma TagSurvives(d: DeviceInfo, scopes: seq<string>, tag: string)
    requires |scopes| > 0 && tag in ApplyScopes(d, scopes[..|scopes| - 1]).deviceTags
    ensures tag in ApplyScopes(d, scopes).deviceTags
  {
    ApplyScopesLast(d, scopes);
    var prev := ApplyScopes(d, scopes[..|scopes| - 1]);
    PrefixMember(prev.deviceTags, ApplyScope(prev, scopes[|scopes| - 1]).deviceTags, tag);
  }

  /** A type scope's non-empty tag is among the tags right after it. */
  lemma TagAdded(d: DeviceInfo, scopes: seq<string>, j: nat)
    requires j < |scopes|
    requires KindOf(scopes[j]) == TypeScope && LastPiece(scopes[j], "/type/") != ""
    ensures LastPiece(scopes[j], "/type/") in ApplyScopes(d, scopes[..j + 1]).deviceTags
  {
    var upto := scopes[..j + 1];
    assert upto[..j] == scopes[..j] && upto[j] == scopes[j];
    ApplyScopesLast(d, upto);
  }

  lemma PrefixMember(a: seq<string>, b: seq<string>, t: string)
    requires IsPrefix(a, b) && t in a
    ensures t in b
  {
    var i :| 0 <= i < |a| && a[i] == t;
    assert b[i] == t;
  }

  /** Every added tag is the tag of some type scope. */
  lemma {:induction false} ScopesTagsFrom(d: DeviceInfo, scopes: seq<string>, k: nat)
    requires |d.deviceTags| <= k < |ApplyScopes(d, scopes).deviceTags|
    ensures exists j :: 0 <= j < |scopes| && TagFrom(scopes[j], ApplyScopes(d, scopes).deviceTags[k])
    decreases |scopes|
  {
    var n := |scopes| - 1;
    var init := scopes[..n];
    ApplyScopesLast(d, scopes);
    var prev := ApplyScopes(d, init);
    var r := ApplyScope(prev, scopes[n]);
    if k < |prev.deviceTags| {
      assert r.deviceTags[..|prev.deviceTags|] == prev.deviceTags;
      ScopesTagsFrom(d, init, k);
      var j :| 0 <= j < |init| && TagFrom(init[j], prev.deviceTags[k]);
      assert init[j] == scopes[j];
    } else {
      assert TagFrom(scopes[n], r.deviceTags[k]);
    }
  }

  /** `_parse_wsd_scopes` over the whitespace-separated scopes: the name
      comes from the last name scope and the model from the last hardware
      scope, each unchanged when there is none. */
  lemma WsdScopeValues(d: DeviceInfo, text: string)
    ensures var scopes := SplitWhitespace(text);
      var r := ParseWsdScopes(d, text);
      && (forall j :: (0 <= j < |scopes| && KindOf(scopes[j]) == NameScope &&
                        forall k :: j < k < |scopes| ==> KindOf(scopes[k]) != NameScope) ==>
            r.friendlyName == Some(ScopeText(scopes[j], "/name/")))
      && ((forall k :: 0 <= k < |scopes| ==> KindOf(scopes[k]) != NameScope) ==> r.friendlyName == d.friendlyName)
      && (forall j :: (0 <= j < |scopes| && KindOf(scopes[j]) == HardwareScope &&
                        forall k :: j < k < |scopes| ==> KindOf(scopes[k]) != HardwareScope) ==>
            r.model == Some(ScopeText(scopes[j], "/hardware/")))
      && ((forall k :: 0 <= k < |scopes| ==> KindOf(scopes[k]) != HardwareScope) ==> r.model == d.model)
  {
    var scopes := SplitWhitespace(text);
    var r := ParseWsdScopes(d, text);
    assert r == ApplyScopes(d, scopes);
    forall j | 0 <= j < |scopes| && KindOf(scopes[j]) == NameScope &&
               (forall k :: j < k < |scopes| ==> KindOf(scopes[k]) != NameScope)
      ensures r.friendlyName == Some(ScopeText(scopes[j], "/name/"))
    {
      ScopesLastName(d, scopes, j);
    }
    forall j | 0 <= j < |scopes| && KindOf(scopes[j]) == HardwareScope &&
               (forall k :: j < k < |scopes| ==> KindOf(scopes[k]) != HardwareScope)
      ensures r.model == Some(ScopeText(scopes[j], "/hardware/"))
    {
      ScopesLastModel(d, scopes, j);
    }
    if forall k :: 0 <= k < |scopes| ==> KindOf(scopes[k]) != NameScope {
      ScopesNoName(d, scopes);
    }
    if forall k :: 0 <= k < |scopes| ==> KindOf(scopes[k]) != HardwareScope {
      ScopesNoModel(d, scopes);
    }
  }

  /** `_parse_wsd_scopes` over the whitespace-separated scopes: every
      non-empty type-scope tag ends up among the tags, and every tag added
      is the tag of some type scope. */
  lemma WsdScopeTags(d: DeviceInfo, text: string)
    ensures var scopes := SplitWhitespace(text);
      var r := ParseWsdScopes(d, text);
      && (forall j :: 0 <= j < |scopes| && KindOf(scopes[j]) == TypeScope && LastPiece(scopes[j], "/type/") != "" ==>
            LastPiece(scopes[j], "/type/") in r.deviceTags)
      && (forall k :: |d.deviceTags| <= k < |r.deviceTags| ==>
            exists j :: 0 <= j < |scopes| && TagFrom(scopes[j], r.deviceTags[k]))
  {
    var scopes := SplitWhitespace(text);
    var r := ParseWsdScopes(d, text);
    assert r == ApplyScopes(d, scopes);
    forall j | 0 <= j < |scopes| && KindOf(scopes[j]) == TypeScope && LastPiece(scopes[j], "/type/") != ""
      ensures LastPiece(scopes[j], "/type/") in r.deviceTags
    {
      ScopesTagsKept(d, scopes, j);
    }
    forall k | |d.deviceTags| <= k < |r.deviceTags|
      ensures exists j :: 0 <= j < |scopes| && TagFrom(scopes[j], r.deviceTags[k])
    {
      ScopesTagsFrom(d, scopes, k);
    }
  }
}

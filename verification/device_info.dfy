/** The records the enrichment stages pass around: the raw discovery
    dictionaries, whose values are Python values of several types, and the
    `DeviceInfo` record accumulated through the stages. */
module DeviceModel {
  import opened Common
  import opened OrderedMap

  /** A Python value held in a raw discovery dictionary. */
  datatype Value =
    | VNone
    | VBool(b: bool)
    | VInt(i: int)
    | VStr(s: string)
    | VList(items: seq<Value>)
    | VDict(entries: seq<(string, Value)>)

  /** A raw discovery dictionary, in insertion order. */
  type Raw = Pairs<string, Value>

  /** Python truthiness of a value. */
  predicate IsTrue(v: Value) {
    match v
    case VNone => false
    case VBool(b) => b
    case VInt(i) => i != 0
    case VStr(s) => s != ""
    case VList(items) => |items| > 0
    case VDict(entries) => |entries| > 0
  }

  /** `raw.get(key, default)`. */
  function GetValue(raw: Raw, key: string, default: Value): (r: Value)
    ensures key !in Keys(raw) ==> r == default
    ensures key in Keys(raw) ==> (key, r) in raw
  {
    GetKeys(raw, key);
    Get(raw, key).GetOr(default)
  }

  /** The value at position `i` is what `get` reads for its key when no
      earlier entry has that key. */
  lemma FieldAt(raw: Raw, i: nat, default: Value)
    requires i < |raw| && forall j :: 0 <= j < i ==> raw[j].0 != raw[i].0
    ensures GetValue(raw, raw[i].0, default) == raw[i].1
  {
    GetAt(raw, i);
  }

  /** A value read where the record holds optional text: a string, or
      nothing. */
  function AsText(v: Value): (r: Option<string>)
    ensures r.Some? <==> v.VStr?
  {
    if v.VStr? then Some(v.s) else None
  }

  /** A value read where the record holds an optional port number. */
  function AsPort(v: Value): (r: Option<int>)
    ensures r.Some? <==> v.VInt?
  {
    if v.VInt? then Some(v.i) else None
  }

  /** Optional text as the record stores it: `None` becomes Python `None`. */
  function TextValue(s: Option<string>): (r: Value)
    ensures AsText(r) == s
  {
    match s
    case None => VNone
    case Some(t) => VStr(t)
  }

  // ---------------------------------------------------------------------
  // `str()` of a value
  // ---------------------------------------------------------------------

  /** `repr()` of a string: single quotes unless the text holds a single
      quote and no double quote; backslash, the chosen quote, newline,
      carriage return and tab are escaped. */
  function QuoteText(s: string): (r: string)
    ensures |r| >= 2
  {
    var q := if '\'' in s && '"' !in s then '"' else '\'';
    [q] + EscapeText(s, q) + [q]
  }

  function EscapeText(s: string, q: char): (r: string)
    ensures |r| >= |s|
  {
    if |s| == 0 then ""
    else
      var c := s[0];
      var e :=
        if c == '\\' then "\\\\"
        else if c == q then ['\\', q]
        else if c == '\n' then "\\n"
        else if c == '\r' then "\\r"
        else if c == '\t' then "\\t"
        else [c];
      e + EscapeText(s[1..], q)
  }

  /** `repr()` of a value, as it appears inside a container. */
  function Repr(v: Value): string
    decreases v, 3
  {
    match v
    case VStr(s) => QuoteText(s)
    case _ => Str(v)
  }

  /** `str()` of a value. */
  function Str(v: Value): string
    decreases v, 2
  {
    match v
    case VNone => "None"
    case VBool(b) => if b then "True" else "False"
    case VInt(i) => IntToString(i)
    case VStr(s) => s
    case VList(items) => "[" + Join(ReprItems(v, items), ", ") + "]"
    case VDict(entries) => "{" + Join(ReprEntries(v, entries), ", ") + "}"
  }

  function ReprItems(v: Value, items: seq<Value>): (r: seq<string>)
    requires v.VList? && items == v.items
    ensures |r| == |items|
    decreases v, 1
  {
    seq(|items|, i requires 0 <= i < |items| => Repr(items[i]))
  }

  function ReprEntries(v: Value, entries: seq<(string, Value)>): (r: seq<string>)
    requires v.VDict? && entries == v.entries
    ensures |r| == |entries|
    decreases v, 1
  {
    seq(|entries|, i requires 0 <= i < |entries| => QuoteText(entries[i].0) + ": " + Repr(entries[i].1))
  }

  /** `str()` of a raw dictionary. */
  function RawText(raw: Raw): string {
    Str(VDict(raw))
  }

  // ---------------------------------------------------------------------
  // The enrichment record
  // ---------------------------------------------------------------------

  /** `DeviceInfo`: the fields the enrichment stages fill in. A service is a
      dictionary like the raw ones; banners map a port to its text. */
  datatype DeviceInfo = DeviceInfo(
    protocol: string,
    address: string,
    port: Option<int>,
    rawData: Raw,
    friendlyName: Option<string>,
    manufacturer: Option<string>,
    model: Option<string>,
    firmwareVersion: Option<string>,
    serialNumber: Option<string>,
    deviceUrl: Option<string>,
    deviceCategory: Option<string>,
    deviceTags: seq<string>,
    osGuess: Option<string>,
    services: seq<Raw>,
    banners: Pairs<int, string>,
    enrichmentErrors: seq<string>)

  /** A fresh record: the given identity, every other field at its default. */
  function NewDeviceInfo(protocol: string, address: string, port: Option<int>, raw: Raw, friendlyName: Option<string>): (r: DeviceInfo)
    ensures r.protocol == protocol && r.address == address && r.port == port
    ensures r.rawData == raw && r.friendlyName == friendlyName
    ensures r.manufacturer.None? && r.model.None? && r.firmwareVersion.None?
    ensures r.serialNumber.None? && r.deviceUrl.None? && r.deviceCategory.None? && r.osGuess.None?
    ensures r.deviceTags == [] && r.services == [] && r.banners == [] && r.enrichmentErrors == []
  {
    DeviceInfo(protocol, address, port, raw, friendlyName, None, None, None, None, None,
               None, [], None, [], [], [])
  }

  /** A service entry `{"port": …, "name": …, "banner": …, "tls": …}`. */
  function ServiceEntry(port: int, name: string, banner: string, tls: Value): Raw {
    [("port", VInt(port)), ("name", VStr(name)), ("banner", VStr(banner)), ("tls", tls)]
  }
}

/** The mDNS listener: a map from service instance name to the record last
    written for it, fed by the browser's add, update and remove callbacks,
    and read out by `discover`. The Zeroconf browser and the service-info
    query are oracles: the events arrive as a sequence and each query's
    outcome comes from `lookup(type, name)`. */
module Mdns {
  import opened Common
  import opened OrderedMap
  import opened DeviceModel
  import Enrichment

  /** The DNS-SD meta-query type; browsing it yields service types, which
      are recorded without a query. */
  const MetaType := "_services._dns-sd._udp.local."

  /** A packed IPv4 address as `info.addresses` holds it. */
  type Quad = q: seq<int> | |q| == 4 && forall i :: 0 <= i < |q| ==> 0 <= q[i] < 256
    witness [0, 0, 0, 0]

  /** `socket.inet_ntoa`: dotted-quad text. */
  function Ntoa(q: Quad): (r: string)
    ensures |r| >= 7
  {
    IntToString(q[0]) + "." + (IntToString(q[1]) + "." + (IntToString(q[2]) + "." + IntToString(q[3])))
  }

  /** What `get_service_info` returns for a resolved service. */
  datatype Info = Info(addresses: seq<Quad>, port: Option<int>, properties: Value)

  /** The outcome of `zeroconf.get_service_info(type, name)`. */
  datatype Resolution = QueryRaised | NotFound | Found(info: Info)

  type Services = Pairs<string, Raw>

  /** `{"name": name, "type": type}`. */
  function MinimalRecord(name: string, stype: string): (r: Raw)
    ensures Keys(r) == ["name", "type"]
  {
    [("name", VStr(name)), ("type", VStr(stype))]
  }

  /** The record of a resolved service. */
  function ResolvedRecord(name: string, stype: string, info: Info): (r: Raw)
    ensures Keys(r) == ["name", "type", "addresses", "port", "properties"]
  {
    [("name", VStr(name)), ("type", VStr(stype)),
     ("addresses", VList(seq(|info.addresses|, i requires 0 <= i < |info.addresses| => VStr(Ntoa(info.addresses[i]))))),
     ("port", match info.port case Some(p) => VInt(p) case None => VNone),
     ("properties", info.properties)]
  }

  /** The record a callback writes for `name`: the minimal one for the
      meta-type or when the query raises or finds nothing, the resolved
      one otherwise. */
  function RecordFor(stype: string, name: string, lookup: (string, string) -> Resolution): (r: Raw)
    ensures stype == MetaType ==> r == MinimalRecord(name, stype)
    ensures stype != MetaType && !lookup(stype, name).Found? ==> r == MinimalRecord(name, stype)
    ensures stype != MetaType && lookup(stype, name).Found? ==> r == ResolvedRecord(name, stype, lookup(stype, name).info)
    ensures GetValue(r, "name", VNone) == VStr(name) && GetValue(r, "type", VNone) == VStr(stype)
  {
    if stype == MetaType then MinimalRecord(name, stype)
    else
      match lookup(stype, name)
      case Found(info) => ResolvedRecord(name, stype, info)
      case _ => MinimalRecord(name, stype)
  }

  /** `add_service` and `update_service`, whose bodies are the same: the
      record for `name` is (re)written, keeping its place if it had one. */
  function Upsert(services: Services, stype: string, name: string, lookup: (string, string) -> Resolution): (r: Services)
    ensures Get(r, name) == Some(RecordFor(stype, name, lookup))
    ensures name in Keys(r)
    ensures forall k :: k in Keys(services) ==> k in Keys(r)
    ensures forall k :: k in Keys(r) ==> k in Keys(services) || k == name
  {
    PutKeys(services, name, RecordFor(stype, name, lookup));
    Put(services, name, RecordFor(stype, name, lookup))
  }

  /** `remove_service`: the name is gone; an absent name changes nothing. */
  function RemoveService(services: Services, name: string): (r: Services)
    ensures Get(r, name) == None
    ensures name !in Keys(services) ==> r == services
    ensures forall k :: k in Keys(r) ==> k in Keys(services) && k != name
  {
    Remove(services, name)
  }

  /** A callback from the browser. */
  datatype Event =
    | Added(stype: string, name: string)
    | Updated(stype: string, name: string)
    | Removed(stype: string, name: string)

  function Apply(services: Services, e: Event, lookup: (string, string) -> Resolution): Services {
    match e
    case Added(t, n) => Upsert(services, t, n, lookup)
    case Updated(t, n) => Upsert(services, t, n, lookup)
    case Removed(_, n) => RemoveService(services, n)
  }

  /** The listener's map after the callbacks, in order. */
  function Listen(services: Services, events: seq<Event>, lookup: (string, string) -> Resolution): Services
    decreases |events|
  {
    if |events| == 0 then services
    else Apply(Listen(services, events[..|events| - 1], lookup), events[|events| - 1], lookup)
  }

  /** How browsing got started: Zeroconf failed to start, the service type
      was rejected, or the browser delivered these callbacks. */
  datatype Browse = StartFailed | BadType | Browsed(events: seq<Event>)

  /** `discover`: the records of the final map, one per name, in map
      order; nothing when browsing never started. */
  function Discover(b: Browse, lookup: (string, string) -> Resolution): (r: seq<Raw>)
    ensures !b.Browsed? ==> r == []
    ensures b.Browsed? ==> r == Values(Listen([], b.events, lookup))
  {
    match b
    case Browsed(events) => Values(Listen([], events, lookup))
    case _ => []
  }

  // ---------------------------------------------------------------------
  // Properties
  // ---------------------------------------------------------------------

  /** Writing one name leaves every other name's record as it was. */
  lemma UpsertOther(services: Services, stype: string, name: string, lookup: (string, string) -> Resolution, other: string)
    requires other != name
    ensures Get(Upsert(services, stype, name, lookup), other) == Get(services, other)
  {
    PutOther(services, name, RecordFor(stype, name, lookup), other);
  }

  /** Removing one name leaves every other name's record as it was. */
  lemma RemoveOnlyThat(services: Services, name: string, other: string)
    requires other != name
    ensures Get(RemoveService(services, name), other) == Get(services, other)
  {
    RemoveOther(services, name, other);
  }

  /** The last callback about a name decides its entry: removed, or the
      record that callback wrote. */
  lemma LastWriteWins(services: Services, events: seq<Event>, e: Event, lookup: (string, string) -> Resolution)
    ensures Get(Listen(services, events + [e], lookup), e.name) ==
      if e.Removed? then None else Some(RecordFor(e.stype, e.name, lookup))
  {
    assert (events + [e])[..|events|] == events;
  }

  /** The last callback about a name decides its entry however many
      callbacks about other names follow it. */
  lemma {:induction false} LastEventDecides(services: Services, events: seq<Event>, j: nat, lookup: (string, string) -> Resolution)
    requires j < |events|
    requires forall k :: j < k < |events| ==> events[k].name != events[j].name
    ensures Get(Listen(services, events, lookup), events[j].name) ==
      if events[j].Removed? then None else Some(RecordFor(events[j].stype, events[j].name, lookup))
    decreases |events|
  {
    var n := |events| - 1;
    var init := events[..n];
    if j < n {
      assert init[j] == events[j];
      assert forall k :: j < k < |init| ==> init[k] == events[k];
      LastEventDecides(services, init, j, lookup);
      OtherEventKeeps(services, events, events[j].name, lookup);
    } else {
      assert init + [events[n]] == events;
      LastWriteWins(services, init, events[n], lookup);
    }
  }

  /** A last callback about another name leaves this name's entry as the
      earlier callbacks left it. */
  lemma OtherEventKeeps(services: Services, events: seq<Event>, name: string, lookup: (string, string) -> Resolution)
    requires |events| > 0 && events[|events| - 1].name != name
    ensures Get(Listen(services, events, lookup), name) == Get(Listen(services, events[..|events| - 1], lookup), name)
  {
    var prior := Listen(services, events[..|events| - 1], lookup);
    match events[|events| - 1]
    case Added(t, m) => UpsertOther(prior, t, m, lookup, name);
    case Updated(t, m) => UpsertOther(prior, t, m, lookup, name);
    case Removed(_, m) => RemoveOnlyThat(prior, m, name);
  }

  /** Every record sits under its own name. */
  predicate Named(services: Services) {
    forall i :: 0 <= i < |services| ==> GetValue(services[i].1, "name", VNone) == VStr(services[i].0)
  }

  lemma {:induction false} NamedPut(services: Services, name: string, rec: Raw)
    requires Named(services)
    requires GetValue(rec, "name", VNone) == VStr(name)
    ensures Named(Put(services, name, rec))
    decreases |services|
  {
    if |services| > 0 && services[0].0 != name {
      NamedPut(services[1..], name, rec);
      var rest := Put(services[1..], name, rec);
      assert Put(services, name, rec) == [services[0]] + rest;
    }
  }

  lemma {:induction false} NamedRemove(services: Services, name: string)
    requires Named(services)
    ensures Named(Remove(services, name))
    decreases |services|
  {
    if |services| > 0 {
      NamedRemove(services[1..], name);
      if services[0].0 != name {
        assert Remove(services, name) == [services[0]] + Remove(services[1..], name);
      }
    }
  }

  /** The callbacks keep the map well formed: distinct names, and every
      record under its own name. */
  lemma {:induction false} ListenWellFormed(services: Services, events: seq<Event>, lookup: (string, string) -> Resolution)
    requires UniqueKeys(services) && Named(services)
    ensures UniqueKeys(Listen(services, events, lookup)) && Named(Listen(services, events, lookup))
    decreases |events|
  {
    if |events| > 0 {
      var prior := Listen(services, events[..|events| - 1], lookup);
      ListenWellFormed(services, events[..|events| - 1], lookup);
      match events[|events| - 1]
      case Added(t, n) =>
        PutUnique(prior, n, RecordFor(t, n, lookup));
        NamedPut(prior, n, RecordFor(t, n, lookup));
      case Updated(t, n) =>
        PutUnique(prior, n, RecordFor(t, n, lookup));
        NamedPut(prior, n, RecordFor(t, n, lookup));
      case Removed(_, n) =>
        RemoveUnique(prior, n);
        NamedRemove(prior, n);
    }
  }

  /** `discover` returns exactly one record per name in the map: the i-th
      record is the one stored under the i-th name, and no two records
      carry the same name. */
  lemma OnePerName(events: seq<Event>, lookup: (string, string) -> Resolution)
    ensures var m := Listen([], events, lookup);
      var r := Discover(Browsed(events), lookup);
      && |r| == |Keys(m)|
      && (forall i :: 0 <= i < |r| ==> GetValue(r[i], "name", VNone) == VStr(Keys(m)[i]))
      && (forall i, j :: 0 <= i < j < |r| ==> GetValue(r[i], "name", VNone) != GetValue(r[j], "name", VNone))
  {
    var m := Listen([], events, lookup);
    ListenWellFormed([], events, lookup);
    assert forall i :: 0 <= i < |m| ==> Keys(m)[i] == m[i].0;
  }

  /** An update never makes a name disappear. */
  lemma UpdateKeepsNames(services: Services, events: seq<Event>, e: Event, lookup: (string, string) -> Resolution)
    requires !e.Removed?
    ensures forall k :: k in Keys(Listen(services, events, lookup)) ==> k in Keys(Listen(services, events + [e], lookup))
  {
    assert (events + [e])[..|events|] == events;
  }

  // ---------------------------------------------------------------------
  // Dotted quads
  // ---------------------------------------------------------------------

  /** The decimal text of a byte has no dot in it. */
  lemma NoDotInByte(n: int)
    requires 0 <= n < 256
    ensures DotFree(IntToString(n))
  {
    assert forall i :: 0 <= i < |NatToString(n)| ==> IsDigit(NatToString(n)[i]);
  }

  /** A dot after a dot-free part is the first dot. */
  lemma SplitAfterPart(p: string, rest: string)
    requires DotFree(p)
    ensures SplitOn(p + "." + rest, ".") == [p] + SplitOn(rest, ".")
  {
    var s := p + "." + rest;
    assert OccursAt(s, ".", |p|) by { assert s[|p|..|p| + 1] == "."; }
    forall j | 0 <= j < |p| ensures !OccursAt(s, ".", j) {
      assert s[j..j + 1] == [p[j]];
    }
    IndexOfFirst(s, ".", |p|);
    SplitOnUnfold(s, ".", |p|);
    assert s[..|p|] == p && s[|p| + 1..] == rest;
  }

  /** Dot-free text splits to itself. */
  lemma SplitWhole(p: string)
    requires DotFree(p)
    ensures SplitOn(p, ".") == [p]
  {
    forall j | 0 <= j <= |p| ensures !OccursAt(p, ".", j) {
      if j < |p| { assert p[j..j + 1] == [p[j]]; }
    }
  }

  /** Predicate form of "no dot in the text". */
  predicate DotFree(p: string) {
    forall i :: 0 <= i < |p| ==> p[i] != '.'
  }

  /** Four dot-free parts joined by dots split back into those parts. */
  lemma SplitFour(d0: string, d1: string, d2: string, d3: string)
    requires DotFree(d0) && DotFree(d1) && DotFree(d2) && DotFree(d3)
    ensures SplitOn(d0 + "." + (d1 + "." + (d2 + "." + d3)), ".") == [d0, d1, d2, d3]
  {
    SplitWhole(d3);
    SplitAfterPart(d2, d3);
    SplitAfterPart(d1, d2 + "." + d3);
    SplitAfterPart(d0, d1 + "." + (d2 + "." + d3));
  }

  /** The dotted text splits at its dots back into the four numbers. */
  lemma NtoaRoundTrip(q: Quad)
    ensures var parts := SplitOn(Ntoa(q), ".");
      && |parts| == 4
      && ParseInt(parts[0]) == Some(q[0]) && ParseInt(parts[1]) == Some(q[1])
      && ParseInt(parts[2]) == Some(q[2]) && ParseInt(parts[3]) == Some(q[3])
  {
    assert 0 <= q[0] < 256 && 0 <= q[1] < 256 && 0 <= q[2] < 256 && 0 <= q[3] < 256;
    BytesText(q[0], q[1], q[2], q[3]);
  }

  lemma BytesText(a: int, b: int, c: int, d: int)
    requires 0 <= a < 256 && 0 <= b < 256 && 0 <= c < 256 && 0 <= d < 256
    ensures SplitOn(IntToString(a) + "." + (IntToString(b) + "." + (IntToString(c) + "." + IntToString(d))), ".")
      == [IntToString(a), IntToString(b), IntToString(c), IntToString(d)]
    ensures ParseInt(IntToString(a)) == Some(a) && ParseInt(IntToString(b)) == Some(b)
    ensures ParseInt(IntToString(c)) == Some(c) && ParseInt(IntToString(d)) == Some(d)
  {
    NoDotInByte(a); NoDotInByte(b); NoDotInByte(c); NoDotInByte(d);
    SplitFour(IntToString(a), IntToString(b), IntToString(c), IntToString(d));
    IntToStringRoundTrip(a); IntToStringRoundTrip(b);
    IntToStringRoundTrip(c); IntToStringRoundTrip(d);
  }

  /** A resolved service with addresses becomes a device record whose
      address is the first address, dotted. */
  lemma ResolvedAddress(name: string, stype: string, info: Info)
    requires |info.addresses| > 0
    ensures Enrichment.FromRaw("mdns", ResolvedRecord(name, stype, info)).address == Ntoa(info.addresses[0])
  {
    var r := ResolvedRecord(name, stype, info);
    FieldAt(r, 2, VNone);
    MdnsAddress(r, Ntoa(info.addresses[0]));
  }

  /** A resolved service becomes a device record with the resolved port. */
  lemma ResolvedPort(name: string, stype: string, info: Info)
    ensures Enrichment.FromRaw("mdns", ResolvedRecord(name, stype, info)).port == info.port
  {
    FieldAt(ResolvedRecord(name, stype, info), 3, VNone);
  }

  /** The first address of an mDNS record is the first entry of its
      address list when that entry is text. */
  lemma MdnsAddress(r: Raw, first: string)
    requires GetValue(r, "addresses", VNone).VList?
    requires var a := GetValue(r, "addresses", VNone).items; |a| > 0 && a[0] == VStr(first)
    ensures Enrichment.FromRaw("mdns", r).address == first
  {
  }
}

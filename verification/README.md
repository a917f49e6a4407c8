# FireFly discovery core in Dafny

FireFly discovers IoT devices on a local network over UPnP/SSDP, mDNS, WS-Discovery, MQTT and CoAP. It then enriches each device record through a pipeline of enrichers: a UPnP description fetch, mDNS TXT fields, a server-header OS guess, banner grabbing and a taxonomy classifier. This project models the deterministic logic between the sockets as pure Dafny functions over immutable data, and proves what that logic promises.

Modules follow the source files:

| module | file | models |
|---|---|---|
| `Common` | common.dfy | `Option`, Python's truthiness and `or`, `strip`/`lower`/`upper`/`capitalize`, `find`, `split`, `join`, `replace`, `str(int)` and `int(str)` |
| `OrderedMap` | ordered_map.dfy | an insertion-ordered Python `dict` as a sequence of pairs: get, put (a key keeps its position), `del`, `dict(pairs)` |
| `DeviceModel` | device_info.dfy | the `DeviceInfo` record and the dynamic values found in raw result dicts, with `bool()` and `str()`/`repr()` |
| `CoapCodec` | coap_codec.dfy | `_build_coap_request`, `_encode_option`, `_parse_coap_response`, `_build_ack` (section 3 of RFC 7252) |
| `LinkFormat` | link_format.dfy | `_parse_link_format` (CoRE Link Format, section 2 of RFC 6690), with both regular expressions written out as scanners |
| `CoapDevice` | coap_device.dfy | `_process_wellknown_response`, `_generate_risk_flags` and the final results loop of CoAP `discover` |
| `Ssdp` | ssdp.dfy | the M-SEARCH message (section 1.3.2 of UPnP Device Architecture 1.1), `parse_response`, the de-duplication in `discover`, and the anti-SSRF gate and field update of `enrich_device_info` |
| `Enrichment` | enrichment.dfy | `enrich_device`, `enrich_all`, `devices_from_results`, `fingerprint_dict`, `apply_enrichment` |
| `Enrichers` | enrichers.dfy | `UPnPDeepEnricher` (guard, size cap, field selection, service list), `MDNSTxtEnricher`, `_parse_wsd_scopes` |
| `Taxonomy` | taxonomy.dfy | `DeviceClassifier`: stable priority sort, first match, tag union, fallback; `_build_search_blob` |
| `Fingerprint` | fingerprint.dfy | `_match_os` and `ServerHeaderFingerprinter` |
| `Mqtt` | mqtt.dfy | `_parse_sys_data`, `_generate_risk_flags`, the `on_message` caps, `_probe_broker` as a function of the session outcome, and the port sweep of `discover` |
| `Mdns` | mdns.dfy | `MDNSListener.add_service`/`update_service`/`remove_service` and the collection in `discover` |
| `Banner` | banner.dfy | `BannerGrabber.can_enrich`/`enrich`, the port table, and the pure part of `_grab_single` (probe templating, empty banner, truncation) |

The network, clocks, regular-expression engines, XML parsers, DNS and the `ipaddress` classification are parameters of the model:
- network replies are oracle functions or datatypes: a grabber, a session outcome, an HTTP reply, an XML document;
- regex search is an uninterpreted `Matcher`;
- `urlparse`, `ip_address` and `gethostbyname` form a `Resolver`.

An enricher that raises is modelled by a `Raised` outcome that carries the partly updated record, so the pipeline's error absorption is stated exactly. Bytes are `int`s in 0..255. Python's `|` on header bytes is the recursive `BitOr`, together with a lemma that it is `+` when the bit ranges are disjoint.

Three behaviours of the code are worth stating plainly, because a reader might expect otherwise:
- Repeated SSDP replies are de-duplicated by structural equality of the whole parsed record, and the first copy is kept (protocols/upnp.py:88). There is no merge by unique service name.
- The SSRF gate classifies the single address `gethostbyname` returns for a host name (protocols/upnp.py:142, protocols/enrichment.py:154).
- A description is used only when the fetch returns status exactly 200 (protocols/upnp.py:153, protocols/enrichment.py:171).

## Model

| member | source | states |
|---|---|---|
| CoapCodec.PackU16 | protocols/coap.py:90 | `struct.pack("!H")` succeeds exactly for 0..65535 and yields two big-endian bytes whose value is the input |
| CoapCodec.EncodeOption | protocols/coap.py:107-133 | an option encodes exactly when delta and length fit the two-byte extended range (at most 65804); its length is 1 + extension(delta) + extension(length) + the value's length; it ends with the value; its first byte is never the 0xFF payload marker |
| CoapCodec.OptionHeader | protocols/coap.py:132 | the option header byte carries the delta's nibble (the value below 13, else 13 or 14 announcing a one- or two-byte extension) in its high half and the length's in its low half, and is never the 0xFF payload marker |
| CoapCodec.ExtensionReadBack | protocols/coap.py:165-180 | the extended field the encoder writes for any value up to 65804 is read back by the decoder as that same value, and the decoder advances past exactly its 0, 1 or 2 bytes |
| CoapCodec.FirstByteFields | protocols/coap.py:141-144 | the request's first byte is 64 + 16·type + token length, and the parser's shifts and masks recover version 1, the type and the token length from it |
| CoapCodec.CodeByteFields | protocols/coap.py:149-150 | `class << 5 \| detail` fits in a byte and the parser's masks recover the class and the detail |
| CoapCodec.ParseResponse | protocols/coap.py:136-147 | input shorter than 4 bytes, or with a version other than 1, is not CoAP; every parsed message has version 1 and a token of at most 15 bytes |
| CoapCodec.ParseOptionsOrdered | protocols/coap.py:157-186 | decoded option numbers are cumulative: each is at least the starting number and the sequence never decreases |
| CoapCodec.ParseResponseShape | protocols/coap.py:156-188 | the options of a parsed response are ordered, and a non-empty payload is exactly the bytes after some 0xFF marker byte in the data |
| CoapCodec.ResponseFromWalk | protocols/coap.py:152-198 | the response parses exactly when the option walk does not raise, and then its options are the walk's options and its payload is whatever follows the walk's end |
| CoapCodec.TruncatedExtensionRaises | protocols/coap.py:168-180 | a final option byte whose delta or length nibble announces an extended field that is not there raises instead of returning None |
| CoapCodec.TruncatedResponseRaises | protocols/coap.py:168-172 | the concrete message `40 45 00 01 D0` raises in the option loop |
| CoapCodec.ReadOptionBytes | protocols/coap.py:159-186 | an encoded option met at an offset is not taken for the payload marker and is read back as the same delta and value, with the offset advanced by its full length |
| CoapCodec.ParseEncodedSegments | protocols/coap.py:156-188 | after the header, a run of encoded Uri-Path options fills the data to its end, parses to exactly one option (11, segment) per segment, and leaves no marker |
| CoapCodec.EncodedIsLaidOut | protocols/coap.py:95-102 | the path-segment loop lays each segment out as an option with delta 11 for the first and 0 for every later one |
| CoapCodec.BuildRequestLayout | protocols/coap.py:87-104 | a request with type below 4, class below 8, detail below 32, id below 65536, token of at most 15 bytes and segments of at most 65804 bytes always encodes, as four header bytes, then the token, then the options |
| CoapCodec.BuildRequestRoundTrip | protocols/coap.py:75-104 | parsing a built request gives back version 1 and the same type, code, message id and token, one option (11, UTF-8 segment) per non-empty path segment, and an empty payload |
| CoapCodec.BuildAckRoundTrip | protocols/coap.py:242-247 | the ACK is 4 + token-length bytes and parses as type ACK, code 0.00, the given message id and token, with no options and no payload |
| CoapCodec.NonEmpty | protocols/coap.py:96 | the segment filter keeps every non-empty segment, in order and as often as it occurs, and drops exactly the empty ones |
| LinkFormat.SplitEntries | protocols/coap.py:212 | the payload is cut exactly at the commas followed by optional blanks and `<`: joining the pieces with `,` gives back the payload, every piece after the first starts with optional blanks and `<`, and no piece holds such a comma |
| LinkFormat.MatchUri | protocols/coap.py:220 | `<([^>]+)>` matches exactly when the entry opens with `<`, has a non-empty run before the first `>`, and that `>` exists; the URI is that run |
| LinkFormat.MatchAttr | protocols/coap.py:228-230 | an attribute match at `;` exists exactly when a key character follows; the key is the longest run without `;` or `=`, ending at the end of the text or at a `;` or `=`; a value is present exactly when `=` follows the key |
| LinkFormat.QuotedAttribute | protocols/coap.py:228-232 | `;key="value"` yields the key with the value stored without its quotes |
| LinkFormat.PlainAttribute | protocols/coap.py:228-232 | `;key=value` yields the key with the value up to the next `;` or `,` |
| LinkFormat.BareAttribute | protocols/coap.py:233-235 | a value-less `;key` is stored as True |
| LinkFormat.ApplyAttrsLastWins | protocols/coap.py:228-235 | when a stripped key repeats among the attributes, the last occurrence's stored value wins |
| LinkFormat.ApplyAttrsKeepsOther | protocols/coap.py:228-235 | attributes under other keys leave a key's entry as it was |
| LinkFormat.EntryUri | protocols/coap.py:224 | a matched entry's resource maps `uri` to the text inside `<…>` unless an attribute named `uri` overrides it |
| LinkFormat.ParseEntry | protocols/coap.py:215-222 | an entry yields a resource exactly when its stripped text starts with a `<…>` link |
| LinkFormat.BlankPayload | protocols/coap.py:208-209 | an all-blank payload yields no resources |
| LinkFormat.EveryResourceHasUri | protocols/coap.py:214-237 | every returned resource has a `uri` entry |
| LinkFormat.EntryContribution | protocols/coap.py:214-237 | entry i contributes its own resource, in place, when it has a `<…>` link, and nothing otherwise |
| LinkFormat.SingleLink | protocols/coap.py:207-239 | a stripped comma-free payload with one link parses to that one resource |
| LinkFormat.BareRtExample | protocols/coap.py:201-239 | `</a>;rt` parses to one resource whose `rt` is True |
| CoapDevice.DeviceAt | protocols/coap.py:557-560 | `setdefault` returns the existing record for a known address, and otherwise a fresh record with that address and port 5683 |
| CoapDevice.EntryOf | protocols/coap.py:568-575 | a resource entry copies `uri`, `rt`, `if`, `ct` and `title`, and is observable exactly when `obs` is present |
| CoapDevice.ObservableLoopMatches | protocols/coap.py:562-579 | the accumulating loop appends to what it started with exactly the URIs of the observable entries, in order |
| CoapDevice.ObservableListed | protocols/coap.py:578-579 | every observable entry's URI is listed |
| CoapDevice.ObservableOnly | protocols/coap.py:578-579 | every listed URI belongs to an observable entry |
| CoapDevice.LastOicWins | protocols/coap.py:582-585 | a resource type containing `oic.d.` sets the device type to the text after its last `oic.d.`, whatever came before |
| CoapDevice.TypeKept | protocols/coap.py:586-589 | once a device type is set, `temperature` and `light` hints never replace it: only an `oic.d.` type can |
| CoapDevice.NoHintNoType | protocols/coap.py:581-589 | resources without a type hint leave the device type as it was |
| CoapDevice.ProcessWellknown | protocols/coap.py:553-596 | an empty parse leaves the device map unchanged; otherwise the address gets a record, keeping its position when present and being appended when new |
| CoapDevice.ProcessedRecord | protocols/coap.py:557-596 | the stored record has the parsed entries, the observable URIs, `unauthenticated_access` set, the inferred type, no firmware and the raw payload, and keeps its address, port and DTLS field |
| CoapDevice.ProcessOtherUnchanged | protocols/coap.py:557-560 | processing one address leaves every other address's record alone |
| CoapDevice.ProcessUnique | protocols/coap.py:557-560 | the device map keeps one record per address |
| CoapDevice.TypeStepAsWritten | protocols/coap.py:582-589 | as written, the type step raises exactly when `rt` is the flag True |
| CoapDevice.InferAsWrittenAgrees | protocols/coap.py:581-589 | as written, inference raises when any resource has a bare `rt`, and otherwise agrees with the corrected inference |
| CoapDevice.ProcessAsWrittenAgrees | protocols/coap.py:553-596 | as written, processing raises exactly for a non-empty parse with a bare `rt`, and otherwise equals the corrected processing |
| CoapDevice.BareRtRaises | protocols/coap.py:582-584 | on the payload `</a>;rt` the code as written raises, while the corrected model records the device with no type |
| CoapDevice.RiskFlags | protocols/coap.py:604-613 | the flags are an in-order subsequence of [unauthenticated_access, no_dtls, observable_data_leak]; each is present exactly when its condition holds, `no_dtls` exactly when DTLS support is missing or false |
| CoapDevice.ProcessAllKeyed | protocols/coap.py:553-560 | processing replies keeps every record filed under its own address and the addresses distinct; an address is present afterwards exactly when it was before or some reply from it announced a resource |
| CoapDevice.FinalOnePerAddress | protocols/coap.py:297-305 | with every record filed under its own address, there is one result per address, in map order, so `setdefault("address", ip)` never changes a record and the result addresses are distinct |
| CoapDevice.DiscoverOnePerAddress | protocols/coap.py:297-305 | after processing the replies, the results name each address that announced a resource exactly once, and no other |
| Ssdp.MSearch | protocols/upnp.py:48-55 | the request is the five lines `M-SEARCH * HTTP/1.1`, `HOST:239.255.255.250:1900`, `MAN:"ssdp:discover"`, `MX:<mx>` and `ST:<st>`, each ending in CRLF, followed by one more CRLF |
| Ssdp.MSearchParses | protocols/upnp.py:112-117 | parsing the request with the response parser gives exactly the HOST, MAN, MX and ST headers, so the request line is ignored and the values survive |
| Ssdp.HeaderOf | protocols/upnp.py:114-116 | a line contributes a header exactly when it contains `:` |
| Ssdp.FirstColonSplit | protocols/upnp.py:115-116 | the key is the text before the first `:`, stripped and upper-cased, and the value is all the rest, stripped, with any further colons intact |
| Ssdp.ResponseHeaders | protocols/upnp.py:112-117 | a key is in the parsed map exactly when some CRLF-separated line yields it |
| Ssdp.LastLineWins | protocols/upnp.py:116 | for a repeated key, the value from the last line carrying that key wins |
| Ssdp.HostAddress | protocols/upnp.py:137-145 | a literal address is used as is; otherwise the address is that of what the name resolves to, and none when resolution fails or gives no address |
| Ssdp.SafeTargetMeans | protocols/upnp.py:129-148 | a fetch is allowed exactly when the URL parses, its scheme is http or https, its host is non-empty, and the literal or resolved address is private, link-local or loopback |
| Ssdp.NoPublicFetch | protocols/upnp.py:147-148 | a LOCATION whose host's address is public is never fetched and leaves the device unchanged |
| Ssdp.EnrichDeviceInfo | protocols/upnp.py:119-170 | a fetch happens exactly for a non-empty LOCATION that passes the gate; without one the device is unchanged; only `name` and `type` can be added, and every other key is kept |
| Ssdp.ApplyNode | protocols/upnp.py:158-164 | `name` and `type` are set exactly from a non-empty friendlyName and deviceType, and nothing else changes |
| Ssdp.EnrichOnlyFromDescription | protocols/upnp.py:150-164 | any change to the device comes from a 200 response whose XML has a device node |
| Ssdp.Discover | protocols/upnp.py:84-89 | the list has no duplicates and holds exactly the parsed-and-enriched records of the replies |
| Ssdp.DiscoverFirstSeen | protocols/upnp.py:88-89 | records appear in the order of their first reply |
| Enrichment.RunStage | protocols/enrichment.py:91-97 | a stage that declines leaves the device alone; one whose check or enrichment raises appends `"<name>: <message>"` to the errors; otherwise its result is taken |
| Enrichment.EnrichDeviceAppend | protocols/enrichment.py:90-98 | running p then q is running p + q: stages run in registration order and a raising stage does not stop the rest |
| Enrichment.ErrorsOnlyGrow | protocols/enrichment.py:95-96 | when no stage drops errors, the error list only grows by appending |
| Enrichment.AllDecline | protocols/enrichment.py:91-94 | if every stage declines, the device comes back unchanged |
| Enrichment.FillSlot | protocols/enrichment.py:108-115 | after the futures in the completion order have been collected, a slot whose index completed holds its own record enriched, and every other slot is as it was |
| Enrichment.FillCovers | protocols/enrichment.py:108-115 | once every index has completed, every slot holds its own record enriched |
| Enrichment.EnrichAll | protocols/enrichment.py:101-116 | whatever order the futures complete in, the batch has the input's length and slot i holds record i enriched on its own |
| Enrichment.CompletionOrderIrrelevant | protocols/enrichment.py:108-116 | any two completion orders that cover the batch give the same result |
| Enrichment.ProtocolPositions | protocols/enrichment.py:406-453 | the records of protocol p in the flattened list are exactly p's entries converted in order, for each of upnp, mdns, wsd, mqtt and coap, and none for any other name |
| Enrichment.MdnsAddress | protocols/enrichment.py:419-422 | an mDNS record's address is the first entry of a non-empty `addresses` list (read as text), the first character when `addresses` is a non-empty string, and empty when `addresses` is missing or falsy |
| Enrichment.DefaultPorts | protocols/enrichment.py:435-451 | without a port, MQTT defaults to 1883 and CoAP to 5683, while mDNS has none |
| Enrichment.BannersKept | protocols/enrichment.py:468 | the fingerprint's banner dict has one string-keyed entry per port, in order |
| Enrichment.WithFingerprint | protocols/enrichment.py:480 | setting the fingerprint makes the entry's `fingerprint` the device's fingerprint dict |
| Enrichment.AttachAllKeys | protocols/enrichment.py:474-482 | re-attachment never adds or removes a protocol list |
| Enrichment.ApplyByPosition | protocols/enrichment.py:472-482 | for each protocol, the k-th enriched device of that protocol sets entry k's fingerprint, devices past the list's end are ignored, and the protocol lists are kept |
| Enrichers.ReadCapped | protocols/enrichment.py:177-184 | the chunked read fits exactly when the total size is at most 1 MiB |
| Enrichers.Text | protocols/enrichment.py:198-200 | a tag's text is present exactly when the element exists with non-empty text, and is that text stripped |
| Enrichers.DescribeFields | protocols/enrichment.py:202-215 | friendly name kept when set, else friendlyName; manufacturer = manufacturer; model = modelName else modelNumber; firmware = firmwareVersion, else modelNumber when both model fields exist, else unchanged; serial = serialNumber else UDN; URL = presentationURL, else URLBase, else the location; nothing else changes |
| Enrichers.ShortName | protocols/enrichment.py:223 | a service type without `:` is its own short name; one with `:` gives the colon-free piece between the last colon and the colon before it (or the start of the text) |
| Enrichers.ServicePort | protocols/enrichment.py:225 | the URL's port when non-zero, else 443 for https and 80 otherwise; an invalid port raises |
| Enrichers.Describe | protocols/enrichment.py:202-229 | the description sets the identity fields as selected and only appends services |
| Enrichers.UpnpDeep | protocols/enrichment.py:135-158 | no LOCATION returns the device; a urlparse failure raises with the device untouched; any change requires a LOCATION that passes the address gate |
| Enrichers.DeepUntouched | protocols/enrichment.py:139-184 | unless scheme, host class, status 200, an xml Content-Type and a body of at most 1 MiB all hold, the device is untouched apart from a recorded fetch error |
| Enrichers.DeepSelects | protocols/enrichment.py:160-215 | when every guard holds and the XML has a device node, the identity fields are exactly those selected from the description |
| Enrichers.UpnpDeepEnricher | protocols/enrichment.py:130-133 | the stage is named `upnp_deep` and runs for UPnP records with a truthy LOCATION |
| Enrichers.TxtLastWins | protocols/enrichment.py:249-253 | after lowercasing the keys, the last property whose key lowercases to k gives k's value |
| Enrichers.TxtAbsent | protocols/enrichment.py:249-253 | a key no property lowercases to is absent |
| Enrichers.PickFirst | protocols/enrichment.py:255-270 | a field takes the value of the first key in its priority list with a non-empty value |
| Enrichers.Pick | protocols/enrichment.py:255-270 | with no non-empty value among the keys, the field keeps its previous value |
| Enrichers.MdnsTxt | protocols/enrichment.py:244-271 | falsy properties return the device; truthy properties that are not a dict raise with the device untouched; otherwise only manufacturer, model, firmware, serial and URL can change |
| Enrichers.MdnsTxtPicks | protocols/enrichment.py:255-270 | each of the five fields takes the first non-empty value along its own priority list of TXT keys |
| Enrichers.MdnsTxtFallback | protocols/enrichment.py:255-270 | with no usable TXT key, a field keeps its previous value |
| Enrichers.MdnsTxtEnricher | protocols/enrichment.py:239-242 | the stage is named `mdns_txt` and runs exactly for mDNS records |
| Enrichers.ApplyScope | protocols/enrichment.py:315-323 | a scope containing `onvif.org/name/` in any case sets the name to the text after the last `/name/` with `%20` as a space; one containing `onvif.org/hardware/` (and no name marker) sets the model the same way from `/hardware/`; one containing `onvif.org/type/` (and neither) makes its non-empty tag present, appended when new; any other scope changes nothing; only name, model and tags change |
| Enrichers.ParseWsdScopes | protocols/enrichment.py:312-323 | scope parsing only changes name, model and tags, only appends tags, and keeps a duplicate-free tag list duplicate-free |
| Enrichers.WsdScopeValues | protocols/enrichment.py:312-323 | the final name comes from the last name scope and the final model from the last hardware scope; with no such scope each is left unchanged |
| Enrichers.WsdScopeTags | protocols/enrichment.py:312-323 | every non-empty type-scope tag ends up among the tags, and every tag added is the tag of some type scope |
| Taxonomy.ActiveRules | protocols/taxonomy.py:214 | an empty or missing rule list falls back to the default table |
| Taxonomy.SortRules | protocols/taxonomy.py:214 | sorting is a permutation of the rules |
| Taxonomy.SortSorted | protocols/taxonomy.py:214 | the sorted rules have non-increasing priority |
| Taxonomy.SortStable | protocols/taxonomy.py:214 | rules of equal priority keep their table order |
| Taxonomy.FirstMatch | protocols/taxonomy.py:222-223 | the chosen rule matches, and no earlier rule does |
| Taxonomy.FirstMatchIgnoresLater | protocols/taxonomy.py:222-226 | once a rule matches, later rules are never consulted |
| Taxonomy.ClassifyWith | protocols/taxonomy.py:219-229 | a match sets the category to the rule's and makes the tags the duplicate-free union of old and rule tags; no match keeps a set category or sets "unknown" and keeps the tags; nothing else changes |
| Taxonomy.ClassifyHighestPriority | protocols/taxonomy.py:214-226 | if some rule matches, the chosen rule comes no later and has priority at least as high, and sets the category |
| Taxonomy.ClassifierStage | protocols/taxonomy.py:211-217 | the classifier always runs |
| Taxonomy.BlobParts | protocols/taxonomy.py:232-248 | the blob's parts are name, manufacturer, model, firmware, OS guess and raw data, then the banners, services and tags in order |
| Taxonomy.BlobHasTags | protocols/taxonomy.py:246-248 | every tag occurs in the search blob |
| Taxonomy.BlobHasBanners | protocols/taxonomy.py:242-243 | every banner occurs in the search blob |
| Taxonomy.BlobHasModel | protocols/taxonomy.py:237 | the model occurs in the search blob |
| Fingerprint.MatchOs | protocols/fingerprint.py:101-106 | there is no guess exactly when no pattern matches |
| Fingerprint.MatchOsFirst | protocols/fingerprint.py:101-106 | the guess is the OS of the earliest matching pattern |
| Fingerprint.MatchOsIgnoresLater | protocols/fingerprint.py:103-105 | patterns after a match do not change the guess |
| Fingerprint.SplitLines | protocols/fingerprint.py:87 | `splitlines` gives pieces without line breaks, none for the empty string, the whole text when it has no break, and first the text before the first break |
| Fingerprint.SplitLinesJoin | protocols/fingerprint.py:87 | when `\n` is the only line break and the text does not end in one, joining the lines with `\n` gives the text back |
| Fingerprint.ServerLineValue | protocols/fingerprint.py:88-89 | a line whose lower-case form starts with `server:` contributes the stripped text after its first colon |
| Fingerprint.ServerLinesAppend | protocols/fingerprint.py:87-89 | the `Server:` values of two runs of lines are those of the first run followed by those of the second |
| Fingerprint.ServerLinesSingle | protocols/fingerprint.py:88-89 | one line contributes its stripped value exactly when it is a `Server:` line, and nothing otherwise |
| Fingerprint.BannerServersAppend | protocols/fingerprint.py:86-89 | the banners are scanned in order: two runs of banners give the first run's values followed by the second's |
| Fingerprint.BannerServersSingle | protocols/fingerprint.py:86-89 | one banner contributes the `Server:` values of its lines, in line order |
| Fingerprint.Candidates | protocols/fingerprint.py:78-89 | a non-empty SERVER header is the first candidate, followed by every banner's `Server:` values in banner and line order; without one the candidates are exactly those banner values |
| Fingerprint.FirstGuess | protocols/fingerprint.py:91-96 | there is no guess exactly when no candidate gets a truthy match |
| Fingerprint.FirstGuessAt | protocols/fingerprint.py:91-96 | the guess comes from the first candidate that matches |
| Fingerprint.FirstGuessIgnoresLater | protocols/fingerprint.py:92-96 | candidates after the first hit are ignored |
| Fingerprint.FingerprintWith | protocols/fingerprint.py:77-98 | only `os_guess` can change, and it changes only when some candidate matches |
| Fingerprint.FingerprintStage | protocols/fingerprint.py:69-75 | the fingerprinter runs exactly when SERVER is truthy or there are banners |
| Fingerprint.NoCandidatesNoGuess | protocols/fingerprint.py:80-98 | with no SERVER and no banners the device is unchanged |
| Mqtt.ActivePorts | protocols/mqtt.py:57 | an empty port list falls back to the defaults 1883 and 8883 |
| Mqtt.NewBroker | protocols/mqtt.py:123-139 | a fresh broker record has the address, port and TLS flag, no access, no counters and no topics |
| Mqtt.SysText | protocols/mqtt.py:257 | a missing `$SYS` key reads as the empty string |
| Mqtt.Fallback | protocols/mqtt.py:266-270 | the fallback key is read only when the primary key is missing or empty |
| Mqtt.IntOr | protocols/mqtt.py:284-288 | a field is set only when its text parses as an integer, and is otherwise unchanged |
| Mqtt.FirstWordIntOr | protocols/mqtt.py:271-276 | uptime reads the first whitespace-separated word, and no word leaves the field unchanged |
| Mqtt.ShortName | protocols/mqtt.py:261-263 | a broker name exists exactly when the version has a word, and it is non-empty |
| Mqtt.ParseSysData | protocols/mqtt.py:254-304 | only the six parsed fields change; version, uptime with its fallback, clients with its fallback, and the two message counters each follow their rule |
| Mqtt.BrokerNameFromVersion | protocols/mqtt.py:257-263 | a version whose first word is w sets `broker_version` to the whole text and `broker_name` to w lower-cased then capitalised |
| Mqtt.UptimeReadsNumber | protocols/mqtt.py:266-276 | an uptime of n followed by a blank or nothing sets `uptime_seconds` to n |
| Mqtt.UptimeFallbackIgnored | protocols/mqtt.py:266-270 | `uptime/seconds` is ignored when `uptime` is non-empty |
| Mqtt.UptimeFallbackUsed | protocols/mqtt.py:266-276 | `uptime/seconds` is used when `uptime` is missing or empty |
| Mqtt.ClientsFallbackIgnored | protocols/mqtt.py:279-283 | `clients/active` is ignored when `clients/connected` is non-empty |
| Mqtt.CountersRead | protocols/mqtt.py:279-304 | integer texts set the connected-clients, received and sent counters |
| Mqtt.LowerKeepsWords | protocols/mqtt.py:261 | lower-casing keeps the word count, and its first word is the lower-cased first word |
| Mqtt.RiskFlags | protocols/mqtt.py:307-316 | the flags are an in-order subsequence of [open_broker, anonymous_publish, no_tls], each present exactly when its condition holds, `no_tls` exactly when TLS is not supported |
| Mqtt.OnMessage | protocols/mqtt.py:158-169 | `$SYS/` topics go only to the system data and other topics only to the sampled set; the caps of 200 entries and 50 topics are kept |
| Mqtt.CollectBounded | protocols/mqtt.py:158-169 | over any message sequence the caps hold, system keys are `$SYS/` topics and sampled topics are not |
| Mqtt.CollectNoSysTraffic | protocols/mqtt.py:158-169 | without `$SYS/` messages the system data is unchanged |
| Mqtt.Probe | protocols/mqtt.py:111-251 | a broker is reported exactly when CONNACK arrives; a refusal gives the bare record; an anonymous connection flags `open_broker`, flags `no_tls` exactly without TLS and `anonymous_publish` exactly when the test publish is accepted, and keeps the topic and entry caps |
| Mqtt.ProbeParsesFirstPhase | protocols/mqtt.py:200-206 | version and uptime come from the system data of the first collection phase |
| Mqtt.ProbeIndex | protocols/mqtt.py:93-96 | the probe uses the first open non-TLS port, else the first open port |
| Mqtt.ScanPorts | protocols/mqtt.py:75-86 | every table port of the address is marked seen; pairs already seen are skipped; each pair is probed at most once; the open ports are table entries in table order, and every entry that is unseen, first with its port, and open is among them; TLS support means some open port is TLS |
| Mqtt.ScanOpenPorts | protocols/mqtt.py:75-86 | the open ports are exactly the unseen, first-with-their-port, open table entries, in table order |
| Mqtt.ProbeAddress | protocols/mqtt.py:88-104 | an address with no open port yields no broker; otherwise a broker is found exactly when the session on the chosen port answers with a CONNACK, and it carries the address, that port and the scan's TLS flag |
| Mqtt.ProbeChoice | protocols/mqtt.py:75-104 | a found broker was probed on the first open plain table entry, else on the first open table entry |
| Mqtt.SweepFrom | protocols/mqtt.py:61-109 | the seen-set grows exactly by the probed pairs; every probed pair is new and belongs to a target; no pair is probed twice; every target and table port ends up seen; at most one broker per target |
| Mqtt.TestsEachPairOnce | protocols/mqtt.py:65-81 | from an empty seen-set every (target, port) pair is probed, none twice, and nothing outside the targets |
| Mqtt.Discover | protocols/mqtt.py:61-109 | there are at most as many brokers as targets |
| Mdns.RecordFor | protocols/mdns.py:36-58 | the meta-type and failed resolutions record exactly `{name, type}`; a resolution records name, type, addresses, port and properties |
| Mdns.Upsert | protocols/mdns.py:64-88 | the name maps to its new record, and no other name is added or lost |
| Mdns.RemoveService | protocols/mdns.py:60-62 | the name is gone, an absent name changes nothing, and no other name is added |
| Mdns.UpsertOther | protocols/mdns.py:56 | adding or updating one name leaves every other name's record alone |
| Mdns.RemoveOnlyThat | protocols/mdns.py:60-62 | removing one name leaves every other name's record alone |
| Mdns.LastWriteWins | protocols/mdns.py:36-88 | a final callback for a name decides its record, or its absence for a removal |
| Mdns.LastEventDecides | protocols/mdns.py:36-88 | after any callbacks, the last one for a name decides its record, or its absence for a removal, whatever callbacks for other names follow it |
| Mdns.UpdateKeepsNames | protocols/mdns.py:64-88 | an add or update never removes a name |
| Mdns.ListenWellFormed | protocols/mdns.py:32-88 | the listener map keeps one record per name, each carrying its own name |
| Mdns.OnePerName | protocols/mdns.py:121-124 | discover returns one record per name in the map, in map order, with distinct names |
| Mdns.Discover | protocols/mdns.py:90-124 | a browser that fails to start or a bad type gives nothing; otherwise the map's values are returned |
| Mdns.NtoaRoundTrip | protocols/mdns.py:52 | `inet_ntoa` gives four dot-separated decimal parts that read back as the four bytes |
| Mdns.ResolvedAddress | protocols/mdns.py:49-55 | a resolved record's first address becomes the flattened mDNS record's address |
| Mdns.ResolvedPort | protocols/mdns.py:53 | a resolved record's port becomes the flattened record's port |
| Banner.ActiveTable | protocols/banner.py:62-63 | an empty port table falls back to the built-in one |
| Banner.DefaultTableUnique | protocols/banner.py:31-42 | the built-in port table has distinct ports |
| Banner.PortsToScan | protocols/banner.py:71-78 | the device's own port is appended, named `Port-<n>` with the HTTP probe and no TLS, exactly when it is set and not already in the table; the table is otherwise unchanged, and distinct ports stay distinct |
| Banner.HttpProbeNamesHost | protocols/banner.py:105-106 | templating the HTTP probe puts the host in place of `{host}` |
| Banner.FillHostEvery | protocols/banner.py:105-106 | in a probe whose other text has no `{`, every `{host}` field is replaced by the host |
| Banner.FillHostUnchanged | protocols/banner.py:105-106 | a probe without `{host}` is sent unchanged |
| Banner.ClipBanner | protocols/banner.py:127-132 | a banner that is blank after stripping gives None; a longer one is cut to 512 characters plus `...`, so the result is at most 515 characters; a shorter one is kept |
| Banner.ShortBannerKept | protocols/banner.py:127-132 | a stripped banner of at most 512 characters is kept as is |
| Banner.GrabSingle | protocols/banner.py:94-140 | a grab result carries the port, the configured or default name and the configured TLS flag; its banner is the clean-up of the text the peer sent for the host-filled probe (non-empty, at most 515 characters); its TLS version is the one the connection negotiated when TLS was configured and none otherwise; conversely, a reply whose clean-up is non-empty always yields a result |
| Banner.GrabSucceeds | protocols/banner.py:100-133 | a grab succeeds exactly when the peer answers with text that is not blank |
| Banner.RecordPort | protocols/banner.py:80-90 | a failed port changes nothing; a successful one appends exactly one service entry |
| Banner.BannerServiceFields | protocols/banner.py:84-90 | the service entry reports the result's port, service name, banner, TLS version and the configuration's `tls` flag |
| Banner.BannersRecorded | protocols/banner.py:80-83 | with distinct ports, every successful port's banner is stored under that port |
| Banner.ServicesAppended | protocols/banner.py:80-90 | the service list grows by one entry per successful port, in table order |
| Banner.FailedPortChangesNothing | protocols/banner.py:81-82 | adding a port that fails leaves the recorded banners and services as they were |
| Banner.Enrich | protocols/banner.py:68-91 | only banners and services change, and the services are the old ones plus one per capture |
| Banner.BannerStage | protocols/banner.py:60-66 | the banner grabber runs exactly for devices with a non-empty address |

## Left out

- Sockets, timing and randomness. This covers sending, receiving, connecting, TLS wrapping, `time.time`/`time.sleep`, per-phase deadline budgets and the `break`s they cause, and random message ids and tokens. Replies are inputs and ids are parameters, so the model behaves as if no deadline ever expires.
- Threads. The thread pool of `enrich_all` is sequential, and the paho-mqtt callback thread is a fold over a message sequence. The `except` fallback of `enrich_all` cannot fire, because `enrich_device` catches every exception.
- Foreign libraries are oracles: `ipaddress` classification, DNS, `requests`, defusedxml, Python's regex engine for taxonomy and OS patterns, Zeroconf browsing, and UTF-8 decoding with replacement.
- XML namespace prefixes are not modelled. The description is an abstract tag-to-text map.
- Case mapping covers ASCII only. Whitespace is Python's full `isspace` set.
- Common.ParseInt: accepts ASCII decimal digits only. Python's `int()` also accepts other Unicode decimal digits (Arabic-Indic, full-width and so on); those texts give `None` here where Python gives a number. MQTT `$SYS` payloads and configuration values are ASCII.
- `str()`/`repr()` of raw values gives the shape of Python's output. Float and bytes values are not modelled.
- Enrichment.MdnsAddress: a truthy `addresses` value that is neither a list nor a string makes Python raise, and a list whose first item is not text gives Python that item; the model gives the empty address in both cases. `mdns.discover` only produces lists of dotted-quad strings.
- Fingerprint.Candidates: a truthy `SERVER` value that is not text is skipped. Python would append it and then raise inside `re.search`; SSDP headers are always text.
- Mqtt.Probe: the sampled topics are a set. The `sorted()` order of `sampled_topics` is not modelled, because the model has no ordering on strings.
- Mdns.NtoaRoundTrip: covers four-byte addresses only. `inet_ntoa` on other lengths raises, and that is not modelled.
- Taxonomy.ClassifyWith: `list(set(...))` has an unspecified order, so the contract states the tag set and the absence of duplicates, not an order. The model's order keeps first occurrences.
- The WSD metadata, MQTT broker and CoAP resource enrichers are not modelled beyond `_parse_wsd_scopes`. Each is a short field copy out of XML or raw dict data.
- The CoAP multicast, unicast and resource-enumeration loops and `_check_dtls` are socket orchestration. Only their pure parts are modelled: the request bytes, the response parse, the well-known processing and the final results loop.
- `main.py`, `schemas.py`, `config.py` and `protocols/ws_discovery.py` are request handling, validation, configuration loading and a socket loop around a constant template. None of them is part of this model.

## Findings

| source | as written | input that shows it | evidently intended | confidence | as-written member | corrected member |
|---|---|---|---|---|---|---|
| protocols/coap.py:582-589 | `rt = res.get("rt", "")` is True for a value-less `;rt` attribute, and then `"oic.d." in rt` raises TypeError. The discovery loops catch only socket errors, so the CoAP scan aborts. | the well-known payload `</a>;rt` | a bare `rt` carries no type hint, so the device is recorded without a type | medium, not executed | CoapDevice.ProcessWellknownAsWritten (raises: CoapDevice.BareRtRaises) | CoapDevice.ProcessWellknown (CoapDevice.ProcessAsWrittenAgrees, CoapDevice.OneBareRtIgnored) |

/** The CoRE Link Format reader of `_parse_link_format` (section 2 of
    RFC 6690): `</temp>;rt="temperature";obs,</hum>` becomes a list of
    insertion-ordered attribute dictionaries, each starting with `uri`. */
module LinkFormat {
  import opened Common
  import opened OrderedMap

  /** An attribute value: `True` for a bare attribute such as `;obs`, the
      (stripped) text otherwise. */
  datatype AttrValue = Flag | Text(text: string)

  /** One resource: `{"uri": ..., <attribute>: ...}` in insertion order. */
  type Resource = Pairs<string, AttrValue>

  // ---------------------------------------------------------------------
  // Scanning helpers
  // ---------------------------------------------------------------------

  /** Length of the longest run from `i` of characters outside `stop`. */
  function Span(s: string, i: nat, stop: set<char>): (n: nat)
    requires i <= |s|
    ensures i + n <= |s|
    ensures forall j :: i <= j < i + n ==> s[j] !in stop
    ensures i + n < |s| ==> s[i + n] in stop
    decreases |s| - i
  {
    if i == |s| || s[i] in stop then 0 else 1 + Span(s, i + 1, stop)
  }

  /** The first index at or after `i` that is not whitespace (or `|s|`). */
  function SkipSpace(s: string, i: nat): (k: nat)
    requires i <= |s|
    ensures i <= k <= |s|
    ensures forall j :: i <= j < k ==> IsSpace(s[j])
    ensures k < |s| ==> !IsSpace(s[k])
    decreases |s| - i
  {
    if i == |s| || !IsSpace(s[i]) then i else SkipSpace(s, i + 1)
  }

  /** The lookahead `(?=\s*<)`: optional whitespace, then `<`. */
  predicate AngleAhead(s: string, i: nat)
    requires i <= |s|
  {
    SkipSpace(s, i) < |s| && s[SkipSpace(s, i)] == '<'
  }

  /** A comma at which `re.split(r",(?=\s*<)", s)` cuts. */
  predicate SplitsAt(s: string, i: nat) {
    i < |s| && s[i] == ',' && AngleAhead(s, i + 1)
  }

  // ---------------------------------------------------------------------
  // Splitting into entries
  // ---------------------------------------------------------------------

  /** The pieces of `s[start..]` when the current piece began at `start`
      and the scan has reached `i`. */
  function SplitFrom(s: string, start: nat, i: nat): (r: seq<string>)
    requires start <= i <= |s|
    ensures |r| >= 1
    decreases |s| - i
  {
    if i == |s| then [s[start..]]
    else if SplitsAt(s, i) then [s[start..i]] + SplitFrom(s, i + 1, i + 1)
    else SplitFrom(s, start, i + 1)
  }

  /** `re.split(r",(?=\s*<)", s)`: re-joining the pieces with commas gives
      back the text, every piece after the first starts with optional
      blanks and `<`, and no piece holds a comma the split would cut at. */
  function SplitEntries(s: string): (r: seq<string>)
    ensures |r| >= 1
    ensures Join(r, ",") == s
    ensures forall k :: 1 <= k < |r| ==> AngleAhead(r[k], 0)
    ensures forall k, j :: 0 <= k < |r| && 0 <= j < |r[k]| ==> !SplitsAt(r[k], j)
  {
    SplitFromJoin(s, 0, 0);
    SplitFromPieces(s, 0, 0);
    SplitFrom(s, 0, 0)
  }

  /** Re-joining the pieces with commas gives back the text: the split only
      removes the commas it cuts at. */
  lemma {:induction false} SplitFromJoin(s: string, start: nat, i: nat)
    requires start <= i <= |s|
    ensures Join(SplitFrom(s, start, i), ",") == s[start..]
    decreases |s| - i
  {
    if i < |s| {
      if SplitsAt(s, i) {
        SplitFromJoin(s, i + 1, i + 1);
        JoinCons(s[start..i], SplitFrom(s, i + 1, i + 1), ",");
        CutAtComma(s, start, i);
      } else {
        SplitFromJoin(s, start, i + 1);
      }
    }
  }

  /** The text from `start` is the piece before the comma at `i`, the
      comma, and the rest. */
  lemma CutAtComma(s: string, start: nat, i: nat)
    requires start <= i < |s| && s[i] == ','
    ensures s[start..] == s[start..i] + "," + s[i + 1..]
  {
    assert s[start..] == s[start..i] + s[i..];
    assert s[i..] == "," + s[i + 1..];
  }

  /** Skipping blanks inside `s[a..b]` stops where skipping them in `s`
      does, or at the end of the slice. */
  lemma {:induction false} SkipSpaceSlice(s: string, a: nat, b: nat, i: nat)
    requires a <= i <= b <= |s|
    ensures a + SkipSpace(s[a..b], i - a) == if SkipSpace(s, i) < b then SkipSpace(s, i) else b
    decreases b - i
  {
    if i < b {
      assert s[a..b][i - a] == s[i];
      if IsSpace(s[i]) {
        SkipSpaceSlice(s, a, b, i + 1);
      }
    }
  }

  /** A cut inside a slice is a cut in the whole text. */
  lemma SplitsInSlice(s: string, a: nat, b: nat, j: nat)
    requires a <= b <= |s| && j < b - a
    ensures SplitsAt(s[a..b], j) ==> SplitsAt(s, a + j)
  {
    SkipSpaceSlice(s, a, b, a + j + 1);
    if SkipSpace(s[a..b], j + 1) < b - a {
      assert s[a..b][SkipSpace(s[a..b], j + 1)] == s[a + SkipSpace(s[a..b], j + 1)];
    }
  }

  /** The lookahead at the start of a piece that ends at `e`, past the `<`
      it found, still finds it inside the piece. */
  lemma AngleAheadSlice(s: string, start: nat, e: nat)
    requires start <= e <= |s| && AngleAhead(s, start) && SkipSpace(s, start) < e
    ensures AngleAhead(s[start..e], 0)
  {
    SkipSpaceSlice(s, start, e, start);
    assert s[start..e][SkipSpace(s, start) - start] == s[SkipSpace(s, start)];
  }

  /** Where the split cuts: every piece after the first starts with the
      lookahead, the first does when the text at `start` does, and no
      piece holds a cut of its own. */
  lemma {:induction false} SplitFromPieces(s: string, start: nat, i: nat)
    requires start <= i <= |s|
    requires forall j :: start <= j < i ==> !SplitsAt(s, j)
    ensures forall k :: 1 <= k < |SplitFrom(s, start, i)| ==> AngleAhead(SplitFrom(s, start, i)[k], 0)
    ensures AngleAhead(s, start) ==> AngleAhead(SplitFrom(s, start, i)[0], 0)
    ensures forall k, j :: 0 <= k < |SplitFrom(s, start, i)| && 0 <= j < |SplitFrom(s, start, i)[k]| ==>
      !SplitsAt(SplitFrom(s, start, i)[k], j)
    decreases |s| - i
  {
    if i == |s| {
      assert s[start..] == s[start..|s|];
      assert SplitFrom(s, start, i) == [s[start..|s|]];
      PieceHasNoCut(s, start, |s|);
      if AngleAhead(s, start) {
        AngleAheadSlice(s, start, |s|);
      }
    } else if SplitsAt(s, i) {
      var rest := SplitFrom(s, i + 1, i + 1);
      SplitFromPieces(s, i + 1, i + 1);
      PieceHasNoCut(s, start, i);
      if AngleAhead(s, start) {
        AngleAheadSlice(s, start, i);
      }
      assert SplitFrom(s, start, i) == [s[start..i]] + rest;
    } else {
      SplitFromPieces(s, start, i + 1);
    }
  }

  /** A piece between two cuts holds no cut of its own. */
  lemma PieceHasNoCut(s: string, a: nat, b: nat)
    requires a <= b <= |s|
    requires forall j :: a <= j < b ==> !SplitsAt(s, j)
    ensures forall j :: 0 <= j < b - a ==> !SplitsAt(s[a..b], j)
  {
    forall j | 0 <= j < b - a
      ensures !SplitsAt(s[a..b], j)
    {
      SplitsInSlice(s, a, b, j);
    }
  }

  // ---------------------------------------------------------------------
  // One entry
  // ---------------------------------------------------------------------

  /** `re.match(r"<([^>]+)>", entry)`: the URI text and where the match ends. */
  function MatchUri(entry: string): (r: Option<(string, nat)>)
    ensures r.Some? <==>
      |entry| > 2 && entry[0] == '<' && entry[1] != '>' && exists j :: 2 <= j < |entry| && entry[j] == '>'
    ensures r.Some? ==> |r.value.0| > 0 && r.value.1 == |r.value.0| + 2 <= |entry|
    ensures r.Some? ==> entry[..r.value.1] == "<" + r.value.0 + ">" && '>' !in r.value.0
  {
    if |entry| == 0 || entry[0] != '<' then None
    else
      match IndexOfChar(entry[1..], '>')
      case None =>
        assert forall j :: 2 <= j < |entry| ==> entry[j] == entry[1..][j - 1];
        None
      case Some(j) =>
        if j == 0 then
          assert forall k :: 2 <= k < |entry| ==> entry[k] == entry[1..][k - 1];
          assert entry[1] == '>';
          None
        else
          var uri := entry[1..1 + j];
          assert entry[1] == entry[1..][0] && uri == entry[1..][..j];
          assert entry[1 + j] == '>';
          assert entry[..j + 2] == "<" + uri + ">";
          Some((uri, j + 2))
  }

  /** One `finditer` hit: the raw key and, when an `=` follows it, the raw
      value (`None` for a bare attribute). */
  datatype AttrMatch = AttrMatch(key: string, value: Option<string>, end: nat)

  /** The attribute pattern `;([^;=]+)(?:=(?:"([^"]*)"|([^;,]*)))?` tried at
      a `;` at index `p`. The key run is greedy and can always be followed
      by the optional part, so no backtracking is ever needed. */
  function MatchAttr(s: string, p: nat): (r: Option<AttrMatch>)
    requires p < |s| && s[p] == ';'
    ensures r.Some? ==> p < r.value.end <= |s|
    ensures r.Some? <==> p + 1 < |s| && s[p + 1] != ';' && s[p + 1] != '='
    ensures r.Some? ==> 0 < |r.value.key| && p + 1 + |r.value.key| <= |s|
    ensures r.Some? ==> r.value.key == s[p + 1..p + 1 + |r.value.key|]
    ensures r.Some? ==> ';' !in r.value.key && '=' !in r.value.key
    ensures r.Some? ==> p + 1 + |r.value.key| == |s| || s[p + 1 + |r.value.key|] in {';', '='}
    ensures r.Some? ==>
      (r.value.value.Some? <==> p + 1 + |r.value.key| < |s| && s[p + 1 + |r.value.key|] == '=')
  {
    var k := Span(s, p + 1, {';', '='});
    if k == 0 then None
    else
      var key := s[p + 1..p + 1 + k];
      var keyEnd := p + 1 + k;
      if keyEnd < |s| && s[keyEnd] == '=' then
        var (value, end) := ValueAt(s, keyEnd + 1);
        Some(AttrMatch(key, Some(value), end))
      else Some(AttrMatch(key, None, keyEnd))
  }

  /** The part of the pattern after `=`, at index `v`: a quoted run when a
      closing quote follows, otherwise the run up to the next `;` or `,`.
      Gives the value and the index just past it. */
  function ValueAt(s: string, v: nat): (r: (string, nat))
    requires v <= |s|
    ensures v <= r.1 <= |s|
  {
    var closing := if v < |s| && s[v] == '"' then IndexOfChar(s[v + 1..], '"') else None;
    match closing
    case Some(q) => (s[v + 1..v + 1 + q], v + q + 2)
    case None =>
      var n := Span(s, v, {';', ','});
      (s[v..v + n], v + n)
  }

  /** `re.finditer(...)` from index `p`: a failed try at a `;` resumes the
      search one character later, a hit resumes where it ended. */
  function FindAttrs(s: string, p: nat): (r: seq<AttrMatch>)
    requires p <= |s|
    decreases |s| - p
  {
    if p == |s| then []
    else if s[p] != ';' then FindAttrs(s, p + 1)
    else
      match MatchAttr(s, p)
      case None => FindAttrs(s, p + 1)
      case Some(m) => [m] + FindAttrs(s, m.end)
  }

  /** The value stored for a hit: stripped text, or `True` when bare. */
  function StoredValue(m: AttrMatch): AttrValue {
    match m.value
    case Some(v) => Text(Strip(v))
    case None => Flag
  }

  /** The (stripped key, stored value) pair each hit assigns. */
  function AttrPairs(attrs: seq<AttrMatch>): seq<(string, AttrValue)> {
    seq(|attrs|, k requires 0 <= k < |attrs| => (Strip(attrs[k].key), StoredValue(attrs[k])))
  }

  /** `resource[key.strip()] = value` for each hit, in order. */
  function ApplyAttrs(res: Resource, attrs: seq<AttrMatch>): (r: Resource)
    ensures forall k :: k in Keys(res) ==> k in Keys(r)
  {
    PutAll(res, AttrPairs(attrs))
  }

  /** The resource for a stripped entry, or `None` when it has no leading
      `<...>` (an empty entry included). */
  function ResourceOf(e: string): (r: Option<Resource>)
    ensures r.Some? <==> MatchUri(e).Some?
    ensures r.Some? ==> "uri" in Keys(r.value)
  {
    match MatchUri(e)
    case None => None
    case Some((uri, end)) => Some(ApplyAttrs([("uri", Text(uri))], FindAttrs(e[end..], 0)))
  }

  /** The resource for one entry of the split, or `None` when the loop
      `continue`s (an empty entry or one without a leading `<...>`). */
  function ParseEntry(entry: string): (r: Option<Resource>)
    ensures r.Some? <==> MatchUri(Strip(entry)).Some?
  {
    var e := Strip(entry);
    if e == "" then None else ResourceOf(e)
  }

  /** The per-entry outcomes of the loop. */
  function EntryResults(entries: seq<string>): (r: seq<Option<Resource>>)
    ensures |r| == |entries|
    ensures forall i :: 0 <= i < |r| ==> r[i] == ParseEntry(entries[i])
  {
    seq(|entries|, i requires 0 <= i < |entries| => ParseEntry(entries[i]))
  }

  /** `_parse_link_format(payload)`. */
  function ParseLinkFormat(payload: string): (r: seq<Resource>)
  {
    var t := Strip(payload);
    if t == "" then [] else Somes(EntryResults(SplitEntries(t)))
  }

  // ---------------------------------------------------------------------
  // Properties
  // ---------------------------------------------------------------------

  /** A blank payload has no resources. */
  lemma BlankPayload(payload: string)
    requires forall i :: 0 <= i < |payload| ==> IsSpace(payload[i])
    ensures ParseLinkFormat(payload) == []
  {
    StripBlank(payload);
  }

  /** Every resource returned has a `uri` key. */
  lemma EveryResourceHasUri(payload: string)
    ensures forall k :: 0 <= k < |ParseLinkFormat(payload)| ==> "uri" in Keys(ParseLinkFormat(payload)[k])
  {
    var t := Strip(payload);
    if t != "" {
      var xs := EntryResults(SplitEntries(t));
      forall k | 0 <= k < |Somes(xs)| ensures "uri" in Keys(Somes(xs)[k]) {
        var i :| 0 <= i < |xs| && xs[i] == Some(Somes(xs)[k]);
      }
    }
  }

  /** Entry `i` contributes its resource in place when it has a leading
      `<...>` and nothing otherwise; the other entries are unaffected. */
  lemma EntryContribution(entries: seq<string>, i: nat)
    requires i < |entries|
    ensures var xs := EntryResults(entries);
      Somes(xs) == Somes(xs[..i]) +
        (if MatchUri(Strip(entries[i])).Some? then [ParseEntry(entries[i]).value] else []) +
        Somes(xs[i + 1..])
  {
    var xs := EntryResults(entries);
    assert xs == xs[..i] + [xs[i]] + xs[i + 1..];
    SomesAppend(xs[..i] + [xs[i]], xs[i + 1..]);
    SomesAppend(xs[..i], [xs[i]]);
    assert Somes([xs[i]]) == (if xs[i].Some? then [xs[i].value] else []) by {
      assert [xs[i]][1..] == [];
    }
  }

  /** An attribute never written under the key `uri` leaves the `uri` taken
      from `<...>` in place. */
  lemma ApplyAttrsKeepsOther(res: Resource, attrs: seq<AttrMatch>, key: string)
    requires forall k :: 0 <= k < |attrs| ==> Strip(attrs[k].key) != key
    ensures Get(ApplyAttrs(res, attrs), key) == Get(res, key)
  {
    PutAllOther(res, AttrPairs(attrs), key);
  }

  /** The last hit for a key decides its value: later hits overwrite
      earlier ones. */
  lemma ApplyAttrsLastWins(res: Resource, attrs: seq<AttrMatch>, i: nat)
    requires i < |attrs|
    requires forall k :: i < k < |attrs| ==> Strip(attrs[k].key) != Strip(attrs[i].key)
    ensures Get(ApplyAttrs(res, attrs), Strip(attrs[i].key)) == Some(StoredValue(attrs[i]))
  {
    PutAllLastWins(res, AttrPairs(attrs), i);
  }

  /** Every resource's `uri` is the text between the leading `<` and `>`,
      unless an attribute itself is named `uri`. */
  lemma EntryUri(e: string)
    requires MatchUri(e).Some?
    requires var end := MatchUri(e).value.1;
      forall k :: 0 <= k < |FindAttrs(e[end..], 0)| ==> Strip(FindAttrs(e[end..], 0)[k].key) != "uri"
    ensures Get(ResourceOf(e).value, "uri") == Some(Text(MatchUri(e).value.0))
  {
    var (uri, end) := MatchUri(e).value;
    ApplyAttrsKeepsOther([("uri", Text(uri))], FindAttrs(e[end..], 0), "uri");
  }

  /** A bare attribute (`;obs` at the end or before the next `;`) is a hit
      without a value, stored as `True`. */
  lemma BareAttribute(key: string, rest: string)
    requires |key| > 0 && ';' !in key && '=' !in key
    requires rest == "" || rest[0] == ';'
    ensures MatchAttr(";" + key + rest, 0) == Some(AttrMatch(key, None, |key| + 1))
    ensures StoredValue(AttrMatch(key, None, |key| + 1)) == Flag
  {
    var s := ";" + key + rest;
    SpanOver(s, 1, key, {';', '='});
  }

  /** A quoted value (`;rt="a b"`) is stored without its quotes. */
  lemma QuotedAttribute(key: string, value: string, rest: string)
    requires |key| > 0 && ';' !in key && '=' !in key
    requires '"' !in value
    ensures MatchAttr(";" + key + "=\"" + value + "\"" + rest, 0) ==
      Some(AttrMatch(key, Some(value), |key| + |value| + 4))
  {
    var s := ";" + key + "=\"" + value + "\"" + rest;
    var v := |key| + 2;
    QuotedLayout(key, value, rest, s);
    SpanOver(s, 1, key, {';', '='});
    assert IndexOfChar(s[v + 1..], '"') == Some(|value|) by {
      assert (value + "\"" + rest)[|value|] == '"';
      assert (value + "\"" + rest)[..|value|] == value;
    }
    QuotedValue(s, v, value);
    MatchValued(s, key, value, v + |value| + 2);
  }

  /** Where the parts of `;key="value"rest` sit. */
  lemma QuotedLayout(key: string, value: string, rest: string, s: string)
    requires s == ";" + key + "=\"" + value + "\"" + rest
    ensures |s| == |key| + |value| + 4 + |rest|
    ensures s[1..1 + |key|] == key && s[1 + |key|] == '=' && s[|key| + 2] == '"'
    ensures s[|key| + 3..] == value + "\"" + rest
    ensures s[|key| + 3..|key| + 3 + |value|] == value
  {
    assert s == (";" + key + "=\"") + (value + "\"" + rest);
  }

  /** A quoted value: the text between the opening quote at `v` and the
      first quote after it. */
  lemma QuotedValue(s: string, v: nat, value: string)
    requires v < |s| && s[v] == '"'
    requires IndexOfChar(s[v + 1..], '"') == Some(|value|)
    requires s[v + 1..v + 1 + |value|] == value
    ensures ValueAt(s, v) == (value, v + |value| + 2)
  {
  }

  /** An unquoted value runs to the next `;` or `,` and is stored stripped. */
  lemma PlainAttribute(key: string, value: string, rest: string)
    requires |key| > 0 && ';' !in key && '=' !in key
    requires ';' !in value && ',' !in value && (|value| == 0 || value[0] != '"')
    requires rest == "" || rest[0] == ';' || rest[0] == ','
    ensures MatchAttr(";" + key + "=" + value + rest, 0) ==
      Some(AttrMatch(key, Some(value), |key| + |value| + 2))
  {
    var s := ";" + key + "=" + value + rest;
    var v := |key| + 2;
    assert s[0] == ';' && s[1..1 + |key|] == key && s[1 + |key|] == '=';
    assert s[v..v + |value|] == value;
    assert v + |value| == |s| || s[v + |value|] in {';', ','} by {
      if v + |value| < |s| { assert s[v + |value|] == rest[0]; }
    }
    assert v == |s| || s[v] != '"' by {
      if |value| > 0 { assert s[v] == value[0]; } else if v < |s| { assert s[v] == rest[0]; }
    }
    PlainAttributeAt(s, key, value);
  }

  /** The same over any text laid out as `;`, key, `=`, value, then a
      separator or the end. */
  lemma PlainAttributeAt(s: string, key: string, value: string)
    requires |key| > 0 && ';' !in key && '=' !in key && ';' !in value && ',' !in value
    requires |key| + 2 + |value| <= |s|
    requires s[0] == ';' && s[1..1 + |key|] == key && s[1 + |key|] == '='
    requires s[|key| + 2..|key| + 2 + |value|] == value
    requires |key| + 2 + |value| == |s| || s[|key| + 2 + |value|] in {';', ','}
    requires |key| + 2 == |s| || s[|key| + 2] != '"'
    ensures MatchAttr(s, 0) == Some(AttrMatch(key, Some(value), |key| + |value| + 2))
  {
    var v := |key| + 2;
    SpanOver(s, 1, key, {';', '='});
    SpanOver(s, v, value, {';', ','});
    PlainValue(s, v, value);
    MatchValued(s, key, value, v + |value|);
  }

  /** An unquoted value located at `v` and ending where `Span` stops. */
  lemma PlainValue(s: string, v: nat, value: string)
    requires v + |value| <= |s| && s[v..v + |value|] == value
    requires Span(s, v, {';', ','}) == |value|
    requires v == |s| || s[v] != '"'
    ensures ValueAt(s, v) == (value, v + |value|)
  {
  }

  /** `_ATTR_PATTERN` at index 0 over a key followed by `=` and a value. */
  lemma MatchValued(s: string, key: string, value: string, end: nat)
    requires 0 < |s| && s[0] == ';'
    requires 0 < |key| && 1 + |key| < |s| && s[1..1 + |key|] == key && s[1 + |key|] == '='
    requires Span(s, 1, {';', '='}) == |key|
    requires ValueAt(s, |key| + 2) == (value, end)
    ensures MatchAttr(s, 0) == Some(AttrMatch(key, Some(value), end))
  {
  }

  /** `Span` stops exactly after a run known to avoid `stop` when the next
      character is in `stop` (or the text ends). */
  lemma SpanOver(s: string, i: nat, run: string, stop: set<char>)
    requires i + |run| <= |s| && s[i..i + |run|] == run
    requires forall c :: c in run ==> c !in stop
    requires i + |run| == |s| || s[i + |run|] in stop
    ensures Span(s, i, stop) == |run|
  {
  }

  /** Text without commas is one entry. */
  lemma {:induction false} NoCommaOneEntry(s: string, start: nat, i: nat)
    requires start <= i <= |s|
    requires ',' !in s
    ensures SplitFrom(s, start, i) == [s[start..]]
    decreases |s| - i
  {
    if i < |s| {
      assert s[i] in s;
      NoCommaOneEntry(s, start, i + 1);
    }
  }

  /** A payload with no comma and no surrounding blanks is one link. */
  lemma SingleLink(payload: string)
    requires |payload| > 0 && !IsSpace(payload[0]) && !IsSpace(payload[|payload| - 1])
    requires ',' !in payload
    requires ResourceOf(payload).Some?
    ensures ParseLinkFormat(payload) == [ResourceOf(payload).value]
  {
    NoSpaceStrip(payload);
    NoCommaOneEntry(payload, 0, 0);
    assert SplitEntries(payload) == [payload];
    var xs := EntryResults([payload]);
    assert xs == [Some(ResourceOf(payload).value)];
    assert xs[1..] == [];
  }

  /** A link `<uri>;key` with one bare attribute. */
  lemma OneBareAttribute(e: string, uri: string, key: string)
    requires MatchUri(e).Some? && MatchUri(e).value.0 == uri
    requires e[MatchUri(e).value.1..] == ";" + key
    requires |key| > 0 && ';' !in key && '=' !in key
    requires !IsSpace(key[0]) && !IsSpace(key[|key| - 1]) && key != "uri"
    ensures ResourceOf(e) == Some([("uri", Text(uri)), (key, Flag)])
  {
    var a := e[MatchUri(e).value.1..];
    BareAttribute(key, "");
    assert a == ";" + key + "";
    assert FindAttrs(a, |key| + 1) == [];
    assert FindAttrs(a, 0) == [AttrMatch(key, None, |key| + 1)];
    NoSpaceStrip(key);
    var attrs := [AttrMatch(key, None, |key| + 1)];
    var ps := AttrPairs(attrs);
    assert ps == [(key, Flag)] && ps[1..] == [];
    assert PutAll([("uri", Text(uri))], ps) == PutAll(Put([("uri", Text(uri))], key, Flag), []);
    assert Put([("uri", Text(uri))], key, Flag) == [("uri", Text(uri)), (key, Flag)] by {
      var d := [("uri", Text(uri))];
      assert d[0].0 != key && d[1..] == [];
    }
  }

  lemma ExampleUri(p: string)
    requires p == "</a>;rt"
    ensures MatchUri(p) == Some(("/a", 4))
  {
    var m := MatchUri(p);
    assert p[3] == '>';
    assert m.Some?;
    var uri := m.value.0;
    assert uri[0] == p[1];
    assert uri[1] == p[2];
    assert |uri| == 2;
    assert uri == "/a";
  }

  lemma ExampleResource(p: string)
    requires p == "</a>;rt"
    ensures ResourceOf(p) == Some([("uri", Text("/a")), ("rt", Flag)])
  {
    ExampleUri(p);
    assert p[4..] == ";" + "rt";
    OneBareAttribute(p, "/a", "rt");
  }

  lemma ExampleShape(p: string)
    requires p == "</a>;rt"
    ensures |p| > 0 && !IsSpace(p[0]) && !IsSpace(p[|p| - 1]) && ',' !in p
  {
  }

  /** The link `</a>;rt`: a bare `rt` is stored as `True`. */
  lemma BareRtExample(p: string)
    requires p == "</a>;rt"
    ensures ParseLinkFormat(p) == [[("uri", Text("/a")), ("rt", Flag)]]
  {
    ExampleResource(p);
    ExampleShape(p);
    SingleLink(p);
  }
}

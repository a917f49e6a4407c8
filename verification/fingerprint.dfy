/** The OS fingerprinter of `protocols/fingerprint.py`: candidate texts
    come from the UPnP `SERVER` header and the `Server:` lines of grabbed
    banners; the first candidate that some pattern of the ordered table
    matches gives the OS guess. Regular expressions are an uninterpreted
    match relation. */
module Fingerprint {
  import opened Common
  import opened OrderedMap
  import opened DeviceModel
  import opened Enrichment

  /** `pattern.search(text)` succeeds. */
  type Matcher = (string, string) -> bool

  /** The pattern table, most specific first: a case-insensitive pattern
      and the OS name it indicates. */
  const OsPatterns: seq<(string, string)> := [
    ("Synology", "Synology DSM (Linux)"),
    ("QNAP", "QNAP QTS (Linux)"),
    ("MikroTik", "MikroTik RouterOS"),
    ("OpenWrt", "OpenWrt (Linux)"),
    ("DD-WRT", "DD-WRT (Linux)"),
    ("Ubiquiti|UniFi", "Ubiquiti (Linux)"),
    ("FreeNAS|TrueNAS", "TrueNAS (FreeBSD)"),
    ("pfSense", "pfSense (FreeBSD)"),
    ("ESXi|VMware", "VMware ESXi"),
    ("Cisco", "Cisco IOS"),
    ("Roku", "Roku OS"),
    ("Tizen", "Samsung Tizen"),
    ("webOS", "LG webOS"),
    ("Android", "Android"),
    ("AirPort", "Apple AirPort"),
    ("Ubuntu", "Linux (Ubuntu)"),
    ("Debian", "Linux (Debian)"),
    ("CentOS|Red\\s?Hat|RHEL", "Linux (RHEL)"),
    ("Fedora", "Linux (Fedora)"),
    ("Arch\\s?Linux", "Linux (Arch)"),
    ("Linux", "Linux"),
    ("FreeBSD", "FreeBSD"),
    ("Windows\\s*NT\\s*10", "Windows 10/11"),
    ("Windows\\s*NT\\s*6\\.3", "Windows 8.1"),
    ("Windows\\s*NT\\s*6\\.[12]", "Windows 7/8"),
    ("Windows", "Windows"),
    ("Darwin|macOS|Mac\\s?OS", "macOS"),
    ("iPhone\\s?OS|iOS", "iOS")
  ]

  // ---------------------------------------------------------------------
  // Pattern table
  // ---------------------------------------------------------------------

  /** Index of the first table entry whose pattern matches. */
  function FirstHit(table: seq<(string, string)>, text: string, matches: Matcher): (r: Option<nat>)
    ensures r.Some? ==> r.value < |table| && matches(table[r.value].0, text)
    ensures r.Some? ==> forall j :: 0 <= j < r.value ==> !matches(table[j].0, text)
    ensures r.None? ==> forall j :: 0 <= j < |table| ==> !matches(table[j].0, text)
    decreases |table|
  {
    if |table| == 0 then None
    else if matches(table[0].0, text) then Some(0)
    else
      match FirstHit(table[1..], text, matches)
      case None => None
      case Some(i) => Some(i + 1)
  }

  /** `_match_os`: the OS name of the earliest matching pattern. */
  function MatchOs(table: seq<(string, string)>, text: string, matches: Matcher): (r: Option<string>)
    ensures r.None? <==> forall j :: 0 <= j < |table| ==> !matches(table[j].0, text)
  {
    match FirstHit(table, text, matches)
    case None => None
    case Some(i) => Some(table[i].1)
  }

  /** The earliest matching entry names the OS. */
  lemma {:induction false} MatchOsFirst(table: seq<(string, string)>, text: string, matches: Matcher, i: nat)
    requires i < |table| && matches(table[i].0, text)
    requires forall j :: 0 <= j < i ==> !matches(table[j].0, text)
    ensures MatchOs(table, text, matches) == Some(table[i].1)
  {
    FirstHitAt(table, text, matches, i);
  }

  lemma {:induction false} FirstHitAt(table: seq<(string, string)>, text: string, matches: Matcher, i: nat)
    requires i < |table| && matches(table[i].0, text)
    requires forall j :: 0 <= j < i ==> !matches(table[j].0, text)
    ensures FirstHit(table, text, matches) == Some(i)
    decreases i
  {
    if i > 0 {
      assert !matches(table[0].0, text);
      FirstHitAt(table[1..], text, matches, i - 1);
    }
  }

  /** Entries after the first hit do not matter. */
  lemma {:induction false} MatchOsIgnoresLater(table: seq<(string, string)>, more: seq<(string, string)>, text: string, matches: Matcher)
    requires MatchOs(table, text, matches).Some?
    ensures MatchOs(table + more, text, matches) == MatchOs(table, text, matches)
  {
    FirstHitPrefix(table, more, text, matches);
  }

  lemma {:induction false} FirstHitPrefix(table: seq<(string, string)>, more: seq<(string, string)>, text: string, matches: Matcher)
    requires FirstHit(table, text, matches).Some?
    ensures FirstHit(table + more, text, matches) == FirstHit(table, text, matches)
    decreases |table|
  {
    assert (table + more)[0] == table[0];
    if !matches(table[0].0, text) {
      assert (table + more)[1..] == table[1..] + more;
      FirstHitPrefix(table[1..], more, text, matches);
    }
  }

  // ---------------------------------------------------------------------
  // Candidate texts
  // ---------------------------------------------------------------------

  /** The line boundaries of Python's `str.splitlines()`. */
  predicate IsLineBreak(c: char) {
    || c == '\n' || c == '\r'
    || c == '\U{000B}' || c == '\U{000C}'
    || ('\U{001C}' <= c <= '\U{001E}')
    || c == '\U{0085}' || c == '\U{2028}' || c == '\U{2029}'
  }

  function FirstBreak(s: string): (r: Option<nat>)
    ensures r.Some? ==> r.value < |s| && IsLineBreak(s[r.value])
    ensures r.Some? ==> forall j :: 0 <= j < r.value ==> !IsLineBreak(s[j])
    ensures r.None? ==> forall j :: 0 <= j < |s| ==> !IsLineBreak(s[j])
    decreases |s|
  {
    if |s| == 0 then None
    else if IsLineBreak(s[0]) then Some(0)
    else
      match FirstBreak(s[1..])
      case None => None
      case Some(i) => Some(i + 1)
  }

  /** `s.splitlines()`: `"\r\n"` is one boundary and a final boundary
      does not start an empty line. */
  function SplitLines(s: string): (r: seq<string>)
    ensures forall k, j :: 0 <= k < |r| && 0 <= j < |r[k]| ==> !IsLineBreak(r[k][j])
    ensures |r| == 0 <==> s == ""
    ensures FirstBreak(s).None? && s != "" ==> r == [s]
    ensures FirstBreak(s).Some? ==> r[0] == s[..FirstBreak(s).value]
    decreases |s|
  {
    if |s| == 0 then []
    else
      match FirstBreak(s)
      case None => [s]
      case Some(i) =>
        var skip := if s[i] == '\r' && i + 1 < |s| && s[i + 1] == '\n' then 2 else 1;
        [s[..i]] + SplitLines(s[i + skip..])
  }

  /** With `"\n"` as the only boundary and none at the end, joining the
      lines with `"\n"` gives back the text. */
  lemma {:induction false} SplitLinesJoin(s: string)
    requires forall j :: 0 <= j < |s| && IsLineBreak(s[j]) ==> s[j] == '\n'
    requires |s| > 0 ==> s[|s| - 1] != '\n'
    ensures Join(SplitLines(s), "\n") == s
    decreases |s|
  {
    if |s| > 0 && FirstBreak(s).Some? {
      var i := FirstBreak(s).value;
      var rest := s[i + 1..];
      SplitLinesAtNewline(s, i);
      assert forall j :: 0 <= j < |rest| ==> rest[j] == s[i + 1 + j];
      SplitLinesJoin(rest);
      JoinCons(s[..i], SplitLines(rest), "\n");
      AroundChar(s, i, '\n');
    }
  }

  /** The text is what comes before index `i`, the character there and
      what comes after. */
  lemma AroundChar(s: string, i: nat, c: char)
    requires i < |s| && s[i] == c
    ensures s[..i] + [c] + s[i + 1..] == s
  {
  }

  /** At a `"\n"` that is not the last character, the first line ends and
      the remaining lines are those of the rest. */
  lemma SplitLinesAtNewline(s: string, i: nat)
    requires FirstBreak(s) == Some(i) && s[i] == '\n' && i + 1 < |s|
    ensures SplitLines(s) == [s[..i]] + SplitLines(s[i + 1..])
    ensures |SplitLines(s[i + 1..])| >= 1
  {
  }

  /** `line.lower().startswith("server:")`. */
  predicate IsServerLine(line: string) {
    StartsWith(Lower(line), "server:")
  }

  /** `line.split(":", 1)[1].strip()` for a line that has a colon. */
  function AfterColon(line: string): string
    requires ':' in line
  {
    var i := IndexOfChar(line, ':').value;
    Strip(line[i + 1..])
  }

  /** On a `Server:` line the first colon is the one after the header
      name, so the value is the rest of the line, stripped. */
  lemma ServerLineValue(line: string)
    requires IsServerLine(line)
    ensures ':' in line && AfterColon(line) == Strip(line[7..])
  {
    var low := Lower(line);
    assert low[..7] == "server:";
    assert LowerChar(line[6]) == ':';
    assert line[6] == ':';
    forall j | 0 <= j < 6 ensures line[j] != ':' {
      assert LowerChar(line[j]) == "server:"[j];
    }
    assert ':' !in line[..6];
  }

  /** The `Server:` values of a list of banner texts, in order. */
  function BannerServers(banners: seq<string>): (r: seq<string>)
    decreases |banners|
  {
    if |banners| == 0 then []
    else ServerLines(SplitLines(banners[0])) + BannerServers(banners[1..])
  }

  /** The `Server:` values of the lines of one banner, in order. */
  function ServerLines(lines: seq<string>): (r: seq<string>)
    ensures |r| <= |lines|
    decreases |lines|
  {
    if |lines| == 0 then []
    else
      var rest := ServerLines(lines[1..]);
      if IsServerLine(lines[0]) && ':' in lines[0] then [AfterColon(lines[0])] + rest else rest
  }

  /** The `Server:` values of consecutive runs of lines are those of each
      run, in order. */
  lemma {:induction false} ServerLinesAppend(a: seq<string>, b: seq<string>)
    ensures ServerLines(a + b) == ServerLines(a) + ServerLines(b)
    decreases |a|
  {
    if |a| == 0 {
      assert a + b == b;
    } else {
      assert (a + b)[0] == a[0];
      assert (a + b)[1..] == a[1..] + b;
      ServerLinesAppend(a[1..], b);
    }
  }

  /** One line contributes the stripped text after `server:` when it is a
      `Server:` line, and nothing otherwise. */
  lemma ServerLinesSingle(line: string)
    ensures ServerLines([line]) == if IsServerLine(line) then [Strip(line[7..])] else []
  {
    assert [line][1..] == [];
    if IsServerLine(line) {
      ServerLineValue(line);
    }
  }

  /** The `Server:` values of consecutive banner lists are those of each
      list, in order. */
  lemma {:induction false} BannerServersAppend(a: seq<string>, b: seq<string>)
    ensures BannerServers(a + b) == BannerServers(a) + BannerServers(b)
    decreases |a|
  {
    if |a| == 0 {
      assert a + b == b;
    } else {
      assert (a + b)[0] == a[0];
      assert (a + b)[1..] == a[1..] + b;
      BannerServersAppend(a[1..], b);
    }
  }

  /** One banner contributes the `Server:` values of its lines. */
  lemma BannerServersSingle(banner: string)
    ensures BannerServers([banner]) == ServerLines(SplitLines(banner))
  {
    assert [banner][1..] == [];
  }

  /** `raw_data.get("SERVER", "")` as text. */
  function ServerOf(d: DeviceInfo): string {
    match GetValue(d.rawData, "SERVER", VStr(""))
    case VStr(s) => s
    case _ => ""
  }

  /** The candidates, in the order they are tried: the `SERVER` header
      when non-empty, then every `Server:` line of every banner. */
  function Candidates(d: DeviceInfo): (r: seq<string>)
    ensures ServerOf(d) != "" ==> |r| > 0 && r[0] == ServerOf(d)
    ensures ServerOf(d) != "" ==> r[1..] == BannerServers(Values(d.banners))
    ensures ServerOf(d) == "" ==> r == BannerServers(Values(d.banners))
    ensures ServerOf(d) == "" && d.banners == [] ==> r == []
  {
    (if ServerOf(d) != "" then [ServerOf(d)] else []) + BannerServers(Values(d.banners))
  }

  // ---------------------------------------------------------------------
  // The fingerprinter stage
  // ---------------------------------------------------------------------

  /** The guess of the first candidate that yields one. */
  function FirstGuess(cands: seq<string>, table: seq<(string, string)>, matches: Matcher): (r: Option<string>)
    ensures r.None? <==> forall j :: 0 <= j < |cands| ==> !Truthy(MatchOs(table, cands[j], matches))
    ensures r.Some? ==> r.value != ""
    decreases |cands|
  {
    if |cands| == 0 then None
    else
      var g := MatchOs(table, cands[0], matches);
      if Truthy(g) then g
      else
        FirstGuess(cands[1..], table, matches)
  }

  /** The first candidate with a guess decides. */
  lemma {:induction false} FirstGuessAt(cands: seq<string>, table: seq<(string, string)>, matches: Matcher, i: nat)
    requires i < |cands| && Truthy(MatchOs(table, cands[i], matches))
    requires forall j :: 0 <= j < i ==> !Truthy(MatchOs(table, cands[j], matches))
    ensures FirstGuess(cands, table, matches) == MatchOs(table, cands[i], matches)
    decreases i
  {
    if i > 0 {
      assert !Truthy(MatchOs(table, cands[0], matches));
      FirstGuessAt(cands[1..], table, matches, i - 1);
    }
  }

  /** Later candidates are ignored once one yields a guess. */
  lemma {:induction false} FirstGuessIgnoresLater(cands: seq<string>, more: seq<string>, table: seq<(string, string)>, matches: Matcher)
    requires FirstGuess(cands, table, matches).Some?
    ensures FirstGuess(cands + more, table, matches) == FirstGuess(cands, table, matches)
    decreases |cands|
  {
    assert (cands + more)[0] == cands[0];
    if !Truthy(MatchOs(table, cands[0], matches)) {
      assert (cands + more)[1..] == cands[1..] + more;
      FirstGuessIgnoresLater(cands[1..], more, table, matches);
    }
  }

  /** `ServerHeaderFingerprinter.enrich` over a given table: the OS guess
      is set from the first candidate that yields one and is otherwise
      left as it was; nothing else changes. */
  function FingerprintWith(d: DeviceInfo, table: seq<(string, string)>, matches: Matcher): (r: DeviceInfo)
    ensures r.(osGuess := d.osGuess) == d
    ensures FirstGuess(Candidates(d), table, matches).None? ==> r == d
    ensures FirstGuess(Candidates(d), table, matches).Some? ==> r.osGuess == FirstGuess(Candidates(d), table, matches)
  {
    match FirstGuess(Candidates(d), table, matches)
    case None => d
    case Some(g) => d.(osGuess := Some(g))
  }

  /** `can_enrich`: a non-empty `SERVER` entry or at least one banner. */
  predicate CanFingerprint(d: DeviceInfo) {
    IsTrue(GetValue(d.rawData, "SERVER", VNone)) || |d.banners| > 0
  }

  /** The fingerprinter as a pipeline stage, with the built-in table. */
  function FingerprintStage(matches: Matcher): (e: Enricher)
    ensures e.name == "server_header_fingerprint"
    ensures forall d :: e.canEnrich(d) == Answer(CanFingerprint(d))
    ensures forall d :: e.enrich(d) == Returned(FingerprintWith(d, OsPatterns, matches))
  {
    Enricher("server_header_fingerprint", (d: DeviceInfo) => Answer(CanFingerprint(d)),
             (d: DeviceInfo) => Returned(FingerprintWith(d, OsPatterns, matches)))
  }

  /** A record with neither a `SERVER` text nor banners has no candidates
      and keeps its guess. */
  lemma NoCandidatesNoGuess(d: DeviceInfo, table: seq<(string, string)>, matches: Matcher)
    requires ServerOf(d) == "" && d.banners == []
    ensures FingerprintWith(d, table, matches) == d
  {
  }
}

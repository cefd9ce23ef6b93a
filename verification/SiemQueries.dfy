/** SIEM queries: a template's placeholders are filled with values made from the indicators
    found, in a fixed order.

    `FormatMeaning` says what a query is. `FormatExactly` says when all templates come out
    as if filled at once: when no value contains a placeholder that is filled after it, and
    no two make one. `PlaceholderInIndicator` is a query where one does. */
module SiemQueries {
  import opened Options
  import opened TemplateReplacement

  // ---------- The values ----------

  function Get(iocs: map<string, seq<string>>, kind: string): seq<string> {
    if kind in iocs then iocs[kind] else []
  }

  function Take(xs: seq<string>, n: nat): seq<string> {
    if |xs| <= n then xs else xs[..n]
  }

  function Join(separator: string, xs: seq<string>): string {
    if xs == [] then "" else if |xs| == 1 then xs[0] else xs[0] + separator + Join(separator, xs[1..])
  }

  function Quoted(xs: seq<string>): seq<string> {
    if xs == [] then [] else ["\"" + xs[0] + "\""] + Quoted(xs[1..])
  }

  function BeforeSlash(s: string): string {
    if s == "" || s[0] == '/' then "" else [s[0]] + BeforeSlash(s[1..])
  }

  /** The host matched at the start of a text. */
  function HostHere(url: string): Option<string> {
    if "https://" <= url && BeforeSlash(url[8..]) != "" then Some(BeforeSlash(url[8..]))
    else if "http://" <= url && BeforeSlash(url[7..]) != "" then Some(BeforeSlash(url[7..]))
    else None
  }

  /** The leftmost match of `https?://([^/]+)`. */
  function Host(url: string): Option<string>
    decreases |url|
  {
    if HostHere(url).Some? then HostHere(url)
    else if url == "" then None
    else Host(url[1..])
  }

  function Hosts(urls: seq<string>): seq<string> {
    if urls == [] then []
    else
      var before, last := Hosts(urls[..|urls| - 1]), Host(urls[|urls| - 1]);
      if last.Some? then before + [last.value] else before
  }

  function ListValue(xs: seq<string>, none: string): string {
    if xs == [] then none else Join(", ", Quoted(Take(xs, 10)))
  }

  function UrlValue(urls: seq<string>, platform: string, none: string): string {
    var hosts := Hosts(Take(urls, 5));
    if hosts == [] then none
    else if platform == "splunk" then Join("|", hosts)
    else Join(", ", Quoted(hosts))
  }

  function TimeValue(key: string): string {
    match key
    case "last_1h" => "1h"
    case "last_7d" => "7d"
    case _ => "24h"
  }

  /** The replacements in the order they are made. */
  function Steps(platform: string, timeRange: string, timeKey: string, iocs: map<string, seq<string>>): seq<Step> {
    [Step("time_range", timeRange)]
    + (if platform == "sentinel_kql" then [Step("time_value", TimeValue(timeKey))] else [])
    + [Step("ioc_ips", ListValue(Get(iocs, "ips"), "\"NO_IPS_PROVIDED\""))]
    + [Step("ioc_domains", ListValue(Get(iocs, "domains"), "\"NO_DOMAINS_PROVIDED\""))]
    + [Step("ioc_url_pattern", UrlValue(Get(iocs, "urls"), platform, "example.com"))]
    + [Step("ioc_urls", UrlValue(Get(iocs, "urls"), platform, "\"example.com\""))]
    + [Step("ioc_hashes", ListValue(Get(iocs, "hashes"), "\"NO_HASHES_PROVIDED\""))]
  }

  /** The host is that of the leftmost place where the pattern matches. */
  lemma {:induction false} HostIsLeftmost(url: string) returns (i: nat)
    ensures i <= |url| && Host(url) == HostHere(url[i..])
    ensures if Host(url).Some? then forall j | 0 <= j < i :: HostHere(url[j..]).None?
      else forall j | 0 <= j <= |url| :: HostHere(url[j..]).None?
    decreases |url|
  {
    assert url[0..] == url;
    if HostHere(url).Some? || url == "" {
      i := 0;
    } else {
      var k := HostIsLeftmost(url[1..]);
      i := k + 1;
      assert url[i..] == url[1..][k..];
      forall j | 0 < j <= |url| ensures url[j..] == url[1..][j - 1..] {}
    }
  }

  function BeforeQuote(s: string): string {
    if s == "" || s[0] == '"' then "" else [s[0]] + BeforeQuote(s[1..])
  }

  /** Reads a list of quoted texts separated by a comma and a space. */
  function ReadQuoted(s: string): Option<seq<string>>
    decreases |s|
  {
    if s == "" || s[0] != '"' then None
    else
      var x := BeforeQuote(s[1..]);
      if |s| < |x| + 2 then None
      else
        var rest := s[|x| + 2..];
        if rest == "" then Some([x])
        else if !(", " <= rest) then None
        else
          match ReadQuoted(rest[2..])
          case None => None
          case Some(xs) => Some([x] + xs)
  }

  lemma {:induction false} BeforeQuoteStops(x: string, rest: string)
    requires '"' !in x && rest != "" && rest[0] == '"'
    ensures BeforeQuote(x + rest) == x
  {
    if x == "" {
      assert x + rest == rest;
    } else {
      BeforeQuoteStops(x[1..], rest);
      assert (x + rest)[1..] == x[1..] + rest;
      assert x == [x[0]] + x[1..];
    }
  }

  lemma ReadsOne(x: string, rest: string, xs: seq<string>)
    requires '"' !in x
    requires if rest == "" then xs == [] else ", " <= rest && ReadQuoted(rest[2..]) == Some(xs)
    ensures ReadQuoted("\"" + (x + ("\"" + rest))) == Some([x] + xs)
  {
    var tail := "\"" + rest;
    var s := "\"" + (x + tail);
    BeforeQuoteStops(x, tail);
    assert s[0] == '"' && s[1..] == x + tail;
    assert s[|x| + 2..] == rest;
    assert [x] + [] == [x];
  }

  lemma JoinMore(x: string, rest: string)
    ensures "\"" + x + "\"" + ", " + rest == "\"" + (x + ("\"" + (", " + rest)))
    ensures "\"" + x + "\"" == "\"" + (x + ("\"" + ""))
    ensures ", " <= ", " + rest && (", " + rest)[2..] == rest
  {
  }

  lemma QuotedJoin(xs: seq<string>)
    requires xs != []
    ensures Join(", ", Quoted(xs)) == if |xs| == 1 then "\"" + xs[0] + "\""
      else "\"" + xs[0] + "\"" + ", " + Join(", ", Quoted(xs[1..]))
  {
    assert Quoted(xs)[1..] == Quoted(xs[1..]);
    if |xs| > 1 { assert Quoted(xs[1..]) != []; }
  }

  /** The list in a query can be read back: it has the indicators in order, if they have
      no quotes. */
  lemma {:induction false} QuotedReadsBack(xs: seq<string>)
    requires xs != [] && forall x <- xs :: '"' !in x
    ensures ReadQuoted(Join(", ", Quoted(xs))) == Some(xs)
  {
    assert xs[0] in xs && forall y <- xs[1..] :: y in xs;
    assert xs == [xs[0]] + xs[1..];
    QuotedJoin(xs);
    if |xs| == 1 {
      JoinMore(xs[0], "");
      ReadsOne(xs[0], "", []);
    } else {
      var tail := Join(", ", Quoted(xs[1..]));
      QuotedReadsBack(xs[1..]);
      JoinMore(xs[0], tail);
      ReadsOne(xs[0], ", " + tail, xs[1..]);
    }
  }

  /** A list of indicators appears in a query as its first ten, in order. */
  lemma ListShowsFirstTen(xs: seq<string>, none: string)
    requires xs != [] && forall x <- xs :: '"' !in x
    ensures ReadQuoted(ListValue(xs, none)) == Some(if |xs| <= 10 then xs else xs[..10])
  {
    var firsts := Take(xs, 10);
    forall x <- firsts ensures '"' !in x { assert x in xs; }
    QuotedReadsBack(firsts);
  }

  lemma ReplaceAllThen(s: string, steps: seq<Step>, name: string, value: string)
    ensures ReplaceAll(s, steps + [Step(name, value)]) == Replace(ReplaceAll(s, steps), Braced(name), value)
  {
    ReplaceAllConcat(s, steps, [Step(name, value)]);
  }

  method ReplaceIfPresent(query: string, name: string, value: string) returns (r: string)
    ensures r == Replace(query, Braced(name), value)
  {
    if Contains(query, Braced(name)) {
      r := Replace(query, Braced(name), value);
    } else {
      ReplaceAbsent(query, Braced(name), value);
      r := query;
    }
  }

  method UrlPatterns(urls: seq<string>) returns (hosts: seq<string>)
    ensures hosts == Hosts(Take(urls, 5))
  {
    hosts := [];
    var firsts := Take(urls, 5);
    for i := 0 to |firsts|
      invariant hosts == Hosts(firsts[..i])
    {
      assert firsts[..i + 1][..i] == firsts[..i];
      var host := Host(firsts[i]);
      if host.Some? {
        hosts := hosts + [host.value];
      }
    }
    assert firsts[..|firsts|] == firsts;
  }

  /** The two placeholders for URLs, replaced when at least one is there. */
  method ReplaceUrls(query: string, platform: string, urls: seq<string>) returns (r: string)
    ensures r == Replace(Replace(query, Braced("ioc_url_pattern"), UrlValue(urls, platform, "example.com")),
                         Braced("ioc_urls"), UrlValue(urls, platform, "\"example.com\""))
  {
    r := query;
    if Contains(query, Braced("ioc_url_pattern")) || Contains(query, Braced("ioc_urls")) {
      var hosts := [];
      if urls != [] {
        hosts := UrlPatterns(urls);
      }
      if hosts != [] {
        var patterns := if platform == "splunk" then Join("|", hosts) else Join(", ", Quoted(hosts));
        r := Replace(r, Braced("ioc_url_pattern"), patterns);
        r := Replace(r, Braced("ioc_urls"), patterns);
      } else {
        r := Replace(r, Braced("ioc_url_pattern"), "example.com");
        r := Replace(r, Braced("ioc_urls"), "\"example.com\"");
      }
    } else {
      ReplaceAbsent(query, Braced("ioc_url_pattern"), UrlValue(urls, platform, "example.com"));
      ReplaceAbsent(query, Braced("ioc_urls"), UrlValue(urls, platform, "\"example.com\""));
    }
  }

  method FormatQueryTemplate(template: string, platform: string, timeRange: string, timeKey: string,
                             iocs: map<string, seq<string>>)
    returns (query: string)
    ensures query == ReplaceAll(template, Steps(platform, timeRange, timeKey, iocs))
  {
    query := Replace(template, Braced("time_range"), timeRange);
    ghost var done := [Step("time_range", timeRange)];
    ReplaceAllThen(template, [], "time_range", timeRange);
    assert [] + done == done;
    if platform == "sentinel_kql" {
      ReplaceAllThen(template, done, "time_value", TimeValue(timeKey));
      done := done + [Step("time_value", TimeValue(timeKey))];
      query := Replace(query, Braced("time_value"), TimeValue(timeKey));
    } else {
      assert done + [] == done;
    }
    var ips := ListValue(Get(iocs, "ips"), "\"NO_IPS_PROVIDED\"");
    ReplaceAllThen(template, done, "ioc_ips", ips);
    done := done + [Step("ioc_ips", ips)];
    query := ReplaceIfPresent(query, "ioc_ips", ips);
    var domains := ListValue(Get(iocs, "domains"), "\"NO_DOMAINS_PROVIDED\"");
    ReplaceAllThen(template, done, "ioc_domains", domains);
    done := done + [Step("ioc_domains", domains)];
    query := ReplaceIfPresent(query, "ioc_domains", domains);
    ghost var pattern := UrlValue(Get(iocs, "urls"), platform, "example.com");
    ghost var urls := UrlValue(Get(iocs, "urls"), platform, "\"example.com\"");
    ReplaceAllThen(template, done, "ioc_url_pattern", pattern);
    done := done + [Step("ioc_url_pattern", pattern)];
    ReplaceAllThen(template, done, "ioc_urls", urls);
    done := done + [Step("ioc_urls", urls)];
    query := ReplaceUrls(query, platform, Get(iocs, "urls"));
    var hashes := ListValue(Get(iocs, "hashes"), "\"NO_HASHES_PROVIDED\"");
    ReplaceAllThen(template, done, "ioc_hashes", hashes);
    done := done + [Step("ioc_hashes", hashes)];
    query := ReplaceIfPresent(query, "ioc_hashes", hashes);
    assert done == Steps(platform, timeRange, timeKey, iocs);
  }

  // ---------- Characters of the values ----------

  predicate AllWithout(c: char, xs: seq<string>) {
    forall x <- xs :: c !in x
  }

  lemma {:induction false} JoinWithout(c: char, separator: string, xs: seq<string>)
    requires c !in separator && AllWithout(c, xs)
    ensures c !in Join(separator, xs)
  {
    if xs != [] {
      assert xs[0] in xs && forall x <- xs[1..] :: x in xs;
      JoinWithout(c, separator, xs[1..]);
    }
  }

  lemma {:induction false} QuotedWithout(c: char, xs: seq<string>)
    requires c != '"' && AllWithout(c, xs)
    ensures AllWithout(c, Quoted(xs))
  {
    if xs != [] {
      assert xs[0] in xs && forall x <- xs[1..] :: x in xs;
      QuotedWithout(c, xs[1..]);
    }
  }

  lemma {:induction false} BeforeSlashWithout(c: char, s: string)
    requires c !in s
    ensures c !in BeforeSlash(s)
  {
    if s != "" {
      assert s[0] in s && forall d <- s[1..] :: d in s;
      BeforeSlashWithout(c, s[1..]);
    }
  }

  lemma {:induction false} HostWithout(c: char, url: string)
    requires c !in url && Host(url).Some?
    ensures c !in Host(url).value
    decreases |url|
  {
    forall i | 0 <= i <= |url| ensures c !in url[i..] {
      assert forall d <- url[i..] :: d in url;
    }
    if HostHere(url).None? {
      HostWithout(c, url[1..]);
    } else if "https://" <= url && BeforeSlash(url[8..]) != "" {
      BeforeSlashWithout(c, url[8..]);
    } else {
      BeforeSlashWithout(c, url[7..]);
    }
  }

  lemma {:induction false} HostsWithout(c: char, urls: seq<string>)
    requires AllWithout(c, urls)
    ensures AllWithout(c, Hosts(urls))
  {
    if urls != [] {
      var last := urls[|urls| - 1];
      assert last in urls && forall u <- urls[..|urls| - 1] :: u in urls;
      HostsWithout(c, urls[..|urls| - 1]);
      if Host(last).Some? { HostWithout(c, last); }
    }
  }

  lemma ListValueWithout(c: char, xs: seq<string>, none: string)
    requires c == '{' || c == '}'
    requires AllWithout(c, xs) && c !in none
    ensures c !in ListValue(xs, none)
  {
    var firsts := Take(xs, 10);
    assert forall x <- firsts :: x in xs;
    QuotedWithout(c, firsts);
    JoinWithout(c, ", ", Quoted(firsts));
  }

  lemma UrlValueWithout(c: char, urls: seq<string>, platform: string, none: string)
    requires c == '{' || c == '}'
    requires AllWithout(c, urls) && c !in none
    ensures c !in UrlValue(urls, platform, none)
  {
    var firsts := Take(urls, 5);
    assert forall u <- firsts :: u in urls;
    HostsWithout(c, firsts);
    QuotedWithout(c, Hosts(firsts));
    JoinWithout(c, "|", Hosts(firsts));
    JoinWithout(c, ", ", Quoted(Hosts(firsts)));
  }

  lemma {:induction false} QuotedListEnds(xs: seq<string>)
    requires xs != []
    ensures var s := Join(", ", Quoted(xs)); s != "" && s[|s| - 1] == '"'
  {
    QuotedJoin(xs);
    if |xs| > 1 { QuotedListEnds(xs[1..]); }
  }

  /** A list of indicators ends in a quote. */
  lemma ListValueMild(xs: seq<string>, none: string)
    requires '{' !in none
    ensures Mild(ListValue(xs, none))
  {
    if xs != [] { QuotedListEnds(Take(xs, 10)); }
  }

  lemma ListValueQuoted(xs: seq<string>, none: string)
    requires '"' in none
    ensures '"' in ListValue(xs, none)
  {
    if xs != [] { QuotedListEnds(Take(xs, 10)); }
  }

  lemma UrlValueMild(urls: seq<string>, platform: string, none: string)
    requires platform != "splunk" && '{' !in none
    ensures Mild(UrlValue(urls, platform, none))
  {
    if Hosts(Take(urls, 5)) != [] { QuotedListEnds(Hosts(Take(urls, 5))); }
  }

  // ---------- The steps, one by one ----------

  lemma StepsListed(platform: string, timeRange: string, timeKey: string, iocs: map<string, seq<string>>)
    ensures var steps := Steps(platform, timeRange, timeKey, iocs);
      var n := if platform == "sentinel_kql" then 2 else 1;
      && |steps| == n + 5 && steps[0] == Step("time_range", timeRange)
      && (n == 2 ==> steps[1] == Step("time_value", TimeValue(timeKey)))
      && steps[n] == Step("ioc_ips", ListValue(Get(iocs, "ips"), "\"NO_IPS_PROVIDED\""))
      && steps[n + 1] == Step("ioc_domains", ListValue(Get(iocs, "domains"), "\"NO_DOMAINS_PROVIDED\""))
      && steps[n + 2] == Step("ioc_url_pattern", UrlValue(Get(iocs, "urls"), platform, "example.com"))
      && steps[n + 3] == Step("ioc_urls", UrlValue(Get(iocs, "urls"), platform, "\"example.com\""))
      && steps[n + 4] == Step("ioc_hashes", ListValue(Get(iocs, "hashes"), "\"NO_HASHES_PROVIDED\""))
  {
  }

  predicate GoodName(name: string) {
    Plain(name) && '"' !in name
  }

  lemma TimeNamesAreGood()
    ensures GoodName("time_range") && GoodName("time_value") && GoodName("ioc_ips") && GoodName("ioc_urls")
  {
  }

  lemma IocNamesAreGood()
    ensures GoodName("ioc_domains") && GoodName("ioc_url_pattern") && GoodName("ioc_hashes")
  {
  }

  lemma FallbacksPlain()
    ensures Plain("\"NO_IPS_PROVIDED\"") && Plain("\"NO_DOMAINS_PROVIDED\"") && Plain("\"NO_HASHES_PROVIDED\"")
  {
    var ips, domains, hashes := "\"NO_IPS_PROVIDED\"", "\"NO_DOMAINS_PROVIDED\"", "\"NO_HASHES_PROVIDED\"";
    assert forall i | 0 <= i < |ips| :: ips[i] != '{' && ips[i] != '}';
    assert forall i | 0 <= i < |domains| :: domains[i] != '{' && domains[i] != '}';
    assert forall i | 0 <= i < |hashes| :: hashes[i] != '{' && hashes[i] != '}';
  }

  lemma HostFallbacksPlain()
    ensures Plain("example.com") && Plain("\"example.com\"")
  {
    var bare, quoted := "example.com", "\"example.com\"";
    assert forall i | 0 <= i < |bare| :: bare[i] != '{' && bare[i] != '}';
    assert forall i | 0 <= i < |quoted| :: quoted[i] != '{' && quoted[i] != '}';
  }

  lemma NamesAreDistinct(platform: string, timeRange: string, timeKey: string, iocs: map<string, seq<string>>)
    ensures DistinctNames(Steps(platform, timeRange, timeKey, iocs))
    ensures forall s <- Steps(platform, timeRange, timeKey, iocs) :: GoodName(s.name)
  {
    StepsListed(platform, timeRange, timeKey, iocs);
    TimeNamesAreGood();
    IocNamesAreGood();
    assert "time_range"[5] != "time_value"[5];
    assert "time_range"[0] != "ioc_hashes"[0] && "time_value"[0] != "ioc_hashes"[0];
  }

  /** No value but that of the hashes has an opening brace, if no input they are made of
      does. */
  lemma InputsSettle(platform: string, timeRange: string, timeKey: string, iocs: map<string, seq<string>>)
    requires '{' !in timeRange && AllWithout('{', Get(iocs, "ips")) && AllWithout('{', Get(iocs, "domains"))
    requires AllWithout('{', Get(iocs, "urls"))
    ensures Settled(Steps(platform, timeRange, timeKey, iocs))
  {
    var steps := Steps(platform, timeRange, timeKey, iocs);
    StepsListed(platform, timeRange, timeKey, iocs);
    NamesAreDistinct(platform, timeRange, timeKey, iocs);
    FallbacksPlain();
    HostFallbacksPlain();
    ListValueWithout('{', Get(iocs, "ips"), "\"NO_IPS_PROVIDED\"");
    ListValueWithout('{', Get(iocs, "domains"), "\"NO_DOMAINS_PROVIDED\"");
    UrlValueWithout('{', Get(iocs, "urls"), platform, "example.com");
    UrlValueWithout('{', Get(iocs, "urls"), platform, "\"example.com\"");
    NoOpenBraceSettles(steps);
  }

  predicate PlainIocs(iocs: map<string, seq<string>>) {
    forall kind <- iocs :: AllWithout('{', iocs[kind]) && AllWithout('}', iocs[kind])
  }

  lemma ListValuePlain(xs: seq<string>, none: string)
    requires AllWithout('{', xs) && AllWithout('}', xs) && Plain(none)
    ensures Plain(ListValue(xs, none))
  {
    ListValueWithout('{', xs, none);
    ListValueWithout('}', xs, none);
  }

  lemma UrlValuePlain(urls: seq<string>, platform: string, none: string)
    requires AllWithout('{', urls) && AllWithout('}', urls) && Plain(none)
    ensures Plain(UrlValue(urls, platform, none))
  {
    UrlValueWithout('{', urls, platform, none);
    UrlValueWithout('}', urls, platform, none);
  }

  lemma ValuesPlain(platform: string, iocs: map<string, seq<string>>)
    requires PlainIocs(iocs)
    ensures Plain(ListValue(Get(iocs, "ips"), "\"NO_IPS_PROVIDED\""))
    ensures Plain(ListValue(Get(iocs, "domains"), "\"NO_DOMAINS_PROVIDED\""))
    ensures Plain(ListValue(Get(iocs, "hashes"), "\"NO_HASHES_PROVIDED\""))
    ensures Plain(UrlValue(Get(iocs, "urls"), platform, "example.com"))
    ensures Plain(UrlValue(Get(iocs, "urls"), platform, "\"example.com\""))
  {
    FallbacksPlain();
    HostFallbacksPlain();
    ListValuePlain(Get(iocs, "ips"), "\"NO_IPS_PROVIDED\"");
    ListValuePlain(Get(iocs, "domains"), "\"NO_DOMAINS_PROVIDED\"");
    ListValuePlain(Get(iocs, "hashes"), "\"NO_HASHES_PROVIDED\"");
    UrlValuePlain(Get(iocs, "urls"), platform, "example.com");
    UrlValuePlain(Get(iocs, "urls"), platform, "\"example.com\"");
  }

  lemma TimeValuePlain(key: string)
    ensures Plain(TimeValue(key))
  {
  }

  lemma StepsPlain(platform: string, timeRange: string, timeKey: string, iocs: map<string, seq<string>>)
    requires Plain(timeRange) && PlainIocs(iocs)
    ensures PlainSteps(Steps(platform, timeRange, timeKey, iocs))
  {
    StepsListed(platform, timeRange, timeKey, iocs);
    NamesAreDistinct(platform, timeRange, timeKey, iocs);
    TimeValuePlain(timeKey);
    ValuesPlain(platform, iocs);
  }

  // ---------- What the queries are ----------

  /** The query made from a template: its text in order, each placeholder filled with its
      value; no brace is left when each placeholder has one and no input has any. */
  lemma FormatMeaning(template: string, platform: string, timeRange: string, timeKey: string,
      iocs: map<string, seq<string>>)
    requires Parse(template).Some? && Settled(Steps(platform, timeRange, timeKey, iocs))
    ensures var pieces, steps := Parse(template).value, Steps(platform, timeRange, timeKey, iocs);
      && ReplaceAll(template, steps) == Render(pieces, steps)
      && (Covers(steps, pieces) && Plain(timeRange) && PlainIocs(iocs) ==> Plain(ReplaceAll(template, steps)))
  {
    var pieces, steps := Parse(template).value, Steps(platform, timeRange, timeKey, iocs);
    ParsePrints(template);
    SequentialIsSimultaneous(pieces, steps);
    if Covers(steps, pieces) && Plain(timeRange) && PlainIocs(iocs) {
      StepsPlain(platform, timeRange, timeKey, iocs);
      NothingLeft(pieces, steps);
    }
  }

  lemma IndicatorValues(iocs: map<string, seq<string>>)
    ensures Mild(ListValue(Get(iocs, "ips"), "\"NO_IPS_PROVIDED\""))
    ensures Mild(ListValue(Get(iocs, "domains"), "\"NO_DOMAINS_PROVIDED\""))
    ensures Mild(ListValue(Get(iocs, "hashes"), "\"NO_HASHES_PROVIDED\""))
    ensures '"' in ListValue(Get(iocs, "domains"), "\"NO_DOMAINS_PROVIDED\"")
    ensures '"' in ListValue(Get(iocs, "hashes"), "\"NO_HASHES_PROVIDED\"")
  {
    FallbacksPlain();
    ListValueMild(Get(iocs, "ips"), "\"NO_IPS_PROVIDED\"");
    ListValueMild(Get(iocs, "domains"), "\"NO_DOMAINS_PROVIDED\"");
    ListValueMild(Get(iocs, "hashes"), "\"NO_HASHES_PROVIDED\"");
    ListValueQuoted(Get(iocs, "domains"), "\"NO_DOMAINS_PROVIDED\"");
    ListValueQuoted(Get(iocs, "hashes"), "\"NO_HASHES_PROVIDED\"");
  }

  /** The hosts of a Splunk query stand in no quotes: the only values that may not be mild. */
  predicate MildHosts(platform: string, iocs: map<string, seq<string>>) {
    platform == "splunk" ==> '{' !in Join("|", Hosts(Take(Get(iocs, "urls"), 5)))
  }

  lemma UrlValues(platform: string, urls: seq<string>)
    ensures var hosts, pattern, list := Hosts(Take(urls, 5)), UrlValue(urls, platform, "example.com"),
        UrlValue(urls, platform, "\"example.com\"");
      if platform == "splunk" && '{' in Join("|", hosts) then pattern == list == Join("|", hosts)
      else Mild(pattern) && Mild(list)
  {
    HostFallbacksPlain();
    if platform != "splunk" {
      UrlValueMild(urls, platform, "example.com");
      UrlValueMild(urls, platform, "\"example.com\"");
    }
  }

  lemma InputsAreMild(platform: string, timeRange: string, timeKey: string, iocs: map<string, seq<string>>)
    requires '{' !in timeRange && MildHosts(platform, iocs)
    ensures MildSteps(Steps(platform, timeRange, timeKey, iocs))
  {
    StepsListed(platform, timeRange, timeKey, iocs);
    NamesAreDistinct(platform, timeRange, timeKey, iocs);
    TimeValuePlain(timeKey);
    IndicatorValues(iocs);
    UrlValues(platform, Get(iocs, "urls"));
  }

  lemma PatternHasP()
    ensures Count(Braced("ioc_url_pattern"), 'p') == 1 && Count(Braced("ioc_urls"), 'p') == 0
  {
    var head, tail, urls := "{ioc_url_", "attern}", Braced("ioc_urls");
    assert Braced("ioc_url_pattern") == head + (['p'] + tail);
    assert forall i | 0 <= i < |head| :: head[i] != 'p';
    assert forall i | 0 <= i < |tail| :: tail[i] != 'p';
    assert forall i | 0 <= i < |urls| :: urls[i] != 'p';
    CountOnce(head, 'p', tail);
    CountNone(urls, 'p');
  }

  /** Hosts without quotes: what a step fills by mistake stays filled. */
  lemma HostsNoReturn(platform: string, timeRange: string, timeKey: string, iocs: map<string, seq<string>>, j: nat)
    requires platform == "splunk" && '{' !in timeRange && !MildHosts(platform, iocs)
    requires var steps := Steps(platform, timeRange, timeKey, iocs);
      j < |steps| && steps[j].value != Braced(steps[j].name) && !Apart(steps, j)
    ensures NoReturn(Steps(platform, timeRange, timeKey, iocs), j)
  {
    var steps := Steps(platform, timeRange, timeKey, iocs);
    StepsListed(platform, timeRange, timeKey, iocs);
    NamesAreDistinct(platform, timeRange, timeKey, iocs);
    IndicatorValues(iocs);
    UrlValues(platform, Get(iocs, "urls"));
    PatternHasP();
    assert QuotedSteps(steps[5..]) by { assert steps[5..] == [steps[5]]; }
    assert QuotedSteps(steps[6..]);
    if j <= 1 {
      NoOpenBraceBefore(steps, j);
    } else if j == 2 || j == 5 {
      QuotedNoReturn(steps, j);
    } else if j == 3 {
      TwiceNoReturn(steps, 3, 'p');
    } else {
      BeforeQuotedNoReturn(steps, 4);
    }
  }

  /** Every template of a platform comes out as if filled at once exactly if nothing but its
      holes is filled: no value holds a placeholder that is filled after it, and no two make
      one, the first ending and the second beginning with a part of it. Where all values
      stand in quotes, or have no opening brace, only the former can happen. */
  lemma FormatExactly(platform: string, timeRange: string, timeKey: string, iocs: map<string, seq<string>>)
    requires '{' !in timeRange
    ensures var steps := Steps(platform, timeRange, timeKey, iocs);
      && (AlwaysSimultaneous(steps) <==> Settled(steps))
      && (MildHosts(platform, iocs) ==> (Settled(steps) <==> NoneLater(steps)))
  {
    var steps := Steps(platform, timeRange, timeKey, iocs);
    NamesAreDistinct(platform, timeRange, timeKey, iocs);
    if MildHosts(platform, iocs) {
      InputsAreMild(platform, timeRange, timeKey, iocs);
      MildIsSettled(steps);
      MildExactly(steps);
    } else {
      forall j | 0 <= j < |steps| && steps[j].value != Braced(steps[j].name) && !Apart(steps, j)
        ensures NoReturn(steps, j)
      {
        HostsNoReturn(platform, timeRange, timeKey, iocs, j);
      }
      SequentialExactly(steps);
    }
  }

  /** An address that is itself a placeholder is filled in turn. */
  lemma PlaceholderInIndicator(platform: string, timeRange: string, timeKey: string)
    requires '{' !in timeRange
    ensures var template, iocs := Braced("ioc_ips"), map["ips" := [Braced("ioc_domains")]];
      var steps := Steps(platform, timeRange, timeKey, iocs);
      && Render([Hole("ioc_ips")], steps) == "\"" + Braced("ioc_domains") + "\""
      && ReplaceAll(template, steps) != Render([Hole("ioc_ips")], steps)
  {
    var iocs := map["ips" := [Braced("ioc_domains")]];
    var steps := Steps(platform, timeRange, timeKey, iocs);
    var i := if platform == "sentinel_kql" then 2 else 1;
    StepsListed(platform, timeRange, timeKey, iocs);
    NamesAreDistinct(platform, timeRange, timeKey, iocs);
    TimeValuePlain(timeKey);
    IndicatorValues(iocs);
    QuotedContains(Braced("ioc_domains"));
    assert forall s <- steps[..i + 1] :: s in steps;
    NoOpenBraceSettles(steps[..i + 1]);
    QuotedNoReturn(steps, i + 1);
    var pieces := HeldShows(steps, i + 1, i);
  }

  lemma QuotedContains(x: string)
    ensures Join(", ", Quoted([x])) == "\"" + x + "\"" && Contains("\"" + x + "\"", x)
  {
    QuotedJoin([x]);
    var v := "\"" + x + "\"";
    ContainsAt(v, x);
    assert v[1..] == x + "\"" && x <= v[1..];
  }

  // ---------- What each placeholder shows ----------

  predicate EndsAtSlash(rest: string) {
    rest == "" || rest[0] == '/'
  }

  lemma {:induction false} BeforeSlashIs(host: string, rest: string)
    requires '/' !in host && EndsAtSlash(rest)
    ensures BeforeSlash(host + rest) == host
  {
    if host == "" {
      assert host + rest == rest;
    } else {
      assert host[0] in host && forall c <- host[1..] :: c in host;
      BeforeSlashIs(host[1..], rest);
      assert (host + rest)[1..] == host[1..] + rest;
      assert host == [host[0]] + host[1..];
    }
  }

  lemma {:induction false} BeforeSlashCuts(s: string) returns (rest: string)
    ensures s == BeforeSlash(s) + rest && '/' !in BeforeSlash(s) && EndsAtSlash(rest)
  {
    rest := s;
    if s != "" && s[0] != '/' {
      rest := BeforeSlashCuts(s[1..]);
      assert s == [s[0]] + s[1..];
    }
  }

  /** The pattern at the start of a text: the scheme, and all that follows up to a slash. */
  predicate MatchesHere(url: string, scheme: string, host: string, rest: string) {
    && (scheme == "http://" || scheme == "https://") && url == scheme + (host + rest)
    && host != "" && '/' !in host && EndsAtSlash(rest)
  }

  lemma HostHereExactly(url: string, host: string)
    ensures HostHere(url) == Some(host) <==> exists scheme, rest :: MatchesHere(url, scheme, host, rest)
  {
    if HostHere(url) == Some(host) {
      var n := if "https://" <= url && BeforeSlash(url[8..]) != "" then 8 else 7;
      var rest := BeforeSlashCuts(url[n..]);
      assert url == url[..n] + (host + rest);
      assert MatchesHere(url, url[..n], host, rest);
    }
    if scheme, rest :| MatchesHere(url, scheme, host, rest) {
      assert url[|scheme|..] == host + rest;
      BeforeSlashIs(host, rest);
      assert "https://"[4] != "http://"[4];
    }
  }

  /** The hosts of a list of URLs: `at` lists those that have one, in order. */
  ghost predicate HostsOf(at: seq<nat>, urls: seq<string>, hosts: seq<string>) {
    && |at| == |hosts| && (forall i, j | 0 <= i < j < |at| :: at[i] < at[j])
    && (forall i | 0 <= i < |at| :: at[i] < |urls| && Host(urls[at[i]]) == Some(hosts[i]))
    && forall k | 0 <= k < |urls| :: k in at <==> Host(urls[k]).Some?
  }

  lemma HostsMore(at: seq<nat>, urls: seq<string>, hosts: seq<string>, url: string)
    requires HostsOf(at, urls, hosts)
    ensures if Host(url).Some? then HostsOf(at + [|urls|], urls + [url], hosts + [Host(url).value])
      else HostsOf(at, urls + [url], hosts)
  {
    var next := if Host(url).Some? then at + [|urls|] else at;
    forall k | 0 <= k < |urls + [url]| ensures k in next <==> Host((urls + [url])[k]).Some? {
      if k < |urls| {
        assert k in at <==> Host(urls[k]).Some?;
        assert k in next <==> k in at;
      } else {
        assert k !in at && (k in next <==> Host(url).Some?);
      }
    }
  }

  lemma {:induction false} HostsAre(urls: seq<string>) returns (at: seq<nat>)
    ensures HostsOf(at, urls, Hosts(urls))
  {
    at := [];
    if urls != [] {
      var init, last := urls[..|urls| - 1], urls[|urls| - 1];
      at := HostsAre(init);
      HostsMore(at, init, Hosts(init), last);
      at := if Host(last).Some? then at + [|init|] else at;
      assert init + [last] == urls;
    }
  }

  /** Splits a text at every bar. */
  function AtBars(s: string): (parts: seq<string>)
    ensures parts != []
  {
    if s == "" then [""]
    else
      var rest := AtBars(s[1..]);
      if s[0] == '|' then [""] + rest else [[s[0]] + rest[0]] + rest[1..]
  }

  lemma {:induction false} AtBarsJoined(x: string, rest: string)
    requires '|' !in x
    ensures AtBars(x) == [x] && AtBars(x + ("|" + rest)) == [x] + AtBars(rest)
  {
    var s := x + ("|" + rest);
    if x == "" {
      assert s[1..] == rest;
    } else {
      AtBarsJoined(x[1..], rest);
      assert s[1..] == x[1..] + ("|" + rest);
      assert x == [x[0]] + x[1..];
    }
  }

  lemma JoinCons(x: string, rest: seq<string>)
    requires rest != []
    ensures Join("|", [x] + rest) == x + ("|" + Join("|", rest))
  {
    var all := [x] + rest;
    assert all[1..] == rest && all[0] + "|" + Join("|", rest) == x + ("|" + Join("|", rest));
  }

  lemma {:induction false} JoinedBars(xs: seq<string>)
    requires xs != [] && AllWithout('|', xs)
    ensures AtBars(Join("|", xs)) == xs
  {
    var x, rest := xs[0], xs[1..];
    assert xs == [x] + rest && x in xs && forall y <- rest :: y in xs;
    if rest == [] {
      AtBarsJoined(x, "");
    } else {
      JoinedBars(rest);
      JoinCons(x, rest);
      AtBarsJoined(x, Join("|", rest));
    }
  }

  /** A list of indicators is shown by its first ten, or by the text for none. */
  predicate ShowsList(value: Option<string>, found: Option<seq<string>>, none: string) {
    value.Some? && match found
      case None => value.value == none
      case Some(xs) =>
        && (xs == [] ==> value.value == none)
        && (xs != [] && AllWithout('"', xs) ==>
              ReadQuoted(value.value) == Some(if |xs| <= 10 then xs else xs[..10]))
  }

  /** The hosts of the first five URLs: between bars for Splunk, else in quotes. */
  predicate ShowsHosts(value: Option<string>, found: Option<seq<string>>, platform: string, none: string) {
    var hosts := match found case None => [] case Some(xs) => Hosts(if |xs| <= 5 then xs else xs[..5]);
    value.Some? && if hosts == [] then value.value == none
      else if platform == "splunk" then AllWithout('|', hosts) ==> AtBars(value.value) == hosts
      else AllWithout('"', hosts) ==> ReadQuoted(value.value) == Some(hosts)
  }

  lemma ListShows(iocs: map<string, seq<string>>, kind: string, none: string)
    ensures ShowsList(Some(ListValue(Get(iocs, kind), none)), Find(iocs, kind), none)
  {
    var xs := Get(iocs, kind);
    if xs != [] && AllWithout('"', xs) { ListShowsFirstTen(xs, none); }
  }

  lemma HostsShow(iocs: map<string, seq<string>>, platform: string, none: string)
    ensures ShowsHosts(Some(UrlValue(Get(iocs, "urls"), platform, none)), Find(iocs, "urls"), platform, none)
  {
    var hosts := Hosts(Take(Get(iocs, "urls"), 5));
    if hosts != [] && AllWithout('|', hosts) { JoinedBars(hosts); }
    if hosts != [] && AllWithout('"', hosts) { QuotedReadsBack(hosts); }
  }

  lemma ValuesAt(platform: string, timeRange: string, timeKey: string, iocs: map<string, seq<string>>, i: nat)
    requires i < |Steps(platform, timeRange, timeKey, iocs)|
    ensures var steps := Steps(platform, timeRange, timeKey, iocs);
      Lookup(steps, steps[i].name) == Some(steps[i].value)
  {
    var steps := Steps(platform, timeRange, timeKey, iocs);
    NamesAreDistinct(platform, timeRange, timeKey, iocs);
    LookupBefore(steps, |steps|, i);
  }

  lemma {:induction false} LookupAbsent(steps: seq<Step>, name: string)
    requires forall s <- steps :: s.name != name
    ensures Lookup(steps, name) == None
  {
    if steps != [] {
      assert steps[0] in steps && forall s <- steps[1..] :: s in steps;
      LookupAbsent(steps[1..], name);
    }
  }

  /** What is filled in for the time, on each platform. */
  lemma TimesShown(platform: string, timeRange: string, timeKey: string, iocs: map<string, seq<string>>)
    ensures var steps := Steps(platform, timeRange, timeKey, iocs);
      && Lookup(steps, "time_range") == Some(timeRange)
      && var value := if timeKey == "last_1h" then "1h" else if timeKey == "last_7d" then "7d" else "24h";
      Lookup(steps, "time_value") == if platform == "sentinel_kql" then Some(value) else None
  {
    var steps := Steps(platform, timeRange, timeKey, iocs);
    StepsListed(platform, timeRange, timeKey, iocs);
    ValuesAt(platform, timeRange, timeKey, iocs, 0);
    if platform == "sentinel_kql" {
      ValuesAt(platform, timeRange, timeKey, iocs, 1);
    } else {
      assert "time_range"[5] != "time_value"[5];
      LookupAbsent(steps, "time_value");
    }
  }

  /** And for the indicators: each placeholder shows those of its own kind. */
  lemma IndicatorsShown(platform: string, timeRange: string, timeKey: string, iocs: map<string, seq<string>>)
    ensures var steps := Steps(platform, timeRange, timeKey, iocs);
      && ShowsList(Lookup(steps, "ioc_ips"), Find(iocs, "ips"), "\"NO_IPS_PROVIDED\"")
      && ShowsList(Lookup(steps, "ioc_domains"), Find(iocs, "domains"), "\"NO_DOMAINS_PROVIDED\"")
      && ShowsHosts(Lookup(steps, "ioc_url_pattern"), Find(iocs, "urls"), platform, "example.com")
      && ShowsHosts(Lookup(steps, "ioc_urls"), Find(iocs, "urls"), platform, "\"example.com\"")
      && ShowsList(Lookup(steps, "ioc_hashes"), Find(iocs, "hashes"), "\"NO_HASHES_PROVIDED\"")
  {
    var n := if platform == "sentinel_kql" then 2 else 1;
    StepsListed(platform, timeRange, timeKey, iocs);
    forall i | n <= i < n + 5 ensures var steps := Steps(platform, timeRange, timeKey, iocs);
      Lookup(steps, steps[i].name) == Some(steps[i].value)
    {
      ValuesAt(platform, timeRange, timeKey, iocs, i);
    }
    ListShows(iocs, "ips", "\"NO_IPS_PROVIDED\"");
    ListShows(iocs, "domains", "\"NO_DOMAINS_PROVIDED\"");
    HostsShow(iocs, platform, "example.com");
    HostsShow(iocs, platform, "\"example.com\"");
    ListShows(iocs, "hashes", "\"NO_HASHES_PROVIDED\"");
  }
}

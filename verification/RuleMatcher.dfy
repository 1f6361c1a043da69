/**
 Three independently written rule matchers: rule_matcher.rs, rule_matcher.ts and route_rule_matcher.h.
 They start here from rules whose fields are already lists of strings.
 */
module RuleMatcher {
  import opened Strings
  import opened Wrappers

  datatype MatchType = Prefix | Exact | Suffix
  datatype HostMatcher = HostMatcher(matchType: MatchType, host: string)

  datatype Category = Route | Host | RoutePrefix | Service | RouteAndService

  /** A rule's matcher sets and its plugin configuration; `disable` is read by the C++ matcher only. */
  datatype Rule<C> = Rule(
    category: Category, routes: set<string>, hosts: seq<HostMatcher>, services: set<string>,
    routePrefixes: set<string>, config: C, disable: bool)

  datatype Request = Request(host: string, routeName: string, serviceName: string)

  /** What is selected: the rule at an index, the global configuration, or nothing. */
  datatype Selection = Selected(index: nat) | Global | Nothing

  // ---- The matching of one rule ----

  /** stripPortFromHost: what follows the last colon is a port unless it stands inside "[]". */
  function StripPort(host: string): string {
    var portStart := LastIndex(host, ':');
    if portStart != -1 && LastIndex(host, ']') < portStart then host[..portStart] else host
  }

  /**
   What is stripped is the last colon and the text behind it, in which no bracket closes; a host is left
   alone only if a bracket closes behind its last colon, or it has none.
   */
  lemma StripPortMeans(host: string)
    ensures var h := StripPort(host);
            if h == host then forall i: nat | i < |host| && host[i] == ':' :: ']' in host[i..]
            else exists port: string | ':' !in port && ']' !in port :: host == h + ":" + port
  {
    var colon, bracket := LastIndex(host, ':'), LastIndex(host, ']');
    if colon != -1 && bracket < colon {
      var port := host[colon + 1..];
      assert host == host[..colon] + ":" + port;
      assert ':' !in port && ']' !in port;
      assert |StripPort(host)| < |host|;
    } else {
      forall i: nat | i < |host| && host[i] == ':' ensures ']' in host[i..] {
        assert host[i..][bracket - i] == ']';
      }
    }
  }

  predicate HostMatches(m: HostMatcher, host: string) {
    match m.matchType
    case Prefix => HasPrefix(host, m.host)
    case Suffix => HasSuffix(host, m.host)
    case Exact => host == m.host
  }

  predicate HostMatch<C>(rule: Rule<C>, host: string) {
    exists i | 0 <= i < |rule.hosts| :: HostMatches(rule.hosts[i], StripPort(host))
  }

  predicate RoutePrefixMatch<C>(rule: Rule<C>, routeName: string) {
    exists p | p in rule.routePrefixes :: HasPrefix(routeName, p)
  }

  /** Rust and AssemblyScript: a configured service is fqdn or fqdn:port, split at its last colon. */
  predicate ServiceIs(service: string, fqdn: string, port: string) {
    var colon := LastIndex(service, ':');
    if colon != -1 then fqdn == service[..colon] && port == service[colon + 1..] else fqdn == service
  }

  /** A service with a port is that name at that port, one without is that name at any port. */
  lemma ServiceMeans(name: string, at: string, fqdn: string, port: string)
    requires ':' !in at && ':' !in name
    ensures ServiceIs(name + ":" + at, fqdn, port) <==> fqdn == name && port == at
    ensures ServiceIs(name, fqdn, port) <==> fqdn == name
  {
    var s := name + ":" + at;
    assert s[|name|] == ':' && s[..|name|] == name && s[|name| + 1..] == at;
    assert forall j | |name| < j < |s| :: s[j] == at[j - |name| - 1];
    assert LastIndex(s, ':') == |name|;
  }

  predicate ServiceMatch<C>(rule: Rule<C>, serviceName: string) {
    var parts := SplitChar(serviceName, '|');
    |parts| == 4 && exists s | s in rule.services :: ServiceIs(s, parts[3], parts[1])
  }

  /** A cluster name is direction, port, subset and name: the second and the fourth part count. */
  lemma ServiceNameMeans<C>(rule: Rule<C>, direction: string, port: string, subset: string, fqdn: string)
    requires '|' !in direction && '|' !in port && '|' !in subset && '|' !in fqdn
    ensures var name := direction + "|" + port + "|" + subset + "|" + fqdn;
            SplitChar(name, '|') == [direction, port, subset, fqdn]
            && (ServiceMatch(rule, name) <==> exists s | s in rule.services :: ServiceIs(s, fqdn, port))
  {
    var parts := [direction, port, subset, fqdn];
    assert parts[1..] == [port, subset, fqdn] && parts[1..][1..] == [subset, fqdn] && parts[1..][1..][1..] == [fqdn];
    var name := direction + "|" + port + "|" + subset + "|" + fqdn;
    assert JoinChar(parts, '|') == name by {
      assert JoinChar([fqdn], '|') == fqdn;
      assert JoinChar([subset, fqdn], '|') == subset + "|" + fqdn;
      assert JoinChar([port, subset, fqdn], '|') == port + "|" + (subset + "|" + fqdn);
    }
    JoinSplits(parts, '|');
  }

  /** C++: the configured service is compared with the two texts the request may be written as. */
  predicate CppServiceMatch<C>(rule: Rule<C>, serviceName: string) {
    rule.services == {}
    || var parts := SplitChar(serviceName, '|');
       |parts| == 4 && exists s | s in rule.services :: s == parts[3] || s == parts[3] + ":" + parts[1]
  }

  /** Exactly one of the four matcher sets holds anything. */
  predicate OneMatcher<C>(rule: Rule<C>) {
    (if rule.routes == {} then 1 else 0) + (if rule.hosts == [] then 1 else 0)
    + (if rule.services == {} then 1 else 0) + (if rule.routePrefixes == {} then 1 else 0) == 3
  }

  /** The category of a rule that parsing accepts: that of its one matcher set. */
  predicate WellFormed<C>(rule: Rule<C>) {
    && OneMatcher(rule)
    && rule.category == if rule.routes != {} then Route else if rule.hosts != [] then Host
                        else if rule.services != {} then Service else RoutePrefix
  }

  /** The meaning the three matchers share: some matcher of the rule matches. */
  predicate Matches<C>(rule: Rule<C>, r: Request) {
    || r.routeName in rule.routes || HostMatch(rule, r.host)
    || ServiceMatch(rule, r.serviceName) || RoutePrefixMatch(rule, r.routeName)
  }

  /** The first rule from index i on that matches. */
  function FirstMatch<C>(rules: seq<Rule<C>>, r: Request, i: nat): (k: nat)
    requires i <= |rules|
    ensures i <= k <= |rules| && (k < |rules| ==> Matches(rules[k], r))
    ensures forall j | i <= j < k :: !Matches(rules[j], r)
    decreases |rules| - i
  {
    if i == |rules| || Matches(rules[i], r) then i else FirstMatch(rules, r, i + 1)
  }

  function Select<C>(rules: seq<Rule<C>>, hasGlobal: bool, r: Request): Selection {
    var k := FirstMatch(rules, r, 0);
    if k < |rules| then Selected(k) else if hasGlobal then Global else Nothing
  }

  // ---- Where the C++ service match differs ----

  lemma LastIndexIs(s: string, c: char, i: nat)
    requires i < |s| && s[i] == c && forall j | i < j < |s| :: s[j] != c
    ensures LastIndex(s, c) == i
  {
  }

  /** The service written out is recognized by both, for a port without a colon. */
  lemma WrittenOut(fqdn: string, port: string)
    requires ':' !in port
    ensures forall s :: ServiceIs(s, fqdn, port) ==> s == fqdn || s == fqdn + ":" + port
    ensures ServiceIs(fqdn + ":" + port, fqdn, port)
    ensures ServiceIs(fqdn, fqdn, port) <==> ':' !in fqdn
  {
    var full := fqdn + ":" + port;
    forall s | ServiceIs(s, fqdn, port) ensures s == fqdn || s == full {
      var colon := LastIndex(s, ':');
      if colon != -1 { assert s == s[..colon] + [s[colon]] + s[colon + 1..]; }
    }
    assert full[|fqdn|] == ':';
    assert forall j | |fqdn| < j < |full| :: full[j] == port[j - |fqdn| - 1];
    LastIndexIs(full, ':', |fqdn|);
    assert full[..|fqdn|] == fqdn && full[|fqdn| + 1..] == port;
  }

  /** A service of its own that shows the difference: the request's fqdn, or fqdn and port, as written. */
  function Telltale(fqdn: string, port: string): string {
    if ':' in fqdn then fqdn else fqdn + ":" + port
  }

  lemma TelltaleDiffers(fqdn: string, port: string)
    requires ':' in fqdn || ':' in port
    ensures !ServiceIs(Telltale(fqdn, port), fqdn, port)
  {
  }

  /**
   The C++ service match agrees with the other two on every non-empty set of services exactly if neither
   the fully qualified name nor the port of the request holds a colon.
   */
  lemma CppServiceAgreesIff(fqdn: string, port: string, service: string)
    requires var parts := SplitChar(service, '|'); |parts| == 4 && parts[1] == port && parts[3] == fqdn
    ensures (forall rule: Rule<()> | rule.services != {} ::
               CppServiceMatch(rule, service) == ServiceMatch(rule, service))
            <==> ':' !in fqdn && ':' !in port
  {
    if ':' !in fqdn && ':' !in port {
      forall rule: Rule<()> | rule.services != {}
        ensures CppServiceMatch(rule, service) == ServiceMatch(rule, service)
      {
        CppServiceAgrees(rule, service);
      }
    } else {
      TelltaleDiffers(fqdn, port);
      var rule := Rule(Service, {}, [], {Telltale(fqdn, port)}, {}, (), false);
      assert Telltale(fqdn, port) in rule.services;
      assert CppServiceMatch(rule, service) && !ServiceMatch(rule, service);
    }
  }

  /** The request's service name has no colon in its port and its fully qualified name. */
  predicate PlainService(service: string) {
    var parts := SplitChar(service, '|');
    |parts| == 4 ==> ':' !in parts[1] && ':' !in parts[3]
  }

  lemma CppServiceAgrees<C>(rule: Rule<C>, service: string)
    requires rule.services != {} && PlainService(service)
    ensures CppServiceMatch(rule, service) == ServiceMatch(rule, service)
  {
    var parts := SplitChar(service, '|');
    if |parts| == 4 {
      WrittenOut(parts[3], parts[1]);
      forall s | s in rule.services
        ensures ServiceIs(s, parts[3], parts[1]) <==> s == parts[3] || s == parts[3] + ":" + parts[1]
      {
      }
    }
  }

  // ---- How each matcher goes about one rule ----

  /** Rust looks at the set of the rule's category. */
  predicate RustMatches<C>(rule: Rule<C>, r: Request) {
    match rule.category
    case Host => HostMatch(rule, r.host)
    case Route => r.routeName in rule.routes
    case RoutePrefix => RoutePrefixMatch(rule, r.routeName)
    case Service => ServiceMatch(rule, r.serviceName)
    case RouteAndService => false // Rust has no such category
  }

  /** AssemblyScript tries the services as well, whatever the category. */
  predicate TsMatches<C>(rule: Rule<C>, r: Request) {
    || (rule.category == Host && HostMatch(rule, r.host))
    || (rule.category == Route && r.routeName in rule.routes)
    || (rule.category == RoutePrefix && RoutePrefixMatch(rule, r.routeName))
    || ServiceMatch(rule, r.serviceName)
  }

  predicate CppMatches<C>(rule: Rule<C>, r: Request) {
    match rule.category
    case Host => rule.hosts == [] || HostMatch(rule, r.host)
    case Route => r.routeName in rule.routes
    case RouteAndService => r.routeName in rule.routes && CppServiceMatch(rule, r.serviceName)
    case Service => CppServiceMatch(rule, r.serviceName)
    case RoutePrefix => RoutePrefixMatch(rule, r.routeName)
  }

  /** On a rule that parsing accepts all three come to the same. */
  lemma MatchersMean<C>(rule: Rule<C>, r: Request)
    requires WellFormed(rule)
    ensures RustMatches(rule, r) == TsMatches(rule, r) == Matches(rule, r)
    ensures PlainService(r.serviceName) ==> CppMatches(rule, r) == Matches(rule, r)
  {
    if PlainService(r.serviceName) && rule.services != {} { CppServiceAgrees(rule, r.serviceName); }
  }

  /** A rule with routes and services of the C++ matcher needs both to match; a service list may be empty. */
  lemma RouteAndServiceMeans<C>(rule: Rule<C>, r: Request)
    requires rule.category == RouteAndService
    ensures CppMatches(rule, r)
            <==> r.routeName in rule.routes && (rule.services == {} || CppMatches(rule.(category := Service), r))
  {
  }

  /** Why acceptance matters: a route rule that also lists a service is one AssemblyScript matches and Rust does not. */
  lemma OneMatcherNeeded(r: Request)
    requires |SplitChar(r.serviceName, '|')| == 4 && ':' !in SplitChar(r.serviceName, '|')[3]
    ensures exists rule: Rule<()>
              | rule.category == Route && rule.routes != {} && rule.hosts == [] && rule.routePrefixes == {} ::
              TsMatches(rule, r) && !RustMatches(rule, r)
  {
    var fqdn := SplitChar(r.serviceName, '|')[3];
    var other := r.routeName + "x";
    var rule := Rule(Route, {other}, [], {fqdn}, {}, (), false);
    assert |other| != |r.routeName|;
    assert fqdn in rule.services && ServiceIs(fqdn, fqdn, SplitChar(r.serviceName, '|')[1]);
    assert TsMatches(rule, r) && !RustMatches(rule, r);
  }

  /** The first rule that matches is selected, then the global configuration, if there is one; and what that gives. */
  lemma SelectMeans<C>(rules: seq<Rule<C>>, global: Option<C>, r: Request)
    ensures var s := Select(rules, global.Some?, r);
            && (forall i: nat | i < |rules| ::
                  s == Selected(i) <==> Matches(rules[i], r) && forall j | 0 <= j < i :: !Matches(rules[j], r))
            && (s == Global <==> global.Some? && forall i | 0 <= i < |rules| :: !Matches(rules[i], r))
            && (s.Selected? ==> s.index < |rules| && ConfigOf(rules, global, s) == Some(rules[s.index].config))
            && (!s.Selected? ==> ConfigOf(rules, global, s) == global)
  {
    hide Matches;
    var k := FirstMatch(rules, r, 0);
    forall i: nat | i < |rules| && Matches(rules[i], r) && (forall j | 0 <= j < i :: !Matches(rules[j], r))
      ensures k == i
    {
      if k < i { assert false; }
    }
  }

  // ---- Parsing ----

  /** One entry of "_rules_", with what the plugin's own parser makes of it and the four string lists. */
  datatype RawRule<C> =
    | NotObject
    | RawRule(
        config: Option<C>, routes: seq<string>, domains: seq<string>, services: seq<string>, prefixes: seq<string>)

  datatype RawRules<C> = Absent | NotArray | Array(rules: seq<RawRule<C>>)

  /** A configuration object: the keys besides "_rules_", and what the plugin's parser makes of the whole. */
  datatype Raw<C> = Raw(otherKeys: nat, rules: RawRules<C>, global: Option<C>) {
    predicate Empty() { otherKeys == 0 && rules.Absent? }
    predicate HasGlobal() { otherKeys > 0 && global.Some? }
    function List(): seq<RawRule<C>> { if rules.Array? then rules.rules else [] }
  }

  function NonEmpty(keys: seq<string>): set<string> { set k | k in keys && k != "" }

  function ParseHost(host: string): HostMatcher {
    if HasPrefix(host, "*") then HostMatcher(Suffix, host[1..])
    else if HasSuffix(host, "*") then HostMatcher(Prefix, host[..|host| - 1])
    else HostMatcher(Exact, host)
  }

  function ParseHosts(hosts: seq<string>): seq<HostMatcher> {
    if hosts == [] then [] else ParseHosts(hosts[..|hosts| - 1]) + [ParseHost(hosts[|hosts| - 1])]
  }

  /** A leading star: any host that ends so. Else a trailing star: any that starts so. Without one: the host itself. */
  lemma HostMeans(d: string, host: string)
    ensures HostMatches(ParseHost("*" + d), host) <==> exists t: string :: host == t + d
    ensures d != "" && d[0] != '*' ==> (HostMatches(ParseHost(d + "*"), host) <==> exists t: string :: host == d + t)
    ensures '*' !in d ==> (HostMatches(ParseHost(d), host) <==> host == d)
  {
    PrefixIff(host, d);
    assert HasPrefix("*" + d, "*") && ("*" + d)[1..] == d;
    assert HasSuffix(d + "*", "*") && (d + "*")[..|d + "*"| - 1] == d;
    assert d != "" && d[0] != '*' ==> !HasPrefix(d + "*", "*");
    assert '*' !in d ==> !HasPrefix(d, "*") && !HasSuffix(d, "*");
  }

  lemma {:induction false} ParseHostsAt(hosts: seq<string>, i: nat)
    requires i < |hosts|
    ensures |ParseHosts(hosts)| == |hosts| && ParseHosts(hosts)[i] == ParseHost(hosts[i])
  {
    hide ParseHost;
    if |hosts| > 1 { ParseHostsAt(hosts[..|hosts| - 1], if i == |hosts| - 1 then 0 else i); }
  }

  function ParseRule<C>(raw: RawRule<C>): (rule: Option<Rule<C>>)
    ensures rule.Some? ==> WellFormed(rule.value)
  {
    if raw.NotObject? || raw.config.None? then None
    else
      var routes, hosts := NonEmpty(raw.routes), ParseHosts(raw.domains);
      var services, prefixes := NonEmpty(raw.services), NonEmpty(raw.prefixes);
      var category := if routes != {} then Route else if hosts != [] then Host
                      else if services != {} then Service else RoutePrefix;
      var rule := Rule(category, routes, hosts, services, prefixes, raw.config.value, false);
      if OneMatcher(rule) then Some(rule) else None
  }

  /** The lists that count: names that are not empty, and domains of any kind. */
  predicate HasNames(names: seq<string>) { exists n | n in names :: n != "" }

  /** An entry is a rule exactly if its plugin configuration parses and one of its lists counts; and which rule. */
  lemma ParseRuleIff<C>(raw: RawRule<C>)
    ensures ParseRule(raw).Some?
            <==> && raw.RawRule? && raw.config.Some?
                 && (if HasNames(raw.routes) then 1 else 0) + (if raw.domains != [] then 1 else 0)
                    + (if HasNames(raw.services) then 1 else 0) + (if HasNames(raw.prefixes) then 1 else 0) == 1
    ensures ParseRule(raw).Some? ==>
              var rule := ParseRule(raw).value;
              && rule.config == raw.config.value && !rule.disable
              && (forall n :: n in rule.routes <==> n in raw.routes && n != "")
              && (forall n :: n in rule.services <==> n in raw.services && n != "")
              && (forall n :: n in rule.routePrefixes <==> n in raw.prefixes && n != "")
              && rule.hosts == ParseHosts(raw.domains)
              && rule.category == (if HasNames(raw.routes) then Route else if raw.domains != [] then Host
                                   else if HasNames(raw.services) then Service else RoutePrefix)
  {
    if raw.RawRule? {
      assert ParseHosts(raw.domains) == [] <==> raw.domains == [];
      assert HasNames(raw.routes) <==> NonEmpty(raw.routes) != {} by { NamesCount(raw.routes); }
      assert HasNames(raw.services) <==> NonEmpty(raw.services) != {} by { NamesCount(raw.services); }
      assert HasNames(raw.prefixes) <==> NonEmpty(raw.prefixes) != {} by { NamesCount(raw.prefixes); }
      hide HasNames, ParseHosts;
    }
  }

  lemma NamesCount(names: seq<string>)
    ensures HasNames(names) <==> NonEmpty(names) != {}
  {
    if HasNames(names) {
      var n :| n in names && n != "";
      assert n in NonEmpty(names);
    }
    if NonEmpty(names) != {} {
      var n :| n in NonEmpty(names);
      assert n in names && n != "";
    }
  }

  /** What a parsed entry matches, in terms of its texts: each list gives a way to match. */
  lemma ParsedRuleMatches<C>(raw: RawRule<C>, r: Request)
    requires ParseRule(raw).Some?
    ensures Matches(ParseRule(raw).value, r) <==>
            || (r.routeName in raw.routes && r.routeName != "")
            || (exists i | 0 <= i < |raw.domains| :: HostMatches(ParseHost(raw.domains[i]), StripPort(r.host)))
            || (|SplitChar(r.serviceName, '|')| == 4 && exists s | s in raw.services && s != "" ::
                  ServiceIs(s, SplitChar(r.serviceName, '|')[3], SplitChar(r.serviceName, '|')[1]))
            || (exists p | p in raw.prefixes && p != "" :: HasPrefix(r.routeName, p))
  {
    hide HostMatches, ParseHost, StripPort, ServiceIs, HasPrefix, SplitChar, ParseHosts, HasNames;
    ParseRuleIff(raw);
    var rule := ParseRule(raw).value;
    assert HostMatch(rule, r.host)
           <==> exists i | 0 <= i < |raw.domains| :: HostMatches(ParseHost(raw.domains[i]), StripPort(r.host)) by {
      HostsMatch(rule, raw.domains, r.host);
    }
    hide HostMatch, ParseRule;
  }

  lemma HostsMatch<C>(rule: Rule<C>, domains: seq<string>, host: string)
    requires rule.hosts == ParseHosts(domains)
    ensures HostMatch(rule, host)
            <==> exists i | 0 <= i < |domains| :: HostMatches(ParseHost(domains[i]), StripPort(host))
  {
    hide HostMatches, ParseHost, StripPort, ParseHosts;
    assert |rule.hosts| == |domains| by {
      if domains != [] { ParseHostsAt(domains, 0); } else { NoHosts(); }
    }
    forall i | 0 <= i < |domains| ensures rule.hosts[i] == ParseHost(domains[i]) { ParseHostsAt(domains, i); }
  }

  lemma NoHosts()
    ensures ParseHosts([]) == []
  {
  }

  function Parsed<C>(list: seq<RawRule<C>>): (rules: seq<Rule<C>>)
    ensures forall i | 0 <= i < |rules| :: WellFormed(rules[i])
  {
    if list == [] then []
    else
      var last := ParseRule(list[|list| - 1]);
      Parsed(list[..|list| - 1]) + if last.Some? then [last.value] else []
  }

  lemma ParsedStep<C>(list: seq<RawRule<C>>, i: nat)
    requires i < |list|
    ensures var rule := ParseRule(list[i]);
            Parsed(list[..i + 1]) == Parsed(list[..i]) + if rule.Some? then [rule.value] else []
    ensures ParseRule(list[i]).Some? ==> list[i].RawRule?
  {
    assert list[..i + 1][..i] == list[..i];
  }

  /** A list all of whose entries are rules is parsed entry by entry. */
  lemma {:induction false} ParsedAt<C>(list: seq<RawRule<C>>, i: nat)
    requires i < |list| && forall j | 0 <= j < |list| :: ParseRule(list[j]).Some?
    ensures |Parsed(list)| == |list| && Parsed(list)[i] == ParseRule(list[i]).value
  {
    hide ParseRule, WellFormed;
    if |list| > 1 { ParsedAt(list[..|list| - 1], if i == |list| - 1 then 0 else i); }
  }

  predicate RustGood<C>(list: seq<RawRule<C>>) { forall i | 0 <= i < |list| :: ParseRule(list[i]).Some? }

  predicate TsGood<C>(list: seq<RawRule<C>>) {
    forall i | 0 <= i < |list| :: list[i].RawRule? ==> ParseRule(list[i]).Some?
  }

  predicate RustAccepts<C>(raw: Raw<C>, hadGlobal: bool) {
    if raw.Empty() then true
    else if raw.List() == [] then raw.HasGlobal() || hadGlobal
    else RustGood(raw.List())
  }

  predicate TsAccepts<C>(raw: Raw<C>, hadGlobal: bool) {
    if raw.Empty() then raw.global.Some?
    else if !raw.rules.Array? then raw.HasGlobal() || hadGlobal
    else TsGood(raw.List())
  }

  /**
   A fresh matcher of one kind accepts a configuration that the other rejects in exactly three cases: the
   empty object when the plugin's parser rejects it, an empty rule list without a global configuration, and
   a rule list whose only faults are entries that are not objects.
   */
  lemma AcceptanceDiffersIff<C>(raw: Raw<C>)
    ensures RustAccepts(raw, false) != TsAccepts(raw, false)
            <==> || (raw.otherKeys == 0 && raw.rules.Absent? && raw.global.None?)
                 || (raw.rules == Array([]) && !(raw.otherKeys > 0 && raw.global.Some?))
                 || (TsGood(raw.List()) && NotObject in raw.List())
    ensures RustAccepts(raw, false) && !TsAccepts(raw, false)
            <==> raw.otherKeys == 0 && raw.rules.Absent? && raw.global.None?
  {
  }

  /** What a fresh matcher of each kind accepts: entries that are not objects are passed over by one of them. */
  lemma AcceptsIff<C>(raw: Raw<C>)
    ensures RustAccepts(raw, false)
            <==> || (raw.otherKeys == 0 && raw.rules.Absent?)
                 || ((!raw.rules.Array? || raw.rules.rules == []) && raw.otherKeys > 0 && raw.global.Some?)
                 || (raw.rules.Array? && raw.rules.rules != []
                     && forall entry | entry in raw.rules.rules :: ParseRule(entry).Some?)
    ensures TsAccepts(raw, false)
            <==> if raw.rules.Array? then
                   forall entry | entry in raw.rules.rules :: entry == NotObject || ParseRule(entry).Some?
                 else raw.global.Some? && (raw.otherKeys > 0 || raw.rules.Absent?)
  {
  }

  method ParseMatchConfig(keys: seq<string>) returns (values: set<string>)
    ensures values == NonEmpty(keys)
  {
    values := {};
    for i := 0 to |keys|
      invariant values == NonEmpty(keys[..i])
    {
      assert keys[..i + 1] == keys[..i] + [keys[i]];
      if keys[i] != "" {
        values := values + {keys[i]};
      }
    }
    assert keys[..|keys|] == keys;
  }

  method ParseHostMatchConfig(keys: seq<string>) returns (hosts: seq<HostMatcher>)
    ensures hosts == ParseHosts(keys)
  {
    hosts := [];
    for i := 0 to |keys|
      invariant hosts == ParseHosts(keys[..i])
    {
      assert keys[..i + 1][..i] == keys[..i];
      var host := keys[i];
      if HasPrefix(host, "*") {
        hosts := hosts + [HostMatcher(Suffix, host[1..])];
      } else if HasSuffix(host, "*") {
        hosts := hosts + [HostMatcher(Prefix, host[..|host| - 1])];
      } else {
        hosts := hosts + [HostMatcher(Exact, host)];
      }
    }
    assert keys[..|keys|] == keys;
  }

  /** The four lists of one rule, the check that exactly one holds anything, and the category. */
  method ParseOne<C>(raw: RawRule<C>) returns (rule: Option<Rule<C>>)
    requires raw.RawRule?
    ensures rule == ParseRule(raw)
  {
    if raw.config.None? {
      return None;
    }
    var routes := ParseMatchConfig(raw.routes);
    var hosts := ParseHostMatchConfig(raw.domains);
    var services := ParseMatchConfig(raw.services);
    var prefixes := ParseMatchConfig(raw.prefixes);
    var empty := 0;
    if routes == {} { empty := empty + 1; }
    if hosts == [] { empty := empty + 1; }
    if services == {} { empty := empty + 1; }
    if prefixes == {} { empty := empty + 1; }
    if empty != 3 {
      return None;
    }
    var category := RoutePrefix;
    if routes != {} {
      category := Route;
    } else if hosts != [] {
      category := Host;
    } else if services != {} {
      category := Service;
    }
    return Some(Rule(category, routes, hosts, services, prefixes, raw.config.value, false));
  }

  // ---- Matching loops ----

  method MatchHosts<C(==)>(rule: Rule<C>, host: string) returns (matched: bool)
    ensures matched <==> HostMatch(rule, host)
  {
    var requestHost := StripPort(host);
    for i := 0 to |rule.hosts|
      invariant forall j | 0 <= j < i :: !HostMatches(rule.hosts[j], requestHost)
    {
      if HostMatches(rule.hosts[i], requestHost) {
        return true;
      }
    }
    return false;
  }

  method MatchServices<C(==)>(rule: Rule<C>, serviceName: string) returns (matched: bool)
    ensures matched <==> ServiceMatch(rule, serviceName)
  {
    var parts := SplitChar(serviceName, '|');
    if |parts| != 4 {
      return false;
    }
    var services := rule.services;
    while services != {}
      invariant services <= rule.services
      invariant forall s | s in rule.services && s !in services :: !ServiceIs(s, parts[3], parts[1])
      decreases services
    {
      var service :| service in services;
      var colonIndex := LastIndex(service, ':');
      if colonIndex != -1 {
        if parts[3] == service[..colonIndex] && parts[1] == service[colonIndex + 1..] {
          assert ServiceIs(service, parts[3], parts[1]);
          return true;
        }
      } else if parts[3] == service {
        assert ServiceIs(service, parts[3], parts[1]);
        return true;
      }
      services := services - {service};
    }
    return false;
  }

  method CppMatchServices<C(==)>(rule: Rule<C>, serviceName: string) returns (matched: bool)
    ensures matched <==> CppServiceMatch(rule, serviceName)
  {
    if rule.services == {} {
      return true;
    }
    var parts := SplitChar(serviceName, '|');
    if |parts| != 4 {
      return false;
    }
    var services := rule.services;
    while services != {}
      invariant services <= rule.services
      invariant forall s | s in rule.services && s !in services :: s != parts[3] && s != parts[3] + ":" + parts[1]
      decreases services
    {
      var service :| service in services;
      if service == parts[3] || service == parts[3] + ":" + parts[1] {
        return true;
      }
      services := services - {service};
    }
    return false;
  }

  method MatchRoutePrefixes<C(==)>(rule: Rule<C>, routeName: string) returns (matched: bool)
    ensures matched <==> RoutePrefixMatch(rule, routeName)
  {
    var prefixes := rule.routePrefixes;
    while prefixes != {}
      invariant prefixes <= rule.routePrefixes
      invariant forall p | p in rule.routePrefixes && p !in prefixes :: !HasPrefix(routeName, p)
      decreases prefixes
    {
      var prefix :| prefix in prefixes;
      if HasPrefix(routeName, prefix) {
        return true;
      }
      prefixes := prefixes - {prefix};
    }
    return false;
  }

  function ConfigOf<C>(rules: seq<Rule<C>>, global: Option<C>, s: Selection): Option<C>
    requires s.Selected? ==> s.index < |rules|
  {
    match s
    case Selected(i) => Some(rules[i].config)
    case Global => global
    case Nothing => None
  }

  // ---- The three matchers ----

  class RustMatcher<C(==)> {
    var ruleConfig: seq<Rule<C>>
    var globalConfig: Option<C>

    ghost predicate Valid()
      reads `ruleConfig
    {
      forall i | 0 <= i < |ruleConfig| :: WellFormed(ruleConfig[i])
    }

    constructor ()
      ensures Valid() && ruleConfig == [] && globalConfig == None
    {
      ruleConfig, globalConfig := [], None;
    }

    /** The rules of an accepted configuration are added in order; `default` is PluginConfig's default. */
    method ParseRuleConfig(raw: Raw<C>, default: C) returns (ok: bool)
      requires Valid()
      modifies this
      ensures Valid() && (ok <==> RustAccepts(raw, old(globalConfig).Some?))
      ensures ok ==> ruleConfig == old(ruleConfig) + Parsed(raw.List())
      ensures old(ruleConfig) <= ruleConfig
      ensures globalConfig == if raw.Empty() then Some(default)
                              else if raw.HasGlobal() then raw.global else old(globalConfig)
    {
      if raw.Empty() {
        globalConfig := Some(default);
        return true;
      }
      var rules := raw.List();
      if raw.otherKeys > 0 && raw.global.Some? {
        globalConfig := raw.global;
      }
      if rules == [] {
        return globalConfig.Some?;
      }
      ok := AddRules(rules);
    }

    /** The loop over the rules: it stops at the first one that is not accepted. */
    method AddRules(rules: seq<RawRule<C>>) returns (ok: bool)
      requires Valid()
      modifies `ruleConfig
      ensures Valid() && (ok <==> RustGood(rules))
      ensures ok ==> ruleConfig == old(ruleConfig) + Parsed(rules)
      ensures old(ruleConfig) <= ruleConfig
    {
      hide ParseRule, WellFormed;
      for i := 0 to |rules|
        invariant Valid() && ruleConfig == old(ruleConfig) + Parsed(rules[..i])
        invariant forall j | 0 <= j < i :: ParseRule(rules[j]).Some?
      {
        hide Parsed;
        ParsedStep(rules, i);
        if rules[i].NotObject? {
          return false;
        }
        var rule := ParseOne(rules[i]);
        if rule.None? {
          return false;
        }
        ruleConfig := ruleConfig + [rule.value];
      }
      assert rules[..|rules|] == rules;
      return true;
    }

    /** The first rule any of whose matchers matches is selected, else the global configuration. */
    method GetMatchConfigByArgs(r: Request) returns (s: Selection, config: Option<C>)
      requires Valid()
      ensures s == Select(ruleConfig, globalConfig.Some?, r)
      ensures config == ConfigOf(ruleConfig, globalConfig, s)
    {
      for i := 0 to |ruleConfig|
        invariant FirstMatch(ruleConfig, r, 0) == FirstMatch(ruleConfig, r, i)
      {
        var rule := ruleConfig[i];
        var matched := false;
        match rule.category {
          case Host => matched := MatchHosts(rule, r.host);
          case Route => matched := r.routeName in rule.routes;
          case RoutePrefix => matched := MatchRoutePrefixes(rule, r.routeName);
          case Service => matched := MatchServices(rule, r.serviceName);
          case RouteAndService =>
        }
        MatchersMean(rule, r);
        if matched {
          return Selected(i), Some(rule.config);
        }
      }
      return if globalConfig.Some? then Global else Nothing, globalConfig;
    }
  }

  class TsMatcher<C(==)> {
    var ruleConfig: seq<Rule<C>>
    var globalConfig: Option<C>
    var hasGlobalConfig: bool

    ghost predicate Valid()
      reads this
    {
      && (globalConfig.Some? ==> hasGlobalConfig)
      && forall i | 0 <= i < |ruleConfig| :: WellFormed(ruleConfig[i])
    }

    constructor ()
      ensures Valid() && ruleConfig == [] && globalConfig == None && !hasGlobalConfig
    {
      ruleConfig, globalConfig, hasGlobalConfig := [], None, false;
    }

    method ParseRuleConfig(raw: Raw<C>) returns (ok: bool)
      requires Valid()
      modifies this
      ensures Valid() && (ok <==> TsAccepts(raw, old(hasGlobalConfig)))
      ensures ok ==> ruleConfig == old(ruleConfig) + Parsed(raw.List())
      ensures old(ruleConfig) <= ruleConfig
      ensures hasGlobalConfig == (old(hasGlobalConfig) || raw.Empty() || raw.HasGlobal())
      ensures globalConfig == if (raw.Empty() || raw.otherKeys > 0) && raw.global.Some? then raw.global
                              else old(globalConfig)
    {
      if raw.Empty() {
        hasGlobalConfig := true;
        if raw.global.Some? {
          globalConfig := raw.global;
          return true;
        }
        return false;
      }
      if raw.otherKeys > 0 && raw.global.Some? {
        globalConfig, hasGlobalConfig := raw.global, true;
      }
      if !raw.rules.Array? {
        return hasGlobalConfig;
      }
      var rules := raw.rules.rules;
      ok := AddRules(rules);
    }

    /** The loop over the rules: entries that are not objects are passed over. */
    method AddRules(rules: seq<RawRule<C>>) returns (ok: bool)
      requires Valid()
      modifies `ruleConfig
      ensures Valid() && (ok <==> TsGood(rules))
      ensures ok ==> ruleConfig == old(ruleConfig) + Parsed(rules)
      ensures old(ruleConfig) <= ruleConfig
    {
      hide ParseRule, WellFormed;
      for i := 0 to |rules|
        invariant Valid() && ruleConfig == old(ruleConfig) + Parsed(rules[..i])
        invariant forall j | 0 <= j < i :: rules[j].RawRule? ==> ParseRule(rules[j]).Some?
      {
        hide Parsed;
        ParsedStep(rules, i);
        if rules[i].NotObject? {
          continue;
        }
        var rule := ParseOne(rules[i]);
        if rule.None? {
          return false;
        }
        ruleConfig := ruleConfig + [rule.value];
      }
      assert rules[..|rules|] == rules;
      return true;
    }

    /** The same selection as Rust's for every host but the empty one, for which nothing is selected. */
    method GetMatchConfig(r: Request) returns (s: Selection, config: Option<C>)
      requires Valid()
      ensures s == if r.host == "" then Nothing else Select(ruleConfig, hasGlobalConfig, r)
      ensures config == ConfigOf(ruleConfig, globalConfig, s)
    {
      if r.host == "" {
        return Nothing, None;
      }
      for i := 0 to |ruleConfig|
        invariant FirstMatch(ruleConfig, r, 0) == FirstMatch(ruleConfig, r, i)
      {
        var rule := ruleConfig[i];
        MatchersMean(rule, r);
        if rule.category == Host {
          var matched := MatchHosts(rule, r.host);
          if matched { return Selected(i), Some(rule.config); }
        }
        if rule.category == Route {
          if r.routeName in rule.routes { return Selected(i), Some(rule.config); }
        }
        if rule.category == RoutePrefix {
          var matched := MatchRoutePrefixes(rule, r.routeName);
          if matched { return Selected(i), Some(rule.config); }
        }
        var served := MatchServices(rule, r.serviceName);
        if served { return Selected(i), Some(rule.config); }
      }
      if hasGlobalConfig {
        return Global, globalConfig;
      }
      return Nothing, None;
    }
  }

  /**
   One configuration given to a fresh matcher of either kind: if both accept it they select the same for a
   request exactly if its host is not empty or nothing is selected, and then with the same rule's
   configuration.
   */
  method SelectWithBoth<C(==)>(raw: Raw<C>, default: C, r: Request)
    returns (rustOk: bool, tsOk: bool, rust: Selection, ts: Selection)
    ensures rustOk == RustAccepts(raw, false) && tsOk == TsAccepts(raw, false)
    ensures rustOk && tsOk ==> (rust == ts <==> r.host != "" || rust == Nothing)
    ensures rustOk ==> rust == Select(Parsed(raw.List()), raw.Empty() || raw.HasGlobal(), r)
  {
    var a := new RustMatcher<C>();
    var b := new TsMatcher<C>();
    rustOk := a.ParseRuleConfig(raw, default);
    tsOk := b.ParseRuleConfig(raw);
    var config;
    rust, config := a.GetMatchConfigByArgs(r);
    ts, config := b.GetMatchConfig(r);
    assert [] + Parsed(raw.List()) == Parsed(raw.List());
  }

  /** The number the C++ matcher gives a selection. */
  function RuleId(s: Selection): int {
    match s
    case Selected(i) => i + 1
    case Global => 0
    case Nothing => -1
  }

  function CppFirst<C>(rules: seq<Rule<C>>, r: Request, i: nat): (k: nat)
    requires i <= |rules|
    ensures i <= k <= |rules|
    decreases |rules| - i
  {
    if i == |rules| || CppMatches(rules[i], r) then i else CppFirst(rules, r, i + 1)
  }

  lemma {:induction false} CppFirstIsFirst<C>(rules: seq<Rule<C>>, r: Request, i: nat)
    requires i <= |rules| && PlainService(r.serviceName)
    requires forall j | 0 <= j < |rules| :: WellFormed(rules[j])
    ensures CppFirst(rules, r, i) == FirstMatch(rules, r, i)
    decreases |rules| - i
  {
    if i < |rules| {
      MatchersMean(rules[i], r);
      CppFirstIsFirst(rules, r, i + 1);
    }
  }

  class CppMatcher<C(==)> {
    var ruleConfig: seq<Rule<C>>
    var globalConfig: Option<C>

    constructor (rules: seq<Rule<C>>, global: Option<C>)
      ensures ruleConfig == rules && globalConfig == global
    {
      ruleConfig, globalConfig := rules, global;
    }

    /**
     The first rule that the C++ matcher takes to match decides, and a disabled one decides for nothing.
     On rules as the other two matchers accept them, none disabled, and a service name without colons in
     its parts, this is the selection of the other two.
     */
    method GetMatchConfig(r: Request) returns (ruleId: int, config: Option<C>)
      ensures var k := CppFirst(ruleConfig, r, 0);
              if k < |ruleConfig| && ruleConfig[k].disable then ruleId == -1 && config == None
              else if k < |ruleConfig| then ruleId == k + 1 && config == Some(ruleConfig[k].config)
              else ruleId == (if globalConfig.Some? then 0 else -1) && config == globalConfig
      ensures && PlainService(r.serviceName)
              && (forall i | 0 <= i < |ruleConfig| :: WellFormed(ruleConfig[i]) && !ruleConfig[i].disable)
              ==> (var s := Select(ruleConfig, globalConfig.Some?, r);
                   ruleId == RuleId(s) && config == ConfigOf(ruleConfig, globalConfig, s))
    {
      ruleId, config := -1, None;
      if globalConfig.Some? {
        ruleId, config := 0, globalConfig;
      }
      var disableRule := false;
      for i := 0 to |ruleConfig|
        invariant CppFirst(ruleConfig, r, 0) == CppFirst(ruleConfig, r, i)
        invariant ruleId == (if globalConfig.Some? then 0 else -1) && config == globalConfig && !disableRule
      {
        var rule := ruleConfig[i];
        var matched := false;
        match rule.category {
          case Host =>
            if rule.hosts == [] { matched := true; } else { matched := MatchHosts(rule, r.host); }
          case Route => matched := r.routeName in rule.routes;
          case RouteAndService =>
            if r.routeName in rule.routes { matched := CppMatchServices(rule, r.serviceName); }
          case Service => matched := CppMatchServices(rule, r.serviceName);
          case RoutePrefix => matched := MatchRoutePrefixes(rule, r.routeName);
        }
        if matched {
          ruleId, config, disableRule := i + 1, Some(rule.config), rule.disable;
          break;
        }
      }
      if forall i | 0 <= i < |ruleConfig| :: WellFormed(ruleConfig[i]) {
        if PlainService(r.serviceName) { CppFirstIsFirst(ruleConfig, r, 0); }
      }
      if disableRule {
        return -1, None;
      }
      if config.None? {
        ruleId := -1;
      }
    }
  }
}

/** The lazily expiring cache of resolved names, and the keys under which the domain
    operator and the resolving providers look the same answer up. */
module DnsCache {
  import opened GoStrings

  const SECOND := 1_000_000_000
  const HOUR := 3_600 * SECOND

  /** A stored answer: plain, or with the custom resolver that gave it. */
  datatype Data = Plain(ips: seq<string>) | Custom(answer: seq<string>, resolverUrl: string)

  datatype Entry = Entry(expiresAt: int, data: Data)

  type Entries = map<string, Entry>

  /** A time to live that is not positive means one hour. */
  function Ttl(ttl: int): int {
    if ttl <= 0 then HOUR else ttl
  }

  function Found(entries: Entries, id: string, now: int): Option<Data> {
    if id !in entries || now > entries[id].expiresAt then None else Some(entries[id].data)
  }

  /** A look-up drops the entry it finds expired. */
  function AfterGet(entries: Entries, id: string, now: int): Entries {
    if id in entries && now > entries[id].expiresAt then entries - {id} else entries
  }

  function AfterSet(entries: Entries, id: string, data: Data, ttl: int, now: int): Entries {
    entries[id := Entry(now + Ttl(ttl), data)]
  }

  class TtlCache {
    var entries: Entries

    constructor ()
      ensures entries == map[]
    {
      entries := map[];
    }

    method Get(id: string, now: int) returns (data: Option<Data>)
      modifies this
      ensures data == Found(old(entries), id, now)
      ensures entries == AfterGet(old(entries), id, now)
    {
      if id !in entries {
        return None;
      }
      var e := entries[id];
      if now > e.expiresAt {
        entries := entries - {id};
        return None;
      }
      return Some(e.data);
    }

    method Set(id: string, data: Data, ttl: int, now: int)
      modifies this
      ensures entries == AfterSet(old(entries), id, data, ttl, now)
    {
      entries := entries[id := Entry(now + (if ttl <= 0 then HOUR else ttl), data)];
    }

    /** Answers from the cache or else from `fetched`, what the resolver would say;
        `now` and `later` are the clock readings of the look-up and of the store. */
    method CachedOrResolve(id: string, noCache: bool, ttlSec: int, now: int, fetched: Option<seq<string>>, later: int)
      returns (ips: Option<seq<string>>, hit: bool)
      modifies this
      ensures hit <==> !noCache && Found(old(entries), id, now).Some? && Found(old(entries), id, now).value.Plain?
      ensures ips == if hit then Some(Found(old(entries), id, now).value.ips) else fetched
      ensures var looked := if noCache then old(entries) else AfterGet(old(entries), id, now);
              entries == if hit || fetched.None? then looked else AfterSet(looked, id, Plain(fetched.value), ttlSec * 1_000_000_000, later)
    {
      if !noCache {
        var cached := Get(id, now);
        if cached.Some? && cached.value.Plain? {
          return Some(cached.value.ips), true;
        }
      }
      if fetched.None? {
        return None, false;
      }
      Set(id, Plain(fetched.value), ttlSec * SECOND, later);
      return fetched, false;
    }
  }

  // ---- runs ----

  /** What happens to the shared cache, in the order of its lock. */
  datatype Event =
    | Get(id: string, time: int)
    | Set(id: string, time: int, data: Data, ttl: int)

  function After(entries: Entries, e: Event): Entries {
    match e
    case Get(id, now) => AfterGet(entries, id, now)
    case Set(id, now, data, ttl) => AfterSet(entries, id, data, ttl, now)
  }

  function Run(events: seq<Event>): Entries {
    if events == [] then map[] else After(Run(events[..|events| - 1]), events[|events| - 1])
  }

  predicate Ordered(events: seq<Event>) {
    forall i, j :: 0 <= i < j < |events| ==> events[i].time <= events[j].time
  }

  /** The last store under a key. */
  function LastSet(events: seq<Event>, id: string): (e: Option<Event>)
    ensures e.Some? ==> e.value in events && e.value.Set? && e.value.id == id
    ensures e.None? ==> forall x :: x in events && x.Set? ==> x.id != id
  {
    if events == [] then None
    else
      var last := events[|events| - 1];
      assert events == events[..|events| - 1] + [last];
      if last.Set? && last.id == id then Some(last) else LastSet(events[..|events| - 1], id)
  }

  /** The answer a cache that never deletes anything would give. */
  function Fresh(events: seq<Event>, id: string, now: int): Option<Data> {
    var last := LastSet(events, id);
    if last.None? || now - last.value.time > Ttl(last.value.ttl) then None else Some(last.value.data)
  }

  /** What the entries remember: the last store of the key, or nothing once it has
      expired and been looked up. */
  ghost predicate Remembered(entries: Entries, last: Option<Event>, id: string, now: int)
    requires last.Some? ==> last.value.Set?
  {
    if id in entries then
      last.Some? && entries[id] == Entry(last.value.time + Ttl(last.value.ttl), last.value.data)
    else
      last.None? || now > last.value.time + Ttl(last.value.ttl)
  }

  lemma RememberStep(entries: Entries, last: Option<Event>, id: string, e: Event, now: int)
    requires (last.Some? ==> last.value.Set?) && Remembered(entries, last, id, e.time) && e.time <= now
    ensures Remembered(After(entries, e), if e.Set? && e.id == id then Some(e) else last, id, now)
  {
    hide Ttl;
  }

  lemma {:induction false} Remembers(events: seq<Event>, id: string, now: int)
    requires Ordered(events) && forall i :: 0 <= i < |events| ==> events[i].time <= now
    ensures Remembered(Run(events), LastSet(events, id), id, now)
    decreases |events|
  {
    hide Remembered, After;
    if events != [] {
      var n := |events| - 1;
      Remembers(events[..n], id, events[n].time);
      RememberStep(Run(events[..n]), LastSet(events[..n], id), id, events[n], now);
    } else {
      NothingRemembered(id, now);
    }
  }

  lemma NothingRemembered(id: string, now: int)
    ensures Remembered(map[], None, id, now)
  {
  }

  /** Over any run a cached answer is the last value stored under its key and no older
      than its time to live, and such a value is always found: lazy deletion is
      invisible. */
  lemma AnswerIsFresh(events: seq<Event>, id: string, now: int)
    requires Ordered(events) && forall i :: 0 <= i < |events| ==> events[i].time <= now
    ensures Found(Run(events), id, now) == Fresh(events, id, now)
  {
    Remembers(events, id, now);
  }

  /** A value stored without a positive time to live is found for exactly one hour. */
  lemma DefaultIsOneHour(entries: Entries, id: string, data: Data, ttl: int, now: int, later: int)
    requires ttl <= 0 && now <= later
    ensures Found(AfterSet(entries, id, data, ttl, now), id, later) == if later <= now + 3_600_000_000_000 then Some(data) else None
  {
  }

  // ---- keys ----

  /** parseCustomDnsUrls; None is its error. */
  function ParseUrls(raw: string): Option<seq<string>> {
    var urls := NonBlank(Split(raw, '\n'));
    if urls == [] then None else Some(urls)
  }

  function NormalizeUrls(raw: string): Option<string> {
    var urls := ParseUrls(raw);
    if urls.None? then None else Some(Join(urls.value, "\n"))
  }

  method ParseCustomDnsUrls(raw: string) returns (urls: Option<seq<string>>)
    ensures urls == ParseUrls(raw)
  {
    hide TrimSpace;
    var items := Split(raw, '\n');
    var out: seq<string> := [];
    for i := 0 to |items|
      invariant out == NonBlank(items[..i])
    {
      NonBlankSnoc(items[..i], items[i]);
      assert items[..i + 1] == items[..i] + [items[i]];
      var item := TrimSpace(items[i]);
      if item != "" {
        out := out + [item];
      }
    }
    assert items[..|items|] == items;
    return if |out| == 0 then None else Some(out);
  }

  lemma {:induction false} NonBlankItems(items: seq<string>)
    requires forall x :: x in items ==> '\n' !in x
    ensures forall u :: u in NonBlank(items) ==> u != "" && Trimmed(u) && '\n' !in u
    decreases |items|
  {
    if items != [] {
      assert items[0] in items && forall x :: x in items[1..] ==> x in items;
      NonBlankItems(items[1..]);
      TrimTwice(items[0]);
      TrimKeepsOut(items[0], '\n');
      hide TrimSpace;
    }
  }

  lemma {:induction false} NonBlankKeeps(urls: seq<string>)
    requires forall u :: u in urls ==> u != "" && Trimmed(u)
    ensures NonBlank(urls) == urls
    decreases |urls|
  {
    hide TrimSpace;
    if urls != [] {
      assert urls[0] in urls && forall u :: u in urls[1..] ==> u in urls;
      NonBlankKeeps(urls[1..]);
      assert urls == [urls[0]] + urls[1..];
    }
  }

  /** Lines of trimmed URLs are read as just these URLs, in order; blank lines and white
      space around a line change nothing. */
  lemma UrlsRead(lines: seq<string>)
    requires lines != [] && forall l :: l in lines ==> '\n' !in l
    ensures NonBlank(Split(Join(lines, "\n"), '\n')) == NonBlank(lines)
    ensures (forall l :: l in lines ==> l != "" && Trimmed(l)) ==> ParseUrls(Join(lines, "\n")) == Some(lines)
  {
    SplitJoin(lines, '\n');
    assert ['\n'] == "\n";
    if forall l :: l in lines ==> l != "" && Trimmed(l) {
      NonBlankKeeps(lines);
    }
  }

  /** Normalising a list of resolver URLs twice is normalising it once, and the normal
      form names the same resolvers. */
  lemma NormalizeTwice(raw: string)
    requires NormalizeUrls(raw).Some?
    ensures var normal := NormalizeUrls(raw).value;
            ParseUrls(normal) == ParseUrls(raw) && NormalizeUrls(normal) == Some(normal)
  {
    hide NonBlank, TrimSpace;
    var urls := ParseUrls(raw).value;
    NonBlankItems(Split(raw, '\n'));
    SplitJoin(urls, '\n');
    assert ['\n'] == "\n";
    NonBlankKeeps(urls);
  }

  datatype Provider = CustomDns | Google | IpApi | Cloudflare | Ali | Tencent

  datatype DnsType = IPv4 | IPv6

  function TypeText(t: DnsType): string {
    if t == IPv4 then "IPv4" else "IPv6"
  }

  /** The operator's settings that name an answer; `customUrl` is the normal form. */
  datatype Config = Config(provider: Provider, dnsType: DnsType, customUrl: string, insecure: bool)

  function InsecurePrefix(insecure: bool): string {
    if insecure then "INSECURE:" else ""
  }

  /** resolverCacheID, before hashing. */
  function OperatorKey(c: Config, domain: string): string {
    var t := TypeText(c.dnsType);
    match c.provider
    case CustomDns => "CUSTOM:" + InsecurePrefix(c.insecure) + c.customUrl + ":" + domain + ":" + t
    case Google => "GOOGLE:" + domain + ":" + t
    case IpApi => "IP-API:" + domain
    case Cloudflare => "CLOUDFLARE:" + domain + ":" + t
    case Ali => "ALI:" + domain + ":" + t
    case Tencent => "TENCENT:" + domain + ":" + t
  }

  /** The key a provider stores its answer under; None when it refuses the request. */
  function ProviderKey(p: Provider, domain: string, dnsType: DnsType, url: string, insecure: bool): Option<string> {
    var t := TypeText(dnsType);
    match p
    case CustomDns =>
      var urls := ParseUrls(url);
      if urls.None? then None
      else Some("CUSTOM:" + InsecurePrefix(insecure) + Join(urls.value, "\n") + ":" + domain + ":" + t)
    case Google => Some("GOOGLE:" + domain + ":" + t)
    case IpApi => if dnsType == IPv6 then None else Some("IP-API:" + domain)
    case Cloudflare => Some("CLOUDFLARE:" + domain + ":" + t)
    case Ali => Some("ALI:" + domain + ":" + t)
    case Tencent => Some("TENCENT:" + domain + ":" + t)
  }

  /** newResolveDomainConfig, as far as keys go; None is its error. */
  function NewConfig(p: Provider, dnsType: DnsType, url: string, insecure: bool): Option<Config> {
    if p == IpApi && dnsType == IPv6 then None
    else if p != CustomDns then Some(Config(p, dnsType, "", false))
    else
      var normal := NormalizeUrls(url);
      if normal.None? then None else Some(Config(p, dnsType, normal.value, insecure))
  }

  /** The key the operator looks under is the key the provider it calls stores under. */
  lemma KeysAgree(p: Provider, dnsType: DnsType, url: string, insecure: bool, domain: string)
    requires NewConfig(p, dnsType, url, insecure).Some?
    ensures var c := NewConfig(p, dnsType, url, insecure).value;
            ProviderKey(c.provider, domain, c.dnsType, c.customUrl, c.insecure) == Some(OperatorKey(c, domain))
  {
    hide ParseUrls;
    if p == CustomDns {
      NormalizeTwice(url);
    }
  }

  /** A configuration is refused for IPv6 through IP-API and for a blank custom list, and the
      provider refuses the same. */
  lemma RefusedExactly(p: Provider, dnsType: DnsType, url: string, insecure: bool, domain: string)
    ensures NewConfig(p, dnsType, url, insecure).None? <==>
            (p == IpApi && dnsType == IPv6) || (p == CustomDns && forall l :: l in Split(url, '\n') ==> TrimSpace(l) == "")
    ensures NewConfig(p, dnsType, url, insecure).None? <==> ProviderKey(p, domain, dnsType, url, insecure).None?
  {
    hide TrimSpace;
    NoneLeft(Split(url, '\n'));
  }

  lemma {:induction false} NoneLeft(lines: seq<string>)
    ensures NonBlank(lines) == [] <==> forall l :: l in lines ==> TrimSpace(l) == ""
    decreases |lines|
  {
    hide TrimSpace;
    if lines != [] {
      NoneLeft(lines[1..]);
      assert lines == [lines[0]] + lines[1..];
    }
  }

  // ---- the operator's dedup loop ----

  /** Whether a stored answer is of the kind the provider stores. */
  predicate Usable(p: Provider, data: Data) {
    data.Custom? <==> p == CustomDns
  }

  /** What a provider stored is used as long as it is live and of the kind that provider
      stores. */
  lemma StoredIsUsed(c: Config, entries: Entries, id: string, data: Data, ttl: int, now: int, later: int)
    requires ttl > 0
    ensures Answer(c, false, AfterSet(entries, id, data, ttl, now), id, later)
            == if later <= now + ttl && (if c.provider == CustomDns then data.Custom? else data.Plain?) then Some(data) else None
  {
  }

  /** A proxy's server, and whether the operator passes it over (an address already, or
      marked not to be resolved). */
  datatype Server = Server(domain: string, passed: bool)

  /** Server `i` is the first one to be resolved under this key. */
  ghost predicate FirstWithKey(c: Config, servers: seq<Server>, i: nat, id: string) {
    && i < |servers| && !servers[i].passed && OperatorKey(c, servers[i].domain) == id
    && forall j :: 0 <= j < i && !servers[j].passed ==> OperatorKey(c, servers[j].domain) != id
  }

  /** The usable answer the cache holds at a look-up, if the cache is to be used. */
  function Answer(c: Config, cacheDisabled: bool, entries: Entries, id: string, now: int): Option<Data> {
    var found := Found(entries, id, now);
    if cacheDisabled || found.None? || !Usable(c.provider, found.value) then None else found
  }

  /** What the loop owes the first server of each key: its cached answer among the results,
      or else a task, never both. */
  ghost predicate Placed(c: Config, cacheDisabled: bool, entries: Entries, servers: seq<Server>, clock: nat -> int,
                         results: map<string, Data>, tasks: seq<(string, string)>, i: nat)
    requires i < |servers|
  {
    var id := OperatorKey(c, servers[i].domain);
    var answer := Answer(c, cacheDisabled, entries, id, clock(i));
    if answer.Some? then id in results && results[id] == answer.value && forall t :: t in tasks ==> t.0 != id
    else id !in results && (id, servers[i].domain) in tasks
  }

  lemma SameAnswer(c: Config, cacheDisabled: bool, a: Entries, b: Entries, id: string, now: int)
    requires (id in a <==> id in b) && (id in a ==> a[id] == b[id])
    ensures Answer(c, cacheDisabled, a, id, now) == Answer(c, cacheDisabled, b, id, now)
  {
  }

  /** The first server of every key is placed as the cache stands when its turn comes, at
      the reading `clock(i)`; there is nothing else in the results and the tasks, and no key
      has two tasks. */
  method CollectTasks(c: Config, cacheDisabled: bool, cache: TtlCache, servers: seq<Server>, clock: nat -> int)
    returns (results: map<string, Data>, tasks: seq<(string, string)>)
    modifies cache
    ensures forall i: nat, id :: FirstWithKey(c, servers, i, id) ==>
              Placed(c, cacheDisabled, old(cache.entries), servers, clock, results, tasks, i)
    ensures forall id :: id in results ==> exists i: nat :: FirstWithKey(c, servers, i, id)
    ensures forall t :: t in tasks ==> exists i: nat :: FirstWithKey(c, servers, i, t.0) && servers[i].domain == t.1
    ensures forall i, j :: 0 <= i < j < |tasks| ==> tasks[i].0 != tasks[j].0
  {
    hide OperatorKey, Answer, Placed, Usable, Found;
    results, tasks := map[], [];
    var seen: set<string> := {};
    ghost var was := cache.entries;
    for i := 0 to |servers|
      invariant forall id :: id in seen <==> exists j: nat :: j < i && FirstWithKey(c, servers, j, id)
      invariant forall id :: id !in seen ==> (id in cache.entries <==> id in was) && (id in was ==> cache.entries[id] == was[id])
      invariant forall j: nat, id :: j < i && FirstWithKey(c, servers, j, id) ==> Placed(c, cacheDisabled, was, servers, clock, results, tasks, j)
      invariant forall id :: id in results ==> id in seen
      invariant forall t :: t in tasks ==> t.0 in seen && exists j: nat :: j < i && FirstWithKey(c, servers, j, t.0) && servers[j].domain == t.1
      invariant forall j, k :: 0 <= j < k < |tasks| ==> tasks[j].0 != tasks[k].0
    {
      var s := servers[i];
      ghost var oldSeen, oldResults, oldTasks := seen, results, tasks;
      if s.passed {
        continue;
      }
      var id := OperatorKey(c, s.domain);
      if id in seen {
        SeenBefore(c, servers, i, id);
        continue;
      }
      NotSeenBefore(c, servers, i, id);
      seen := seen + {id};
      SameAnswer(c, cacheDisabled, was, cache.entries, id, clock(i));
      AnswerIs(c, cacheDisabled, cache.entries, id, clock(i));
      var cached: Option<Data> := None;
      if !cacheDisabled {
        cached := cache.Get(id, clock(i));
      }
      if cached.Some? && Usable(c.provider, cached.value) {
        results := results[id := cached.value];
      } else {
        tasks := tasks + [(id, s.domain)];
      }
      NowPlaced(c, cacheDisabled, was, servers, clock, oldResults, oldTasks, results, tasks, i);
      forall j: nat, key | j < i && FirstWithKey(c, servers, j, key)
        ensures Placed(c, cacheDisabled, was, servers, clock, results, tasks, j)
      {
        assert key in oldSeen && key != id;
        StaysPlaced(c, cacheDisabled, was, servers, clock, oldResults, oldTasks, results, tasks, j, id);
      }
    }
  }

  /** One more key in one of the two changes nothing for the others. */
  lemma StaysPlaced(c: Config, cacheDisabled: bool, entries: Entries, servers: seq<Server>, clock: nat -> int,
                    results: map<string, Data>, tasks: seq<(string, string)>,
                    results': map<string, Data>, tasks': seq<(string, string)>, i: nat, id: string)
    requires i < |servers| && Placed(c, cacheDisabled, entries, servers, clock, results, tasks, i)
    requires OperatorKey(c, servers[i].domain) != id
    requires forall key :: key != id ==> (key in results <==> key in results') && (key in results ==> results[key] == results'[key])
    requires tasks' == tasks || exists d :: tasks' == tasks + [(id, d)]
    ensures Placed(c, cacheDisabled, entries, servers, clock, results', tasks', i)
  {
    hide OperatorKey, Answer;
  }

  lemma NowPlaced(c: Config, cacheDisabled: bool, entries: Entries, servers: seq<Server>, clock: nat -> int,
                  results: map<string, Data>, tasks: seq<(string, string)>,
                  results': map<string, Data>, tasks': seq<(string, string)>, i: nat)
    requires i < |servers|
    requires var id := OperatorKey(c, servers[i].domain);
             var answer := Answer(c, cacheDisabled, entries, id, clock(i));
             && id !in results && (forall t :: t in tasks ==> t.0 != id)
             && if answer.Some? then results' == results[id := answer.value] && tasks' == tasks
                else results' == results && tasks' == tasks + [(id, servers[i].domain)]
    ensures Placed(c, cacheDisabled, entries, servers, clock, results', tasks', i)
  {
    hide OperatorKey, Answer;
    var t := (OperatorKey(c, servers[i].domain), servers[i].domain);
    assert t in tasks + [t];
  }

  lemma AnswerIs(c: Config, cacheDisabled: bool, entries: Entries, id: string, now: int)
    ensures Answer(c, cacheDisabled, entries, id, now)
            == if cacheDisabled || Found(entries, id, now).None? || !Usable(c.provider, Found(entries, id, now).value) then None
               else Found(entries, id, now)
  {
  }

  lemma SeenBefore(c: Config, servers: seq<Server>, i: nat, id: string)
    requires i < |servers| && OperatorKey(c, servers[i].domain) == id
    requires exists j: nat :: j < i && FirstWithKey(c, servers, j, id)
    ensures forall key :: !FirstWithKey(c, servers, i, key)
  {
  }

  lemma {:induction false} NotSeenBefore(c: Config, servers: seq<Server>, i: nat, id: string)
    requires i < |servers| && !servers[i].passed && OperatorKey(c, servers[i].domain) == id
    requires forall j: nat :: j < i ==> !FirstWithKey(c, servers, j, id)
    ensures FirstWithKey(c, servers, i, id)
  {
    hide OperatorKey;
    forall j | 0 <= j < i && !servers[j].passed
      ensures OperatorKey(c, servers[j].domain) != id
    {
      if OperatorKey(c, servers[j].domain) == id {
        FirstExists(c, servers, j, id);
      }
    }
  }

  /** A key some server has is first had by some server. */
  lemma {:induction false} FirstExists(c: Config, servers: seq<Server>, j: nat, id: string)
    requires j < |servers| && !servers[j].passed && OperatorKey(c, servers[j].domain) == id
    ensures exists i: nat :: i <= j && FirstWithKey(c, servers, i, id)
    decreases j
  {
    hide OperatorKey;
    if k :| 0 <= k < j && !servers[k].passed && OperatorKey(c, servers[k].domain) == id {
      FirstExists(c, servers, k, id);
    } else {
      assert FirstWithKey(c, servers, j, id);
    }
  }

  // ---- which questions share a key ----

  /** The list as a key holds it. */
  function ListText(c: Config): string {
    InsecurePrefix(c.insecure) + c.customUrl
  }

  /** What a key says in front of the domain. */
  function Subject(c: Config): string {
    match c.provider
    case CustomDns => "CUSTOM:" + ListText(c)
    case Google => "GOOGLE"
    case IpApi => "IP-API"
    case Cloudflare => "CLOUDFLARE"
    case Ali => "ALI"
    case Tencent => "TENCENT"
  }

  lemma KeyIs(c: Config, x: string)
    ensures OperatorKey(c, x) ==
            if c.provider == IpApi then Subject(c) + ":" + x else (Subject(c) + ":" + x) + ":" + TypeText(c.dnsType)
  {
    if c.provider == CustomDns {
      assert "CUSTOM:" + InsecurePrefix(c.insecure) + c.customUrl == Subject(c);
    }
  }

  lemma KeyNamesProvider(c: Config, x: string)
    ensures var s := OperatorKey(c, x);
            && |s| >= 3
            && (c.provider == CustomDns <==> s[0] == 'C' && s[1] == 'U')
            && (c.provider == Cloudflare <==> s[0] == 'C' && s[1] == 'L')
            && (c.provider == Google <==> s[0] == 'G')
            && (c.provider == IpApi <==> s[0] == 'I')
            && (c.provider == Ali <==> s[0] == 'A')
            && (c.provider == Tencent <==> s[0] == 'T')
  {
  }

  lemma SamePrefix(p: string, x: string, y: string)
    ensures p + x == p + y <==> x == y
  {
    assert (p + x)[|p|..] == x && (p + y)[|p|..] == y;
  }

  lemma SameEnd(a: string, t: string, b: string, u: string)
    requires |t| == |u|
    ensures a + ":" + t == b + ":" + u <==> a == b && t == u
  {
    var s, r := a + ":" + t, b + ":" + u;
    if s == r {
      assert |a| == |b|;
      assert s[..|a|] == a && r[..|b|] == b && s[|a| + 1..] == t && r[|b| + 1..] == u;
    }
  }

  /** `b` is `a` with a colon and more behind it, and that more stands in front of the
      domain `y` in the domain `x`. */
  predicate Shifted(a: string, x: string, b: string, y: string) {
    |a| < |b| && b[..|a|] == a && b[|a|] == ':' && x == b[|a| + 1..] + ":" + y
  }

  lemma ShiftedReads(a: string, x: string, b: string, y: string)
    requires |a| < |b|
    ensures a + ":" + x == b + ":" + y <==> Shifted(a, x, b, y)
  {
    var s, r := a + ":" + x, b + ":" + y;
    assert s[..|a|] == a && s[|a|] == ':' && s[|a| + 1..] == x;
    assert r[..|a|] == b[..|a|] && r[|a|] == b[|a|] && r[|a| + 1..] == b[|a| + 1..] + ":" + y;
    assert s == s[..|a|] + [s[|a|]] + s[|a| + 1..] && r == r[..|a|] + [r[|a|]] + r[|a| + 1..];
  }

  /** Two lists and domains read the same around a colon. */
  lemma ColonSplits(a: string, x: string, b: string, y: string)
    ensures a + ":" + x == b + ":" + y <==> (a == b && x == y) || Shifted(a, x, b, y) || Shifted(b, y, a, x)
  {
    if |a| < |b| {
      ShiftedReads(a, x, b, y);
    } else if |b| < |a| {
      ShiftedReads(b, y, a, x);
    } else if a + ":" + x == b + ":" + y {
      var s, r := a + ":" + x, b + ":" + y;
      assert s[..|a|] == a && r[..|b|] == b && s[|a| + 1..] == x && r[|b| + 1..] == y;
    }
  }

  /** One provider, and one record type unless its key holds none. */
  predicate SameKind(c: Config, d: Config) {
    c.provider == d.provider && (c.provider == IpApi || c.dnsType == d.dnsType)
  }

  /** Keys of any two questions are equal exactly when the kinds agree and so do the
      domains; behind a custom list a colon may also stand in either of the two. */
  lemma KeyOfAnyDomain(c: Config, d: Config, x: string, y: string)
    ensures OperatorKey(c, x) == OperatorKey(d, y) <==>
            && SameKind(c, d)
            && (if c.provider == CustomDns then
                  (ListText(c) == ListText(d) && x == y)
                  || Shifted(ListText(c), x, ListText(d), y) || Shifted(ListText(d), y, ListText(c), x)
                else x == y)
  {
    hide OperatorKey, Shifted, ListText;
    KeyIs(c, x);
    KeyIs(d, y);
    KeyNamesProvider(c, x);
    KeyNamesProvider(d, y);
    if c.provider == d.provider {
      SameProvider(c, d, x, y);
    }
  }

  lemma SameProvider(c: Config, d: Config, x: string, y: string)
    requires c.provider == d.provider
    ensures OperatorKey(c, x) == OperatorKey(d, y) <==>
            && SameKind(c, d)
            && (if c.provider == CustomDns then
                  (ListText(c) == ListText(d) && x == y)
                  || Shifted(ListText(c), x, ListText(d), y) || Shifted(ListText(d), y, ListText(c), x)
                else x == y)
  {
    hide OperatorKey, Shifted, ListText;
    KeyIs(c, x);
    KeyIs(d, y);
    TypesDiffer();
    SameEnd(Subject(c) + ":" + x, TypeText(c.dnsType), Subject(d) + ":" + y, TypeText(d.dnsType));
    if c.provider == CustomDns {
      CustomShape(ListText(c), x);
      CustomShape(ListText(d), y);
      SamePrefix("CUSTOM:", ListText(c) + ":" + x, ListText(d) + ":" + y);
      ColonSplits(ListText(c), x, ListText(d), y);
    } else {
      SamePrefix(Subject(c) + ":", x, y);
    }
  }

  lemma CustomShape(a: string, x: string)
    ensures "CUSTOM:" + a + ":" + x == "CUSTOM:" + (a + ":" + x)
  {
  }

  lemma TypesDiffer()
    ensures TypeText(IPv4) != TypeText(IPv6) && |TypeText(IPv4)| == |TypeText(IPv6)|
  {
    assert TypeText(IPv4)[3] != TypeText(IPv6)[3];
  }

  /** The same question about a domain: the kind and, for custom resolvers, the list and
      the certificate check agree. */
  predicate SameQuestion(c: Config, d: Config) {
    SameKind(c, d) && (c.provider == CustomDns ==> c.customUrl == d.customUrl && c.insecure == d.insecure)
  }

  /** A checked list that is the marker for unchecked certificates and an unchecked list. */
  predicate Confused(c: Config, d: Config) {
    && c.provider == CustomDns && d.provider == CustomDns && c.dnsType == d.dnsType
    && ((!c.insecure && d.insecure && c.customUrl == "INSECURE:" + d.customUrl)
        || (c.insecure && !d.insecure && d.customUrl == "INSECURE:" + c.customUrl))
  }

  /** Domains without a colon share a key exactly when they are equal and the questions
      are the same, or confused by the marker. */
  lemma KeyExactly(c: Config, d: Config, x: string, y: string)
    requires ':' !in x && ':' !in y
    ensures OperatorKey(c, x) == OperatorKey(d, y) <==> x == y && (SameQuestion(c, d) || Confused(c, d))
  {
    hide OperatorKey, ListText, Shifted;
    KeyOfAnyDomain(c, d, x, y);
    NotShifted(ListText(c), x, ListText(d), y);
    NotShifted(ListText(d), y, ListText(c), x);
    SameList(c, d);
  }

  lemma NotShifted(a: string, x: string, b: string, y: string)
    requires ':' !in x
    ensures !Shifted(a, x, b, y)
  {
    if |a| < |b| {
      var z := b[|a| + 1..];
      assert (z + ":" + y)[|z|] == ':';
    }
  }

  lemma SameList(c: Config, d: Config)
    ensures ListText(c) == ListText(d) <==>
            if c.insecure == d.insecure then c.customUrl == d.customUrl
            else if c.insecure then d.customUrl == "INSECURE:" + c.customUrl
            else c.customUrl == "INSECURE:" + d.customUrl
  {
    SamePrefix(InsecurePrefix(c.insecure), c.customUrl, d.customUrl);
    assert "" + c.customUrl == c.customUrl && "" + d.customUrl == d.customUrl;
  }

  /** A checked and an unchecked list that share every key. */
  lemma MarkerCollides(url: string, dnsType: DnsType, domain: string)
    ensures OperatorKey(Config(CustomDns, dnsType, url, true), domain)
            == OperatorKey(Config(CustomDns, dnsType, "INSECURE:" + url, false), domain)
  {
    assert "" + ("INSECURE:" + url) == "INSECURE:" + url;
  }
}

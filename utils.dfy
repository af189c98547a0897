/**
 * The destination-path resolver and the recogniser of private ECR references
 * (`replace_domain_name`, `is_ecr`, `in_array`).
 */
module Utils {
  import opened Text
  import Config

  // ---------------------------------------------------------------------------
  // ECR references: ^(\d+)\.dkr\.ecr\.([a-z0-9-]+)\.amazonaws\.com/(.+)$
  // ---------------------------------------------------------------------------

  predicate IsDigit(c: char) { '0' <= c <= '9' }

  predicate IsRegionChar(c: char) { 'a' <= c <= 'z' || IsDigit(c) || c == '-' }

  /** The three groups the pattern captures: account id, region and repository path. */
  datatype EcrReference = EcrReference(account: string, region: string, path: string)

  /** `(.+)$`: at least one character, no line break, except that `$` also matches before one final newline. */
  predicate PathMatches(p: string) {
    || (|p| > 0 && '\n' !in p)
    || (|p| > 1 && p[|p| - 1] == '\n' && '\n' !in p[..|p| - 1])
  }

  predicate WellFormed(e: EcrReference) {
    && |e.account| > 0 && (forall k :: 0 <= k < |e.account| ==> IsDigit(e.account[k]))
    && |e.region| > 0 && (forall k :: 0 <= k < |e.region| ==> IsRegionChar(e.region[k]))
    && PathMatches(e.path)
  }

  /** The host name of the registry an ECR reference points at. */
  function EcrHost(e: EcrReference): string {
    e.account + ".dkr.ecr." + e.region + ".amazonaws.com"
  }

  /** The text an ECR reference is written as. */
  function Compose(e: EcrReference): string {
    EcrHost(e) + "/" + e.path
  }

  /** Length of the run of leading digits. */
  function DigitRun(s: string): (n: nat)
    ensures n <= |s|
    ensures forall k :: 0 <= k < n ==> IsDigit(s[k])
    ensures n < |s| ==> !IsDigit(s[n])
  {
    if |s| > 0 && IsDigit(s[0]) then 1 + DigitRun(s[1..]) else 0
  }

  /** Length of the run of leading region characters. */
  function RegionRun(s: string): (n: nat)
    ensures n <= |s|
    ensures forall k :: 0 <= k < n ==> IsRegionChar(s[k])
    ensures n < |s| ==> !IsRegionChar(s[n])
  {
    if |s| > 0 && IsRegionChar(s[0]) then 1 + RegionRun(s[1..]) else 0
  }

  /**
   * A hand-written matcher for the pattern. Neither `\d` nor `[a-z0-9-]` matches `.`,
   * so each group is the maximal run of its characters and no backtracking is needed.
   */
  function ParseEcr(s: string): (r: Option<EcrReference>)
    ensures r.Some? ==> WellFormed(r.value) && Compose(r.value) == s
  {
    var a := DigitRun(s);
    if a == 0 || !StartsWith(s[a..], ".dkr.ecr.") then None
    else
      match ParseRegionAndPath(s[a + 9..])
      case None => None
      case Some(rp) =>
        ParsedReference(s, a, rp.0, rp.1);
        Some(EcrReference(s[..a], rp.0, rp.1))
  }

  /** The pieces the matcher cut out form a well-formed reference that is written as the input. */
  lemma ParsedReference(s: string, a: nat, region: string, path: string)
    requires 0 < a <= |s| && (forall k :: 0 <= k < a ==> IsDigit(s[k]))
    requires StartsWith(s[a..], ".dkr.ecr.")
    requires |region| > 0 && (forall k :: 0 <= k < |region| ==> IsRegionChar(region[k]))
    requires PathMatches(path)
    requires s[a + 9..] == region + ".amazonaws.com/" + path
    ensures WellFormed(EcrReference(s[..a], region, path))
    ensures Compose(EcrReference(s[..a], region, path)) == s
  {
    var e := EcrReference(s[..a], region, path);
    assert forall k :: 0 <= k < a ==> e.account[k] == s[k];
    AccountAndRest(s, a);
    assert s[a + 9..] == region + (".amazonaws.com/" + path);
    ComposeRegrouped(e);
  }

  /** A text whose part from `a` on starts with `.dkr.ecr.` is its first `a` characters, that, and the rest. */
  lemma AccountAndRest(s: string, a: nat)
    requires a <= |s| && StartsWith(s[a..], ".dkr.ecr.")
    ensures s == s[..a] + (".dkr.ecr." + s[a + 9..])
  {
    assert s[a..] == s[a..][..9] + s[a + 9..];
  }

  /** The part of the pattern after `.dkr.ecr.`: `([a-z0-9-]+)\.amazonaws\.com/(.+)$`. */
  function ParseRegionAndPath(t: string): (r: Option<(string, string)>)
    ensures r.Some? ==> var (region, path) := r.value;
      && |region| > 0 && (forall k :: 0 <= k < |region| ==> IsRegionChar(region[k]))
      && PathMatches(path)
      && t == region + ".amazonaws.com/" + path
  {
    var b := RegionRun(t);
    if b == 0 || !StartsWith(t[b..], ".amazonaws.com/") || !PathMatches(t[b + 15..]) then None
    else
      assert t == t[..b] + t[b..][..15] + t[b + 15..];
      Some((t[..b], t[b + 15..]))
  }

  /** `is_ecr(img)` */
  predicate IsEcr(img: string) {
    ParseEcr(img).Some?
  }

  lemma {:induction false} DigitRunConcat(a: string, b: string)
    requires forall k :: 0 <= k < |a| ==> IsDigit(a[k])
    requires |b| > 0 && !IsDigit(b[0])
    ensures DigitRun(a + b) == |a|
  {
    if a != [] {
      assert (a + b)[1..] == a[1..] + b;
      DigitRunConcat(a[1..], b);
    }
  }

  lemma {:induction false} RegionRunConcat(a: string, b: string)
    requires forall k :: 0 <= k < |a| ==> IsRegionChar(a[k])
    requires |b| > 0 && !IsRegionChar(b[0])
    ensures RegionRun(a + b) == |a|
  {
    if a != [] {
      assert (a + b)[1..] == a[1..] + b;
      RegionRunConcat(a[1..], b);
    }
  }

  lemma RegionAndPathCompose(region: string, path: string)
    requires |region| > 0 && (forall k :: 0 <= k < |region| ==> IsRegionChar(region[k]))
    requires PathMatches(path)
    ensures ParseRegionAndPath(region + (".amazonaws.com/" + path)) == Some((region, path))
  {
    var tail := ".amazonaws.com/" + path;
    var t := region + tail;
    RegionRunConcat(region, tail);
    assert t[|region|..] == tail;
    assert t[..|region|] == region;
    assert tail[..15] == ".amazonaws.com/";
    assert tail[15..] == path;
  }

  /** `Compose(e)` regrouped from the right, the way the matcher consumes it. */
  lemma ComposeRegrouped(e: EcrReference)
    ensures Compose(e) == e.account + (".dkr.ecr." + (e.region + (".amazonaws.com/" + e.path)))
  {
  }

  /** Every well-formed reference is recognised, and parsing gives back exactly its groups. */
  lemma ParseCompose(e: EcrReference)
    requires WellFormed(e)
    ensures ParseEcr(Compose(e)) == Some(e)
  {
    var t := e.region + (".amazonaws.com/" + e.path);
    var rest := ".dkr.ecr." + t;
    var s := e.account + rest;
    ComposeRegrouped(e);
    DigitRunConcat(e.account, rest);
    var a := |e.account|;
    assert s[a..] == rest;
    assert rest[..9] == ".dkr.ecr.";
    assert s[a + 9..] == t;
    assert s[..a] == e.account;
    RegionAndPathCompose(e.region, e.path);
  }

  /** The registry of an ECR reference, its text before the first `/`, is the host. */
  lemma HostOfCompose(e: EcrReference)
    requires WellFormed(e)
    ensures BeforeFirst(Compose(e), '/') == EcrHost(e)
  {
    assert '/' !in EcrHost(e) by {
      assert forall k :: 0 <= k < |e.account| ==> e.account[k] != '/';
      assert forall k :: 0 <= k < |e.region| ==> e.region[k] != '/';
    }
    BeforeFirstCons(EcrHost(e), "/" + e.path, '/');
    assert Compose(e) == EcrHost(e) + ("/" + e.path);
  }

  /** `is_ecr` holds exactly of the texts that decompose into the pattern's three groups. */
  lemma IsEcrIff(s: string)
    ensures IsEcr(s) <==> exists e :: WellFormed(e) && Compose(e) == s
  {
    if exists e :: WellFormed(e) && Compose(e) == s {
      var e :| WellFormed(e) && Compose(e) == s;
      ParseCompose(e);
    }
  }

  /** The region group stops before `.amazonaws.com.cn/`, which is not the expected `.amazonaws.com/`. */
  lemma CnRegionRejected(path: string)
    ensures ParseRegionAndPath(Config.ECR_REGION_CN + (".amazonaws.com.cn" + ("/" + path))) == None
  {
    var tail := ".amazonaws.com.cn" + ("/" + path);
    var t := Config.ECR_REGION_CN + tail;
    RegionRunConcat(Config.ECR_REGION_CN, tail);
    assert t[14..] == tail;
    assert tail[14] == '.';
    NotStartsWith(tail, ".amazonaws.com/", 14);
  }

  /** Six pieces joined left to right, regrouped from the right. */
  lemma RegroupSix(a: string, b: string, c: string, d: string, e: string, f: string)
    ensures a + b + c + d + e + f == a + (b + (c + (d + (e + f))))
  {
  }

  /** The destination registry's own host is not an ECR reference: it ends in `.amazonaws.com.cn`. */
  lemma CnDomainIsNotEcr(path: string)
    ensures !IsEcr(Config.ECR_DOMAIN_CN + "/" + path)
  {
    var t := Config.ECR_REGION_CN + (".amazonaws.com.cn" + ("/" + path));
    var rest := ".dkr.ecr." + t;
    var s := Config.ECR_ACCOUNT_CN + rest;
    RegroupSix(Config.ECR_ACCOUNT_CN, ".dkr.ecr.", Config.ECR_REGION_CN, ".amazonaws.com.cn", "/", path);
    DigitRunConcat(Config.ECR_ACCOUNT_CN, rest);
    assert s[12..] == rest;
    assert rest[..9] == ".dkr.ecr.";
    assert s[21..] == t;
    CnRegionRejected(path);
  }

  // ---------------------------------------------------------------------------
  // in_array
  // ---------------------------------------------------------------------------

  /** `in_array(elem, arr)`: plain membership in a list. */
  function InArray(elem: string, arr: seq<string>): (r: bool)
    ensures r <==> exists k :: 0 <= k < |arr| && arr[k] == elem
  {
    elem in arr
  }

  // ---------------------------------------------------------------------------
  // replace_domain_name
  // ---------------------------------------------------------------------------

  /** Origin host prefix to destination namespace, searched in order. */
  type DomainTable = seq<(string, string)>

  /** The first table index, from `i` on, whose key the whole reference starts with. */
  function FirstMatch(table: DomainTable, uri: string, i: nat): (r: Option<nat>)
    requires i <= |table|
    ensures r.Some? ==> i <= r.value < |table| && StartsWith(uri, table[r.value].0)
    ensures r.Some? ==> forall j :: i <= j < r.value ==> !StartsWith(uri, table[j].0)
    ensures r.None? ==> forall j :: i <= j < |table| ==> !StartsWith(uri, table[j].0)
    decreases |table| - i
  {
    if i == |table| then None
    else if StartsWith(uri, table[i].0) then Some(i)
    else FirstMatch(table, uri, i + 1)
  }

  lemma EcrHasSlash(uri: string)
    requires IsEcr(uri)
    ensures '/' in uri
  {
    var e := ParseEcr(uri).value;
    assert uri[|EcrHost(e)|] == '/';
  }

  /** `replace_domain_name` over a given table: the table first, then the ECR rule, then `dockerhub/`. */
  function ReplaceDomainNameIn(table: DomainTable, uri: string): string {
    match FirstMatch(table, uri, 0)
    case Some(k) => ReplaceFirst(uri, table[k].0, table[k].1)
    case None =>
      if IsEcr(uri) then
        EcrHasSlash(uri);
        AfterFirst(uri, '/')
      else "dockerhub/" + uri
  }

  /** `replace_domain_name(uri)` with the configured domain table. */
  function ReplaceDomainName(uri: string): string {
    ReplaceDomainNameIn(Config.DOMAIN_MAP, uri)
  }

  /** The first key the reference starts with wins, and only those leading characters are replaced. */
  lemma TableHit(table: DomainTable, uri: string, k: nat)
    requires k < |table| && StartsWith(uri, table[k].0)
    requires forall j :: 0 <= j < k ==> !StartsWith(uri, table[j].0)
    ensures ReplaceDomainNameIn(table, uri) == table[k].1 + uri[|table[k].0|..]
  {
    assert FirstMatch(table, uri, 0) == Some(k);
    ReplaceFirstAtStart(uri, table[k].0, table[k].1);
  }

  /** `TableHit` for a reference written as the key followed by the rest. */
  lemma TableHitSplit(table: DomainTable, k: nat, rest: string)
    requires k < |table|
    requires forall j :: 0 <= j < k ==> !StartsWith(table[k].0 + rest, table[j].0)
    ensures ReplaceDomainNameIn(table, table[k].0 + rest) == table[k].1 + rest
  {
    var uri := table[k].0 + rest;
    assert uri[..|table[k].0|] == table[k].0;
    assert uri[|table[k].0|..] == rest;
    TableHit(table, uri, k);
  }

  /** With no key matching, an ECR reference resolves to its repository path. */
  lemma EcrHit(table: DomainTable, uri: string)
    requires forall j :: 0 <= j < |table| ==> !StartsWith(uri, table[j].0)
    requires IsEcr(uri)
    ensures ReplaceDomainNameIn(table, uri) == ParseEcr(uri).value.path
  {
    var e := ParseEcr(uri).value;
    HostOfCompose(e);
    assert FirstMatch(table, uri, 0).None?;
    assert uri[|EcrHost(e)| + 1..] == e.path;
  }

  /** Anything else is placed under `dockerhub/`, whole. */
  lemma DefaultHit(table: DomainTable, uri: string)
    requires forall j :: 0 <= j < |table| ==> !StartsWith(uri, table[j].0)
    requires !IsEcr(uri)
    ensures ReplaceDomainNameIn(table, uri) == "dockerhub/" + uri
  {
  }

  /** No key is empty and none starts with a digit, so no key can match an ECR reference. */
  predicate KeysNotNumeric(table: DomainTable) {
    forall j :: 0 <= j < |table| ==> |table[j].0| > 0 && !IsDigit(table[j].0[0])
  }

  /** An ECR reference resolves to its path, whatever such a table holds. */
  lemma EcrIgnoresTable(table: DomainTable, e: EcrReference)
    requires KeysNotNumeric(table) && WellFormed(e)
    ensures ReplaceDomainNameIn(table, Compose(e)) == e.path
  {
    var uri := Compose(e);
    ParseCompose(e);
    forall j | 0 <= j < |table| ensures !StartsWith(uri, table[j].0) {
      assert uri[0] == e.account[0];
    }
    EcrHit(table, uri);
  }

  /** The result is never empty when no namespace prefix is. */
  lemma ResolveNonEmpty(table: DomainTable, uri: string)
    requires forall j :: 0 <= j < |table| ==> |table[j].1| > 0
    ensures |ReplaceDomainNameIn(table, uri)| > 0
  {
    match FirstMatch(table, uri, 0)
    case Some(k) => TableHit(table, uri, k);
    case None =>
      if IsEcr(uri) { EcrHit(table, uri); }
  }

  lemma DomainMapShape()
    ensures KeysNotNumeric(Config.DOMAIN_MAP)
    ensures forall j :: 0 <= j < |Config.DOMAIN_MAP| ==> |Config.DOMAIN_MAP[j].1| > 0
  {
  }

  /** `replace_domain_name` never returns an empty path and sends ECR references to their path. */
  lemma ReplaceDomainNameFacts(uri: string, e: EcrReference)
    ensures |ReplaceDomainName(uri)| > 0
    ensures WellFormed(e) ==> ReplaceDomainName(Compose(e)) == e.path
  {
    DomainMapShape();
    ResolveNonEmpty(Config.DOMAIN_MAP, uri);
    if WellFormed(e) { EcrIgnoresTable(Config.DOMAIN_MAP, e); }
  }

  // The examples below keep the host part and the rest of each reference apart, so that the
  // key is visibly the table's own and only the rest is carried over.

  /** A key found at the start is rewritten: `quay.io/coreos/etcd` goes to `quay/coreos/etcd`. */
  lemma ResolveQuay()
    ensures ReplaceDomainName("quay.io" + "/coreos/etcd") == "quay" + "/coreos/etcd"
  {
    NotStartsWith("quay.io" + "/coreos/etcd", "quayio", 4);
    TableHitSplit(Config.DOMAIN_MAP, 1, "/coreos/etcd");
  }

  /** `k8s.gcr.io` has its own entry, placed after the shorter `gcr.io` which it does not start with. */
  lemma ResolveK8sGcr()
    ensures ReplaceDomainName("k8s.gcr.io" + "/pause") == "gcr/google_containers" + "/pause"
  {
    var u := "k8s.gcr.io" + "/pause";
    NotStartsWith(u, "quayio", 0);
    NotStartsWith(u, "quay.io", 0);
    NotStartsWith(u, "gcr.io", 0);
    NotStartsWith(u, "asia.gcr.io", 0);
    NotStartsWith(u, "us.gcr.io", 0);
    TableHitSplit(Config.DOMAIN_MAP, 5, "/pause");
  }

  /** Matching is by prefix only: a host that merely begins with `gcr.io` is rewritten too. */
  lemma ResolvePrefixOnly()
    ensures ReplaceDomainName("gcr.io" + ".example/x") == "gcr" + ".example/x"
  {
    var u := "gcr.io" + ".example/x";
    NotStartsWith(u, "quayio", 0);
    NotStartsWith(u, "quay.io", 0);
    TableHitSplit(Config.DOMAIN_MAP, 2, ".example/x");
  }

  /** A bare name with no known host goes under `dockerhub/`. */
  lemma ResolveBareName()
    ensures ReplaceDomainName("nginx") == "dockerhub/" + "nginx"
  {
    var u := "nginx";
    forall j | 0 <= j < |Config.DOMAIN_MAP| ensures !StartsWith(u, Config.DOMAIN_MAP[j].0) {
      assert u[0] == 'n';
    }
    assert DigitRun(u) == 0;
    DefaultHit(Config.DOMAIN_MAP, u);
  }
}

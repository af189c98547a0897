/**
 * The repository provisioner of the China-region registry (`create_ecr_repo`,
 * `attach_policy`, `delete_ecr_repo`) and the region and credential handling of
 * `login_ecr` / `login_ecr_cn`.
 *
 * The registry client is a `Registry` object whose methods are the four API calls
 * the provisioner makes. Whether a call fails is not decided here: each method takes
 * the service's answer as a parameter, and the provisioner's oracle records bundle
 * those answers for one call of `create_ecr_repo` or `delete_ecr_repo`.
 */
module Ecr {
  import opened Text
  import Config
  import Utils

  /** One request sent to the registry API, in the order it was sent. */
  datatype Call =
    | DescribeRepositories
    | CreateRepository(name: string)
    | SetRepositoryPolicy(name: string)
    | DeleteRepository(name: string)

  /**
   * The registry as the provisioner sees it: the repository names, whether each one
   * carries the public-read policy, and the requests sent so far.
   */
  datatype Service = Service(repos: set<string>, policy: map<string, bool>, calls: seq<Call>)

  /** Every repository has a policy flag and nothing else has one. */
  predicate Consistent(s: Service) {
    s.policy.Keys == s.repos
  }

  /** The URI `create_ecr_repo` builds itself for a repository that already exists. */
  function CanonicalUri(name: string): string {
    Config.ECR_DOMAIN_CN + "/" + name
  }

  /** What becomes of `attach_policy`'s two steps: reading the policy file, then the API call. */
  datatype AttachOutcome =
    | Attached           // the file is read and the service accepts the policy
    | PolicyFileMissing  // `open` raises FileNotFoundError: no request is sent
    | PolicyRejected     // the service answers with a ClientError

  /** The service's answers during one `create_ecr_repo`. */
  datatype CreateOracle = CreateOracle(
    describeFails: bool,  // `describe_repositories` raises ClientError
    createFails: bool,    // `create_repository` raises ClientError
    reportedUri: string,  // the `repositoryUri` a successful creation reports
    attach: AttachOutcome)

  /** The service's answers during one `delete_ecr_repo`. */
  datatype DeleteOracle = DeleteOracle(describeFails: bool, deleteFails: bool)

  /** The service after an operation, and what the operation returned. */
  datatype Step<T> = Step(after: Service, result: T)

  // ---------------------------------------------------------------------------
  // The registry client
  // ---------------------------------------------------------------------------

  class Registry {
    var repos: set<string>
    var policy: map<string, bool>
    var calls: seq<Call>

    ghost predicate Valid()
      reads this
    {
      policy.Keys == repos
    }

    function State(): Service
      reads this
    {
      Service(repos, policy, calls)
    }

    constructor (s: Service)
      requires Consistent(s)
      ensures Valid() && State() == s
    {
      repos, policy, calls := s.repos, s.policy, s.calls;
    }

    /** `describe_repositories()`: the names of all repositories, or None on a ClientError. */
    method DescribeRepositories(fails: bool) returns (names: Option<set<string>>)
      requires Valid()
      modifies this
      ensures Valid()
      ensures repos == old(repos) && policy == old(policy)
      ensures calls == old(calls) + [Call.DescribeRepositories]
      ensures names == if fails then None else Some(repos)
    {
      calls := calls + [Call.DescribeRepositories];
      if fails {
        names := None;
      } else {
        names := Some(repos);
      }
    }

    /**
     * `create_repository(repositoryName=name)`: a new repository without a policy and the URI
     * the service reports for it. An existing name is refused like any other ClientError.
     */
    method CreateRepository(name: string, fails: bool, reportedUri: string) returns (uri: Option<string>)
      requires Valid()
      modifies this
      ensures Valid()
      ensures calls == old(calls) + [Call.CreateRepository(name)]
      ensures uri.Some? <==> !fails && name !in old(repos)
      ensures uri.Some? ==>
        uri.value == reportedUri && repos == old(repos) + {name} && policy == old(policy)[name := false]
      ensures uri.None? ==> repos == old(repos) && policy == old(policy)
    {
      calls := calls + [Call.CreateRepository(name)];
      if fails || name in repos {
        uri := None;
      } else {
        repos := repos + {name};
        policy := policy[name := false];
        uri := Some(reportedUri);
      }
    }

    /** `set_repository_policy(repositoryName=name, ...)`: only an existing repository can take one. */
    method SetRepositoryPolicy(name: string, fails: bool) returns (ok: bool)
      requires Valid()
      modifies this
      ensures Valid()
      ensures calls == old(calls) + [Call.SetRepositoryPolicy(name)]
      ensures repos == old(repos)
      ensures ok <==> !fails && name in old(repos)
      ensures policy == if ok then old(policy)[name := true] else old(policy)
    {
      calls := calls + [Call.SetRepositoryPolicy(name)];
      ok := !fails && name in repos;
      if ok {
        policy := policy[name := true];
      }
    }

    /** `delete_repository(repositoryName=name, force=True)`: removes the repository with its images. */
    method DeleteRepository(name: string, fails: bool) returns (ok: bool)
      requires Valid()
      modifies this
      ensures Valid()
      ensures calls == old(calls) + [Call.DeleteRepository(name)]
      ensures ok <==> !fails && name in old(repos)
      ensures repos == if ok then old(repos) - {name} else old(repos)
      ensures policy == if ok then old(policy) - {name} else old(policy)
    {
      calls := calls + [Call.DeleteRepository(name)];
      ok := !fails && name in repos;
      if ok {
        repos := repos - {name};
        policy := policy - {name};
      }
    }
  }

  // ---------------------------------------------------------------------------
  // The provisioner, as functions of the service state
  // ---------------------------------------------------------------------------

  /** `attach_policy(name)`: its failures are logged and swallowed, so only the state tells them apart. */
  function AttachPolicySpec(s: Service, name: string, outcome: AttachOutcome): (r: Service)
    requires Consistent(s)
    ensures Consistent(r) && r.repos == s.repos
    ensures forall n :: n in s.repos && n != name ==> r.policy[n] == s.policy[n]
    ensures name in s.repos ==> (r.policy[name] <==> outcome == Attached || s.policy[name])
    ensures r.calls == s.calls + (if outcome == PolicyFileMissing then [] else [SetRepositoryPolicy(name)])
  {
    if outcome == PolicyFileMissing then s
    else
      var calls := s.calls + [SetRepositoryPolicy(name)];
      if outcome == Attached && name in s.repos then Service(s.repos, s.policy[name := true], calls)
      else s.(calls := calls)
  }

  /**
   * The requests `create_ecr_repo` sends after its listing: none when the listing fails or finds
   * the name, else the creation, followed by the policy request when creation succeeded and the
   * policy file could be read.
   */
  function RequestsAfterListing(s: Service, name: string, o: CreateOracle): seq<Call> {
    if o.describeFails || name in s.repos then []
    else [CreateRepository(name)] + (if o.createFails || o.attach == PolicyFileMissing then [] else [SetRepositoryPolicy(name)])
  }

  /** `create_ecr_repo(name)`: the URI to push to, or None when the service refused. */
  function CreateEcrRepoSpec(s: Service, name: string, o: CreateOracle): (r: Step<Option<string>>)
    requires Consistent(s)
    ensures Consistent(r.after)
    ensures r.result.Some? <==> !o.describeFails && (name in s.repos || !o.createFails)
    ensures r.result.Some? ==> name in r.after.repos
    ensures r.result.None? || name in s.repos ==> r.after.repos == s.repos && r.after.policy == s.policy
    ensures name in s.repos && !o.describeFails ==> r.result == Some(CanonicalUri(name))
    ensures name !in s.repos && r.result.Some? ==>
      && r.result == Some(o.reportedUri)
      && r.after.repos == s.repos + {name}
      && (r.after.policy[name] <==> o.attach == Attached)
    ensures forall n :: n in s.repos && n != name ==> r.after.policy[n] == s.policy[n]
    ensures |r.after.calls| > |s.calls| && r.after.calls[..|s.calls|] == s.calls
    ensures r.after.calls[|s.calls|] == DescribeRepositories
  {
    var s1 := s.(calls := s.calls + [DescribeRepositories]);
    if o.describeFails then Step(s1, None)
    else if name in s.repos then Step(s1, Some(CanonicalUri(name)))
    else
      var s2 := s1.(calls := s1.calls + [CreateRepository(name)]);
      if o.createFails then Step(s2, None)
      else
        var s3 := Service(s.repos + {name}, s.policy[name := false], s2.calls);
        Step(AttachPolicySpec(s3, name, o.attach), Some(o.reportedUri))
  }

  /** `delete_ecr_repo(name)`: True exactly when it removed an existing repository. */
  function DeleteEcrRepoSpec(s: Service, name: string, o: DeleteOracle): (r: Step<bool>)
    requires Consistent(s)
    ensures Consistent(r.after)
    ensures r.result <==> name in s.repos && !o.describeFails && !o.deleteFails
    ensures r.after.repos == if r.result then s.repos - {name} else s.repos
    ensures forall n :: n in r.after.repos ==> r.after.policy[n] == s.policy[n]
    ensures |r.after.calls| > |s.calls| && r.after.calls[..|s.calls|] == s.calls
  {
    var s1 := s.(calls := s.calls + [DescribeRepositories]);
    if o.describeFails || name !in s.repos then Step(s1, false)
    else
      var s2 := s1.(calls := s1.calls + [DeleteRepository(name)]);
      if o.deleteFails then Step(s2, false)
      else Step(Service(s.repos - {name}, s.policy - {name}, s2.calls), true)
  }

  // ---------------------------------------------------------------------------
  // Properties of the provisioner
  // ---------------------------------------------------------------------------

  /** On an existing name nothing is created and no policy is attached: only the listing is sent. */
  lemma CreateExisting(s: Service, name: string, o: CreateOracle)
    requires Consistent(s) && name in s.repos && !o.describeFails
    ensures CreateEcrRepoSpec(s, name, o) == Step(s.(calls := s.calls + [DescribeRepositories]), Some(CanonicalUri(name)))
  {
  }

  /**
   * On an absent name: list, create, then attach, and the URI reported by creation is returned
   * whatever became of the policy.
   */
  lemma CreateAbsent(s: Service, name: string, o: CreateOracle)
    requires Consistent(s) && name !in s.repos && !o.describeFails && !o.createFails
    ensures var r := CreateEcrRepoSpec(s, name, o);
      && r.result == Some(o.reportedUri)
      && r.after.repos == s.repos + {name}
      && r.after.calls == s.calls + [DescribeRepositories, CreateRepository(name)]
           + (if o.attach == PolicyFileMissing then [] else [SetRepositoryPolicy(name)])
      && (r.after.policy[name] <==> o.attach == Attached)
  {
    assert s.calls + [DescribeRepositories] + [CreateRepository(name)]
      == s.calls + [DescribeRepositories, CreateRepository(name)];
  }

  /** The request log of `create_ecr_repo`: the listing, then whatever it leads to, and nothing else. */
  lemma CreateRequests(s: Service, name: string, o: CreateOracle)
    requires Consistent(s)
    ensures CreateEcrRepoSpec(s, name, o).after.calls == s.calls + [DescribeRepositories] + RequestsAfterListing(s, name, o)
  {
    if !o.describeFails && name !in s.repos {
      assert s.calls + [DescribeRepositories] + [CreateRepository(name)]
        == s.calls + [DescribeRepositories] + [CreateRepository(name)] + [];
    }
  }

  /** A listing or creation error leaves the repositories as they were and yields None. */
  lemma CreateClientError(s: Service, name: string, o: CreateOracle)
    requires Consistent(s) && (o.describeFails || (name !in s.repos && o.createFails))
    ensures var r := CreateEcrRepoSpec(s, name, o);
      r.result.None? && r.after.repos == s.repos && r.after.policy == s.policy
  {
  }

  /**
   * A second `create_ecr_repo` after a successful first one takes the exists branch: it sends
   * only a listing, creates nothing, attaches nothing and returns the canonical URI.
   */
  lemma CreateTwice(s: Service, name: string, o1: CreateOracle, o2: CreateOracle)
    requires Consistent(s) && CreateEcrRepoSpec(s, name, o1).result.Some? && !o2.describeFails
    ensures var first := CreateEcrRepoSpec(s, name, o1).after;
      CreateEcrRepoSpec(first, name, o2)
        == Step(first.(calls := first.calls + [DescribeRepositories]), Some(CanonicalUri(name)))
  {
    var first := CreateEcrRepoSpec(s, name, o1).after;
    CreateExisting(first, name, o2);
  }

  /** Deleting an absent name changes nothing beyond the listing request. */
  lemma DeleteAbsent(s: Service, name: string, o: DeleteOracle)
    requires Consistent(s) && name !in s.repos
    ensures DeleteEcrRepoSpec(s, name, o) == Step(s.(calls := s.calls + [DescribeRepositories]), false)
  {
  }

  /** A second `delete_ecr_repo` of the same name finds nothing to delete. */
  lemma DeleteTwice(s: Service, name: string, o1: DeleteOracle, o2: DeleteOracle)
    requires Consistent(s) && DeleteEcrRepoSpec(s, name, o1).result
    ensures var first := DeleteEcrRepoSpec(s, name, o1).after;
      DeleteEcrRepoSpec(first, name, o2) == Step(first.(calls := first.calls + [DescribeRepositories]), false)
  {
    var first := DeleteEcrRepoSpec(s, name, o1).after;
    DeleteAbsent(first, name, o2);
  }

  /** Creating an absent repository and then deleting it leaves the repositories and policies as before. */
  lemma CreateThenDelete(s: Service, name: string, o1: CreateOracle, o2: DeleteOracle)
    requires Consistent(s) && name !in s.repos
    requires CreateEcrRepoSpec(s, name, o1).result.Some? && !o2.describeFails && !o2.deleteFails
    ensures var r := DeleteEcrRepoSpec(CreateEcrRepoSpec(s, name, o1).after, name, o2);
      r.result && r.after.repos == s.repos && r.after.policy == s.policy
  {
    var mid := CreateEcrRepoSpec(s, name, o1).after;
    var r := DeleteEcrRepoSpec(mid, name, o2);
    assert mid.repos - {name} == s.repos;
  }

  // ---------------------------------------------------------------------------
  // The provisioner, on the registry client
  // ---------------------------------------------------------------------------

  /** `attach_policy(name)` */
  method AttachPolicy(reg: Registry, name: string, outcome: AttachOutcome)
    requires reg.Valid()
    modifies reg
    ensures reg.Valid()
    ensures reg.State() == AttachPolicySpec(old(reg.State()), name, outcome)
  {
    if outcome == PolicyFileMissing {
      return;
    }
    var _ := reg.SetRepositoryPolicy(name, outcome == PolicyRejected);
  }

  /** `create_ecr_repo(name)` */
  method CreateEcrRepo(reg: Registry, name: string, o: CreateOracle) returns (uri: Option<string>)
    requires reg.Valid()
    modifies reg
    ensures reg.Valid()
    ensures Step(reg.State(), uri) == CreateEcrRepoSpec(old(reg.State()), name, o)
  {
    var existing := reg.DescribeRepositories(o.describeFails);
    if existing.None? {
      return None;
    }
    if name in existing.value {
      return Some(Config.ECR_DOMAIN_CN + "/" + name);
    }
    uri := reg.CreateRepository(name, o.createFails, o.reportedUri);
    if uri.None? {
      return;
    }
    AttachPolicy(reg, name, o.attach);
  }

  /** `delete_ecr_repo(name)` */
  method DeleteEcrRepo(reg: Registry, name: string, o: DeleteOracle) returns (deleted: bool)
    requires reg.Valid()
    modifies reg
    ensures reg.Valid()
    ensures Step(reg.State(), deleted) == DeleteEcrRepoSpec(old(reg.State()), name, o)
  {
    var existing := reg.DescribeRepositories(o.describeFails);
    if existing.None? || name !in existing.value {
      return false;
    }
    deleted := reg.DeleteRepository(name, o.deleteFails);
  }

  // ---------------------------------------------------------------------------
  // login_ecr / login_ecr_cn
  // ---------------------------------------------------------------------------

  /**
   * `img.split('/')[0].split('.')[3]`: the region `login_ecr` builds its client for.
   * Fewer than four fields raise IndexError, which `login_ecr` catches: None.
   */
  function LoginRegion(img: string): (r: Option<string>)
    ensures r.Some? ==> '.' !in r.value
  {
    Field(BeforeFirst(img, '/'), '.', 3)
  }

  /** For an ECR reference the fourth field of its host is exactly the region group. */
  lemma LoginRegionOfEcr(e: Utils.EcrReference)
    requires Utils.WellFormed(e)
    ensures LoginRegion(Utils.Compose(e)) == Some(e.region)
  {
    var host := Utils.EcrHost(e);
    assert '/' !in host by {
      assert forall k :: 0 <= k < |e.account| ==> e.account[k] != '/';
      assert forall k :: 0 <= k < |e.region| ==> e.region[k] != '/';
    }
    BeforeFirstCons(host, "/" + e.path, '/');
    assert Utils.Compose(e) == host + ("/" + e.path);
    assert '.' !in e.account by {
      assert forall k :: 0 <= k < |e.account| ==> e.account[k] != '.';
    }
    assert '.' !in e.region by {
      assert forall k :: 0 <= k < |e.region| ==> e.region[k] != '.';
    }
    HostFourthField(e.account, e.region);
  }

  /** The fourth `.`-field of `<account>.dkr.ecr.<region>.amazonaws.com` is the region. */
  lemma HostFourthField(account: string, region: string)
    requires '.' !in account && '.' !in region
    ensures Field(account + ".dkr.ecr." + region + ".amazonaws.com", '.', 3) == Some(region)
  {
    var t3 := region + ['.'] + "amazonaws.com";
    FieldCons(region, "amazonaws.com", '.', 0);
    var t2 := "ecr" + ['.'] + t3;
    assert '.' !in "ecr";
    FieldCons("ecr", t3, '.', 1);
    var t1 := "dkr" + ['.'] + t2;
    assert '.' !in "dkr";
    FieldCons("dkr", t2, '.', 2);
    FieldCons(account, t1, '.', 3);
    HostRegrouped(account, region);
  }

  lemma HostRegrouped(account: string, region: string)
    ensures account + ".dkr.ecr." + region + ".amazonaws.com"
      == account + ['.'] + ("dkr" + ['.'] + ("ecr" + ['.'] + (region + ['.'] + "amazonaws.com")))
  {
  }

  /**
   * `login_ecr(img)`: the decoded authorization token of the registry in the image's region.
   * `token` answers for a region with the decoded token, or None when the service call fails;
   * every failure is caught and the function returns None.
   */
  function LoginEcr(img: string, token: string -> Option<string>): (r: Option<string>)
    ensures r.Some? ==> LoginRegion(img).Some? && r == token(LoginRegion(img).value)
    ensures LoginRegion(img).None? ==> r.None?
  {
    match LoginRegion(img)
    case None => None
    case Some(region) => token(region)
  }

  /** `login_ecr` asks the service of the reference's own region. */
  lemma LoginEcrAsksOwnRegion(e: Utils.EcrReference, token: string -> Option<string>)
    requires Utils.WellFormed(e)
    ensures LoginEcr(Utils.Compose(e), token) == token(e.region)
  {
    LoginRegionOfEcr(e);
  }
}

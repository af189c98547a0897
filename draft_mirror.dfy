/**
 * `mirror/mirror.py`, the draft of the mirror. Its domain table has an `amazonaws.com` entry
 * but its `replace_domain_name` has no ECR branch; its provisioner is guarded by the denied
 * list and returns the repository name itself; and its `pull_and_push` leaves out the push
 * when the China registry already holds the image's digest under the image's tag.
 *
 * The China registry is the `Ecr.Registry` object of the later modules. The global-region
 * listing that `delete_ecr_repo` consults, the local Docker image store and the registry's
 * image descriptions are answers handed in as parameters.
 */
module DraftMirror {
  import opened Text
  import Utils
  import Ecr

  /** The draft's domain table, in its order. */
  const DOMAIN_MAP: Utils.DomainTable := [
    ("quayio", "quay"),
    ("quay.io", "quay"),
    ("gcr.io", "gcr"),
    ("asia.gcr.io", "gcr"),
    ("us.gcr.io", "gcr"),
    ("k8s.gcr.io", "gcr/google_containers"),
    ("amazonaws.com", "amazonecr"),
    ("public.ecr.aws", "amazonecr"),
    ("docker.io", "dockerhub")
  ]

  // ---------------------------------------------------------------------------
  // Destination names
  // ---------------------------------------------------------------------------

  /** `replace_domain_name(uri)` of the draft: the first key the reference starts with, else `dockerhub/`. */
  function ReplaceDomainName(uri: string): string {
    match Utils.FirstMatch(DOMAIN_MAP, uri, 0)
    case Some(k) => ReplaceFirst(uri, DOMAIN_MAP[k].0, DOMAIN_MAP[k].1)
    case None => "dockerhub/" + uri
  }

  /** Away from ECR references the draft's rule is the three-way rule of the later modules on the same table. */
  lemma AgreesOffEcr(uri: string)
    requires !Utils.IsEcr(uri)
    ensures ReplaceDomainName(uri) == Utils.ReplaceDomainNameIn(DOMAIN_MAP, uri)
  {
  }

  /**
   * No key starts with a digit, so an ECR reference matches no entry (not even `amazonaws.com`)
   * and is sent under `dockerhub/` whole, where the later rule keeps only its path.
   */
  lemma EcrGoesToDockerhub(e: Utils.EcrReference)
    requires Utils.WellFormed(e)
    ensures ReplaceDomainName(Utils.Compose(e)) == "dockerhub/" + Utils.Compose(e)
    ensures Utils.ReplaceDomainNameIn(DOMAIN_MAP, Utils.Compose(e)) == e.path
  {
    var uri := Utils.Compose(e);
    assert Utils.KeysNotNumeric(DOMAIN_MAP);
    forall j | 0 <= j < |DOMAIN_MAP| ensures !StartsWith(uri, DOMAIN_MAP[j].0) {
      assert uri[0] == e.account[0];
    }
    Utils.EcrIgnoresTable(DOMAIN_MAP, e);
  }

  /** A reference that starts with a key has that key swapped for its prefix and keeps the rest. */
  lemma KeyIsSwapped(uri: string, k: nat)
    requires k < |DOMAIN_MAP| && StartsWith(uri, DOMAIN_MAP[k].0)
    requires forall j :: 0 <= j < k ==> !StartsWith(uri, DOMAIN_MAP[j].0)
    ensures ReplaceDomainName(uri) == DOMAIN_MAP[k].1 + uri[|DOMAIN_MAP[k].0|..]
  {
    assert Utils.FirstMatch(DOMAIN_MAP, uri, 0) == Some(k) by {
      FirstMatchIs(uri, k, 0);
    }
    ReplaceFirstAtStart(uri, DOMAIN_MAP[k].0, DOMAIN_MAP[k].1);
  }

  lemma {:induction false} FirstMatchIs(uri: string, k: nat, i: nat)
    requires i <= k < |DOMAIN_MAP| && StartsWith(uri, DOMAIN_MAP[k].0)
    requires forall j :: i <= j < k ==> !StartsWith(uri, DOMAIN_MAP[j].0)
    ensures Utils.FirstMatch(DOMAIN_MAP, uri, i) == Some(k)
    decreases k - i
  {
    if i < k {
      FirstMatchIs(uri, k, i + 1);
    }
  }

  // ---------------------------------------------------------------------------
  // The provisioner guarded by the denied list
  // ---------------------------------------------------------------------------

  /**
   * `create_ecr_repo(name, denied)`: a denied name is refused before any request; otherwise the
   * repository is created and given the policy when absent, and the name itself is returned.
   */
  function CreateEcrRepoSpec(s: Ecr.Service, name: string, denied: seq<string>, o: Ecr.CreateOracle): (r: Ecr.Step<Option<string>>)
    requires Ecr.Consistent(s)
    ensures Ecr.Consistent(r.after)
    ensures name in denied ==> r == Ecr.Step(s, None)
    ensures r.result.Some? <==> name !in denied && !o.describeFails && (name in s.repos || !o.createFails)
    ensures r.result.Some? ==> r.result.value == name && name in r.after.repos
    ensures r.result.None? || name in s.repos ==> r.after.repos == s.repos && r.after.policy == s.policy
    ensures name !in s.repos && r.result.Some? ==>
      r.after.repos == s.repos + {name} && (r.after.policy[name] <==> o.attach == Ecr.Attached)
    ensures forall n :: n in s.repos && n != name ==> r.after.policy[n] == s.policy[n]
    ensures r.after.calls == if name in denied then s.calls
      else s.calls + [Ecr.DescribeRepositories] + Ecr.RequestsAfterListing(s, name, o)
  {
    if name in denied then Ecr.Step(s, None)
    else
      var s1 := s.(calls := s.calls + [Ecr.DescribeRepositories]);
      if o.describeFails then Ecr.Step(s1, None)
      else if name in s.repos then Ecr.Step(s1, Some(name))
      else
        var s2 := s1.(calls := s1.calls + [Ecr.CreateRepository(name)]);
        if o.createFails then Ecr.Step(s2, None)
        else
          var s3 := Ecr.Service(s.repos + {name}, s.policy[name := false], s2.calls);
          Ecr.Step(Ecr.AttachPolicySpec(s3, name, o.attach), Some(name))
  }

  /**
   * For a name that is not denied, the draft leaves the registry exactly as the later
   * `create_ecr_repo` does and succeeds on the same answers; it differs only in returning the
   * name where the later one returns a URI.
   */
  lemma CreateAgreesWithLater(s: Ecr.Service, name: string, denied: seq<string>, o: Ecr.CreateOracle)
    requires Ecr.Consistent(s) && name !in denied
    ensures CreateEcrRepoSpec(s, name, denied, o).after == Ecr.CreateEcrRepoSpec(s, name, o).after
    ensures CreateEcrRepoSpec(s, name, denied, o).result.Some? <==> Ecr.CreateEcrRepoSpec(s, name, o).result.Some?
  {
  }

  method CreateEcrRepo(reg: Ecr.Registry, name: string, denied: seq<string>, o: Ecr.CreateOracle)
    returns (created: Option<string>)
    requires reg.Valid()
    modifies reg
    ensures reg.Valid()
    ensures Ecr.Step(reg.State(), created) == CreateEcrRepoSpec(old(reg.State()), name, denied, o)
  {
    if name in denied {
      return None;
    }
    var existing := reg.DescribeRepositories(o.describeFails);
    if existing.None? {
      return None;
    }
    if name !in existing.value {
      var uri := reg.CreateRepository(name, o.createFails, o.reportedUri);
      if uri.None? {
        return None;
      }
      Ecr.AttachPolicy(reg, name, o.attach);
    }
    return Some(name);
  }

  /**
   * `delete_ecr_repo(name, denied)` as written: a denied name is looked up in the GLOBAL
   * region's listing (`globalNames`, None for a ClientError) and then deleted in the China
   * region. Some(true) after a deletion, Some(false) on a ClientError from either call, None
   * when the name is not denied or not in the global listing.
   */
  function DeleteEcrRepoSpec(s: Ecr.Service, name: string, denied: seq<string>,
                             globalNames: Option<set<string>>, deleteFails: bool): (r: Ecr.Step<Option<bool>>)
    requires Ecr.Consistent(s)
    ensures Ecr.Consistent(r.after)
    ensures r.result == Some(true) <==>
      name in denied && globalNames.Some? && name in globalNames.value && name in s.repos && !deleteFails
    ensures r.result == Some(false) <==>
      name in denied && (globalNames.None? || (name in globalNames.value && (name !in s.repos || deleteFails)))
    ensures r.after.repos == if r.result == Some(true) then s.repos - {name} else s.repos
    ensures forall n :: n in r.after.repos ==> r.after.policy[n] == s.policy[n]
    ensures r.result.None? || globalNames.None? ==> r.after == s
  {
    if name !in denied then Ecr.Step(s, None)
    else if globalNames.None? then Ecr.Step(s, Some(false))
    else if name !in globalNames.value then Ecr.Step(s, None)
    else
      var calls := s.calls + [Ecr.DeleteRepository(name)];
      if deleteFails || name !in s.repos then Ecr.Step(s.(calls := calls), Some(false))
      else Ecr.Step(Ecr.Service(s.repos - {name}, s.policy - {name}, calls), Some(true))
  }

  method DeleteEcrRepo(reg: Ecr.Registry, name: string, denied: seq<string>,
                       globalNames: Option<set<string>>, deleteFails: bool) returns (deleted: Option<bool>)
    requires reg.Valid()
    modifies reg
    ensures reg.Valid()
    ensures Ecr.Step(reg.State(), deleted) == DeleteEcrRepoSpec(old(reg.State()), name, denied, globalNames, deleteFails)
  {
    if name in denied {
      if globalNames.None? {
        return Some(false);
      }
      if name in globalNames.value {
        var ok := reg.DeleteRepository(name, deleteFails);
        return Some(ok);
      }
    }
    return None;
  }

  /**
   * The lookup and the deletion address different regions: a denied repository that exists in
   * the China registry but not in the global one is left in place, with no request sent.
   */
  lemma DeniedChinaRepositoryKept(s: Ecr.Service, name: string, denied: seq<string>,
                                  globalNames: set<string>, deleteFails: bool)
    requires Ecr.Consistent(s) && name in denied && name in s.repos && name !in globalNames
    ensures var r := DeleteEcrRepoSpec(s, name, denied, Some(globalNames), deleteFails);
      r.result.None? && name in r.after.repos && r.after == s
  {
  }

  /** The smallest case: nothing in the global region, one denied repository in China. */
  lemma DeniedChinaRepositoryKeptExample()
    ensures var s := Ecr.Service({"quay/coreos/etcd"}, map["quay/coreos/etcd" := true], []);
      DeleteEcrRepoSpec(s, "quay/coreos/etcd", ["quay/coreos/etcd"], Some({}), false)
        == Ecr.Step(s, None)
  {
  }

  /**
   * `delete_ecr_repo` as evidently intended: the name is looked up in the China registry it is
   * deleted from. Same results otherwise: Some(true) after a deletion, Some(false) on a
   * ClientError, None when the name is not denied or not there.
   */
  function DeleteEcrRepoIntended(s: Ecr.Service, name: string, denied: seq<string>, o: Ecr.DeleteOracle): (r: Ecr.Step<Option<bool>>)
    requires Ecr.Consistent(s)
    ensures Ecr.Consistent(r.after)
    ensures r.result == Some(true) <==> name in denied && !o.describeFails && name in s.repos && !o.deleteFails
    ensures r.result == Some(false) <==> name in denied && (o.describeFails || (name in s.repos && o.deleteFails))
    ensures r.after.repos == if r.result == Some(true) then s.repos - {name} else s.repos
    ensures forall n :: n in r.after.repos ==> r.after.policy[n] == s.policy[n]
  {
    if name !in denied then Ecr.Step(s, None)
    else
      var s1 := s.(calls := s.calls + [Ecr.DescribeRepositories]);
      if o.describeFails then Ecr.Step(s1, Some(false))
      else if name !in s.repos then Ecr.Step(s1, None)
      else
        var s2 := s1.(calls := s1.calls + [Ecr.DeleteRepository(name)]);
        if o.deleteFails then Ecr.Step(s2, Some(false))
        else Ecr.Step(Ecr.Service(s.repos - {name}, s.policy - {name}, s2.calls), Some(true))
  }

  /**
   * With the lookup in the right region, a denied repository is gone afterwards unless the
   * service refused, and the registry ends as the later `delete_ecr_repo` leaves it.
   */
  lemma IntendedDeleteRemovesDenied(s: Ecr.Service, name: string, denied: seq<string>, o: Ecr.DeleteOracle)
    requires Ecr.Consistent(s) && name in denied
    ensures !o.describeFails && !o.deleteFails ==> name !in DeleteEcrRepoIntended(s, name, denied, o).after.repos
    ensures DeleteEcrRepoIntended(s, name, denied, o).after == Ecr.DeleteEcrRepoSpec(s, name, o).after
    ensures DeleteEcrRepoIntended(s, name, denied, o).result == Some(true) <==> Ecr.DeleteEcrRepoSpec(s, name, o).result
  {
  }

  method DeleteEcrRepoCorrected(reg: Ecr.Registry, name: string, denied: seq<string>, o: Ecr.DeleteOracle)
    returns (deleted: Option<bool>)
    requires reg.Valid()
    modifies reg
    ensures reg.Valid()
    ensures Ecr.Step(reg.State(), deleted) == DeleteEcrRepoIntended(old(reg.State()), name, denied, o)
  {
    if name !in denied {
      return None;
    }
    var existing := reg.DescribeRepositories(o.describeFails);
    if existing.None? {
      return Some(false);
    }
    if name !in existing.value {
      return None;
    }
    var ok := reg.DeleteRepository(name, o.deleteFails);
    return Some(ok);
  }

  // ---------------------------------------------------------------------------
  // The push skip
  // ---------------------------------------------------------------------------

  /**
   * `get_local_image_digest(name)`: the text after the last `@` of the image's first repo
   * digest. `repoDigests` is None when Docker raises; an empty list raises IndexError, which
   * is caught too.
   */
  function GetLocalImageDigest(repoDigests: Option<seq<string>>): (r: Option<string>)
    ensures r.Some? <==> repoDigests.Some? && |repoDigests.value| > 0
    ensures r.Some? ==> '@' !in r.value
    ensures r.Some? && '@' !in repoDigests.value[0] ==> r.value == repoDigests.value[0]
  {
    match repoDigests
    case None => None
    case Some(d) => if |d| == 0 then None else Some(AfterLast(d[0], '@'))
  }

  /** A repo digest `name@digest` yields its digest. */
  lemma DigestOfRepoDigest(name: string, digest: string, rest: seq<string>)
    requires '@' !in digest
    ensures GetLocalImageDigest(Some([name + "@" + digest] + rest)) == Some(digest)
  {
    assert name + "@" + digest == name + ['@'] + digest;
    AfterLastOfSuffix(name, digest, '@');
  }

  /** Some image detail lists `tag` among its tags (a detail without `imageTags` lists none). */
  predicate HasTag(details: seq<seq<string>>, tag: string) {
    exists k :: 0 <= k < |details| && tag in details[k]
  }

  /**
   * `is_remote_image_exists(repo, tag, digest)`, given the registry's answer to the image
   * description: the image details, or None for a ClientError.
   */
  method IsRemoteImageExists(response: Option<seq<seq<string>>>, tag: string) returns (found: bool)
    ensures found <==> response.Some? && HasTag(response.value, tag)
  {
    if response.None? {
      return false;
    }
    var details := response.value;
    var i := 0;
    while i < |details|
      invariant 0 <= i <= |details|
      invariant forall k :: 0 <= k < i ==> tag !in details[k]
    {
      if tag in details[i] {
        return true;
      }
      i := i + 1;
    }
    return false;
  }

  /** `target_img.split('/')[1]`: the target always holds a `/`, so the piece exists. */
  function RemoteRepository(targetRegistry: string, mirrored: string): (r: string)
    ensures Field(targetRegistry + "/" + mirrored, '/', 1) == Some(r)
  {
    var target := targetRegistry + "/" + mirrored;
    assert target[|targetRegistry|] == '/';
    Field(target, '/', 1).value
  }

  /** With a registry host without `/`, the repository looked up is the first segment of the mirrored name. */
  lemma RemoteRepositoryIsFirstSegment(targetRegistry: string, mirrored: string)
    requires '/' !in targetRegistry
    ensures RemoteRepository(targetRegistry, mirrored) == BeforeFirst(mirrored, '/')
  {
    assert targetRegistry + "/" + mirrored == targetRegistry + ['/'] + mirrored;
    FieldCons(targetRegistry, mirrored, '/', 1);
  }

  /**
   * The answers `pull_and_push` meets: whether Docker raises APIError on the pull, the tag or
   * the push that is made; the tagged image's repo digests (None when the lookup raises); and
   * the registry's description of a repository's image with a digest.
   */
  datatype PushEnv = PushEnv(
    apiError: bool,
    repoDigests: Option<seq<string>>,
    describe: (string, string) -> Option<seq<seq<string>>>)

  /** What `pull_and_push` did: whether it asked for an ECR login, what it pulled and tagged, whether it pushed. */
  datatype DraftTransfer = DraftTransfer(ecrLogin: bool, pulled: string, target: string, pushed: bool, ok: bool)

  /** `target_registry + "/" + replace_domain_name(orig_img)`. */
  function TargetImage(origImg: string, targetRegistry: string): string {
    targetRegistry + "/" + ReplaceDomainName(origImg)
  }

  /**
   * The skip test: a non-empty local digest, and the China registry describing that digest in
   * the target's repository under the text after the target's last `:`.
   */
  predicate PushSkipped(origImg: string, targetRegistry: string, env: PushEnv) {
    var digest := GetLocalImageDigest(env.repoDigests);
    && digest.Some? && digest.value != ""
    && var response := env.describe(RemoteRepository(targetRegistry, ReplaceDomainName(origImg)), digest.value);
       response.Some? && HasTag(response.value, AfterLast(TargetImage(origImg, targetRegistry), ':'))
  }

  /** `pull_and_push(orig_img, target_registry)` of the draft. */
  function PullAndPush(origImg: string, targetRegistry: string, env: PushEnv): (t: DraftTransfer)
    ensures t.ok <==> !env.apiError
    ensures t.ecrLogin <==> Utils.IsEcr(origImg)
    ensures t.pulled == origImg && t.target == targetRegistry + "/" + ReplaceDomainName(origImg)
    ensures t.pushed <==> t.ok && !PushSkipped(origImg, targetRegistry, env)
  {
    DraftTransfer(Utils.IsEcr(origImg), origImg, TargetImage(origImg, targetRegistry),
      !env.apiError && !PushSkipped(origImg, targetRegistry, env), !env.apiError)
  }

  /** Without a usable local digest (none, or an empty one) the image is pushed whenever Docker does not fail. */
  lemma NoDigestMeansPush(origImg: string, targetRegistry: string, env: PushEnv)
    requires var d := GetLocalImageDigest(env.repoDigests); d.None? || d.value == ""
    ensures PullAndPush(origImg, targetRegistry, env).pushed <==> !env.apiError
  {
  }

  method RunPullAndPush(origImg: string, targetRegistry: string, env: PushEnv) returns (t: DraftTransfer)
    ensures t == PullAndPush(origImg, targetRegistry, env)
  {
    var ecrLogin := Utils.IsEcr(origImg);
    var target := targetRegistry + "/" + ReplaceDomainName(origImg);
    if env.apiError {
      return DraftTransfer(ecrLogin, origImg, target, false, false);
    }
    var digest := GetLocalImageDigest(env.repoDigests);
    var skip := false;
    if digest.Some? && digest.value != "" {
      var response := env.describe(RemoteRepository(targetRegistry, ReplaceDomainName(origImg)), digest.value);
      skip := IsRemoteImageExists(response, AfterLast(target, ':'));
    }
    return DraftTransfer(ecrLogin, origImg, target, !skip, true);
  }
}

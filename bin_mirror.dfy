/**
 * `bin/mirror.py`, the earlier single-file mirror. Its provisioner, its `pull_and_push` and its
 * image loop are those of the later modules and are taken from them; what differs is its smaller
 * domain table, its `login_ecr`, which logs Docker in with the two halves of the decoded token,
 * and its `main`, which logs in to the China region after reading the lists and lets a failure
 * of that login escape.
 */
module BinMirror {
  import opened Text
  import Config
  import Utils
  import Ecr
  import opened Files
  import ImageHandler

  /** The domain table of the earlier script: `nvcr.io`, `registry.k8s.io` and `ghcr.io` are not in it yet. */
  const DOMAIN_MAP: Utils.DomainTable := [
    ("quayio", "quay"),
    ("quay.io", "quay"),
    ("gcr.io", "gcr"),
    ("asia.gcr.io", "gcr"),
    ("us.gcr.io", "gcr"),
    ("k8s.gcr.io", "gcr/google_containers"),
    ("public.ecr.aws", "amazonecr"),
    ("docker.io", "dockerhub")
  ]

  /** The earlier table is the later one cut before its last three entries, in the same order. */
  lemma TableIsPrefixOfLater()
    ensures DOMAIN_MAP == Config.DOMAIN_MAP[..8]
  {
  }

  /** `replace_domain_name(uri)` of the earlier script: the same three-way rule over its own table. */
  function ReplaceDomainName(uri: string): string {
    Utils.ReplaceDomainNameIn(DOMAIN_MAP, uri)
  }

  /** The result is never empty, and an ECR reference still goes to its path, as in the later table. */
  lemma ReplaceDomainNameFacts(uri: string, e: Utils.EcrReference)
    ensures |ReplaceDomainName(uri)| > 0
    ensures Utils.WellFormed(e) ==> ReplaceDomainName(Utils.Compose(e)) == e.path
  {
    assert Utils.KeysNotNumeric(DOMAIN_MAP);
    Utils.ResolveNonEmpty(DOMAIN_MAP, uri);
    if Utils.WellFormed(e) {
      Utils.EcrIgnoresTable(DOMAIN_MAP, e);
    }
  }

  /** Without a `ghcr.io` entry, a GitHub reference falls through to the `dockerhub/` default. */
  lemma GhcrFallsThrough()
    ensures ReplaceDomainName("ghcr.io/x") == "dockerhub/" + "ghcr.io/x"
  {
    var u := "ghcr.io/x";
    forall j | 0 <= j < |DOMAIN_MAP| ensures !StartsWith(u, DOMAIN_MAP[j].0) {
      if j == 2 {
        NotStartsWith(u, "gcr.io", 1);
      } else {
        NotStartsWith(u, DOMAIN_MAP[j].0, 0);
      }
    }
    assert Utils.DigitRun(u) == 0;
    Utils.DefaultHit(DOMAIN_MAP, u);
  }

  // ---------------------------------------------------------------------------
  // Logging in with the decoded token
  // ---------------------------------------------------------------------------

  /** `username, password = decoded.split(':')`: exactly two pieces, or the unpacking raises. */
  function SplitCredential(decoded: string): (r: Option<(string, string)>)
    ensures r.Some? ==> ':' !in r.value.0 && ':' !in r.value.1 && decoded == r.value.0 + ":" + r.value.1
  {
    var parts := Split(decoded, ':');
    if |parts| == 2 then
      JoinSplit(decoded, ':');
      assert Join(parts, ':') == parts[0] + [':'] + Join(parts[1..], ':');
      Some((parts[0], parts[1]))
    else None
  }

  /** A token made of a name and a password without `:` splits back into them. */
  lemma CredentialRoundTrip(user: string, pass: string)
    requires ':' !in user && ':' !in pass
    ensures SplitCredential(user + ":" + pass) == Some((user, pass))
  {
    assert user + ":" + pass == user + [':'] + pass;
    SplitCons(user, pass, ':');
    SplitNoSeparator(pass, ':');
  }

  /** The unpacking succeeds exactly when the token holds one `:`. */
  lemma CredentialNeedsOneColon(decoded: string)
    ensures SplitCredential(decoded).Some? <==> ':' in decoded && ':' !in AfterFirst(decoded, ':')
  {
    if ':' in decoded {
      var a, b := BeforeFirst(decoded, ':'), AfterFirst(decoded, ':');
      SplitCons(a, b, ':');
    }
  }

  /**
   * `login_ecr(img)` of the earlier script: the token of the image's region, split into name and
   * password, handed to `docker login` for the image's registry. True, or false where the script
   * logs the error and returns None. `token` answers with the decoded token; `dockerLogin` says
   * whether Docker accepted a registry, name and password.
   */
  function LoginEcr(img: string, token: string -> Option<string>, dockerLogin: (string, string, string) -> bool): (ok: bool)
    ensures ok ==> Ecr.LoginRegion(img).Some? && token(Ecr.LoginRegion(img).value).Some?
  {
    match Ecr.LoginRegion(img)
    case None => false
    case Some(region) =>
      match token(region)
      case None => false
      case Some(decoded) =>
        match SplitCredential(decoded)
        case None => false
        case Some(cred) => dockerLogin(BeforeFirst(img, '/'), cred.0, cred.1)
  }

  /** For an ECR reference, Docker is asked to log in to the reference's host with the token's two halves. */
  lemma LoginEcrOfEcr(e: Utils.EcrReference, token: string -> Option<string>, dockerLogin: (string, string, string) -> bool,
                      user: string, pass: string)
    requires Utils.WellFormed(e) && ':' !in user && ':' !in pass
    requires token(e.region) == Some(user + ":" + pass)
    ensures LoginEcr(Utils.Compose(e), token, dockerLogin) == dockerLogin(Utils.EcrHost(e), user, pass)
  {
    Ecr.LoginRegionOfEcr(e);
    Utils.HostOfCompose(e);
    CredentialRoundTrip(user, pass);
  }

  /** A token without exactly one `:` makes the login fail, whatever Docker would say. */
  lemma LoginEcrRejectsMalformedToken(img: string, token: string -> Option<string>, dockerLogin: (string, string, string) -> bool)
    requires Ecr.LoginRegion(img).Some? && token(Ecr.LoginRegion(img).value).Some?
    requires var decoded := token(Ecr.LoginRegion(img).value).value;
      ':' !in decoded || ':' in AfterFirst(decoded, ':')
    ensures !LoginEcr(img, token, dockerLogin)
  {
    CredentialNeedsOneColon(token(Ecr.LoginRegion(img).value).value);
  }

  /**
   * `login_ecr_cn()` of the earlier script: true when Docker is logged in to the China registry;
   * false stands for the RuntimeError it raises after any failure.
   */
  function LoginEcrCn(cnToken: Option<string>, dockerLogin: (string, string, string) -> bool): (ok: bool)
    ensures ok ==> cnToken.Some? && SplitCredential(cnToken.value).Some?
  {
    cnToken.Some? && SplitCredential(cnToken.value).Some?
    && dockerLogin(Config.ECR_DOMAIN_CN, SplitCredential(cnToken.value).value.0, SplitCredential(cnToken.value).value.1)
  }

  /** A well-formed China-region token logs Docker in to the destination registry with its two halves. */
  lemma LoginEcrCnOfToken(user: string, pass: string, dockerLogin: (string, string, string) -> bool)
    requires ':' !in user && ':' !in pass
    ensures LoginEcrCn(Some(user + ":" + pass), dockerLogin) == dockerLogin(Config.ECR_DOMAIN_CN, user, pass)
  {
    CredentialRoundTrip(user, pass);
  }

  // ---------------------------------------------------------------------------
  // main
  // ---------------------------------------------------------------------------

  /** The end of `main`: the files and the registry, and whether the RuntimeError of the China login escaped. */
  datatype MainResult = MainResult(raisedRuntimeError: bool, world: ImageHandler.World)

  /**
   * `main()`: read the three lists (a missing one ends the run quietly), log in to the China
   * region (a failure escapes), then delete, mirror, record and reset as `image_handler` does.
   */
  function MainSpec(w: ImageHandler.World, cnToken: Option<string>, dockerLogin: (string, string, string) -> bool,
                    env: ImageHandler.Env): (r: MainResult)
    requires Ecr.Consistent(w.registry)
    ensures Ecr.Consistent(r.world.registry)
  {
    if !ImageHandler.InputsPresent(w.disk) then MainResult(false, w)
    else if !LoginEcrCn(cnToken, dockerLogin) then MainResult(true, w)
    else MainResult(false, ImageHandler.Mirror(DOMAIN_MAP, w, ImageHandler.ListsOf(w.disk), env))
  }

  /** Once logged in, `main` does exactly what `image_handler` does over the earlier table. */
  lemma MainIsImageHandler(w: ImageHandler.World, cnToken: Option<string>, dockerLogin: (string, string, string) -> bool,
                           env: ImageHandler.Env)
    requires Ecr.Consistent(w.registry) && LoginEcrCn(cnToken, dockerLogin)
    ensures MainSpec(w, cnToken, dockerLogin, env) == MainResult(false, ImageHandler.ImageHandlerSpec(DOMAIN_MAP, w, env))
  {
  }

  /**
   * A failed China login escapes before the deletion pass: no repository is deleted or created
   * and no file is written. A missing list ends the run earlier still, without the login.
   */
  lemma MainLoginFailureChangesNothing(w: ImageHandler.World, cnToken: Option<string>,
                                       dockerLogin: (string, string, string) -> bool, env: ImageHandler.Env)
    requires Ecr.Consistent(w.registry) && !LoginEcrCn(cnToken, dockerLogin)
    ensures var r := MainSpec(w, cnToken, dockerLogin, env);
      r.world == w && (r.raisedRuntimeError <==> ImageHandler.InputsPresent(w.disk))
  {
  }

  /** `main()` */
  method RunMain(fs: FileStore, reg: Ecr.Registry, cnToken: Option<string>, dockerLogin: (string, string, string) -> bool,
              env: ImageHandler.Env) returns (raisedRuntimeError: bool)
    requires reg.Valid()
    modifies fs, reg
    ensures reg.Valid()
    ensures MainResult(raisedRuntimeError, ImageHandler.World(fs.disk, reg.State()))
      == MainSpec(ImageHandler.World(old(fs.disk), old(reg.State())), cnToken, dockerLogin, env)
  {
    raisedRuntimeError := false;
    var deniedLines := fs.ReadLines(DeniedList);
    if deniedLines.None? {
      return;
    }
    var ignoreLines := fs.ReadLines(IgnoreList);
    if ignoreLines.None? {
      return;
    }
    var imageLines := fs.ReadLines(ImagesList);
    if imageLines.None? {
      return;
    }
    var lists := ImageHandler.Lists(
      ImageHandler.Load(ImageHandler.DeniedEntries, deniedLines.value),
      ImageHandler.Load(ImageHandler.IgnoreEntries, ignoreLines.value),
      ImageHandler.Load(ImageHandler.ImageEntries, imageLines.value));
    if !LoginEcrCn(cnToken, dockerLogin) {
      return true;
    }
    ImageHandler.MirrorLists(fs, reg, DOMAIN_MAP, lists, env);
  }
}

/**
 * `image_daily_handler`: log in to the China-region registry, load the daily list, and for
 * each repository ensure its destination exists and run `skopeo sync` into the parent of the
 * destination URI. The outcome lists are kept in memory only: the handler writes no file.
 *
 * skopeo is an oracle: `sync(k)` is the exit code of the k-th sync, or says that the
 * executable could not be started.
 */
module DailyHandler {
  import opened Text
  import Utils
  import Ecr
  import opened Files
  import ImageHandler

  // ---------------------------------------------------------------------------
  // The destination of a sync
  // ---------------------------------------------------------------------------

  /** `"/".join(uri.split("/")[:-1])`: the URI without its last `/`-segment. */
  function ParentUri(uri: string): string {
    BeforeLast(uri, '/')
  }

  /** Dropping the last segment of `u/last` gives back `u`. */
  lemma {:induction false} ParentUriOf(u: string, last: string)
    requires '/' !in last
    ensures ParentUri(u + "/" + last) == u
  {
    var s := u + ['/'] + last;
    assert u + "/" + last == s;
    assert s[|u|] == '/';
    AfterLastOfSuffix(u, last, '/');
    var r := BeforeLast(s, '/');
    assert s == r + ['/'] + last;
    assert |r| == |u|;
    assert r == s[..|r|] && u == s[..|u|];
  }

  /** For an existing repository `ns/name` the sync goes to `<registry>/ns`. */
  lemma ParentOfCanonical(ns: string, name: string)
    requires '/' !in name
    ensures ParentUri(Ecr.CanonicalUri(ns + "/" + name)) == Ecr.CanonicalUri(ns)
  {
    assert Ecr.CanonicalUri(ns + "/" + name) == Ecr.CanonicalUri(ns) + "/" + name;
    ParentUriOf(Ecr.CanonicalUri(ns), name);
  }

  // ---------------------------------------------------------------------------
  // sync
  // ---------------------------------------------------------------------------

  /** The source credential flag: credentials only for an ECR source, as Python formats them. */
  function SourceFlag(ecrSource: bool, cred: Option<string>): string {
    if ecrSource then "--src-creds=" + (if cred.Some? then cred.value else "None")
    else "--src-no-creds"
  }

  /** The credential flags are told apart by their prefix, and the prefix is chosen by `is_ecr`. */
  lemma SourceFlagChoice(ecrSource: bool, cred: Option<string>)
    ensures StartsWith(SourceFlag(ecrSource, cred), "--src-creds=") <==> ecrSource
    ensures !ecrSource ==> SourceFlag(ecrSource, cred) == "--src-no-creds"
    ensures ecrSource && cred.None? ==> SourceFlag(ecrSource, cred) == "--src-creds=None"
  {
    if ecrSource {
      var flag := SourceFlag(ecrSource, cred);
      assert flag[..12] == "--src-creds=";
    } else {
      NotStartsWith("--src-no-creds", "--src-creds=", 6);
    }
  }

  function DestFlag(destCred: string): string {
    "--dest-creds=" + destCred
  }

  /** One `skopeo sync` invocation: its two credential flags and its two operands. */
  datatype SyncCall = SyncCall(srcParam: string, destParam: string, src: string, dest: string)

  /** The argument vector handed to `subprocess.Popen`. */
  function SyncCommand(call: SyncCall): seq<string> {
    ["skopeo", "sync", "--src", "docker", "--dest", "docker", "--all", "--keep-going",
     call.srcParam, call.destParam, call.src, call.dest]
  }

  /** The sync of `src` into `dest`, with the source credentials `cred` when `src` is in ECR. */
  function SyncCallFor(src: string, dest: string, cred: Option<string>, destCred: string): SyncCall {
    SyncCall(SourceFlag(Utils.IsEcr(src), cred), DestFlag(destCred), src, dest)
  }

  /** The command has twelve words: the source carries credentials iff it is in ECR, and the operands come last. */
  lemma SyncCommandShape(src: string, dest: string, cred: Option<string>, destCred: string)
    ensures var cmd := SyncCommand(SyncCallFor(src, dest, cred, destCred));
      && |cmd| == 12 && cmd[10] == src && cmd[11] == dest
      && (StartsWith(cmd[8], "--src-creds=") <==> Utils.IsEcr(src))
      && cmd[9] == "--dest-creds=" + destCred
  {
    var call := SyncCallFor(src, dest, cred, destCred);
    assert SyncCommand(call)[8] == SourceFlag(Utils.IsEcr(src), cred);
    SourceFlagChoice(Utils.IsEcr(src), cred);
  }

  /** What skopeo does: it exits with a code, or the executable is missing and Popen raises FileNotFoundError. */
  datatype SyncAnswer = ExitCode(code: int) | ToolMissing

  /** `sync` returns True iff the exit code is 0. */
  function SyncSucceeded(code: int): (ok: bool)
    ensures ok <==> code == 0
  {
    code == 0
  }

  // ---------------------------------------------------------------------------
  // The daily run, as functions of the registry state
  // ---------------------------------------------------------------------------

  /** The oracles of one run: the China-region token, the per-region tokens, and per-repository answers. */
  datatype DailyEnv = DailyEnv(
    cnToken: Option<string>,
    token: string -> Option<string>,
    create: nat -> Ecr.CreateOracle,
    sync: nat -> SyncAnswer)

  /** How the run ends. */
  datatype DailyEnd =
    | Completed
    | CaughtFileNotFound   // a missing daily list, or skopeo missing: caught by the handler
    | RaisedRuntimeError   // `login_ecr_cn` failed: propagates out of the handler
    | RaisedAttributeError // `create_ecr_repo` returned None and `None.split` was attempted

  datatype DailyResult = DailyResult(
    end: DailyEnd, after: Ecr.Service, proceed: seq<string>, failed: seq<string>, commands: seq<SyncCall>)

  /** One repository: where its loop pass stops, or the sync it ran and whether it succeeded. */
  datatype RepoStep = Stopped(end: DailyEnd) | Ran(call: SyncCall, ok: bool)

  /** What happens to `repo` once `create_ecr_repo` has answered `uri`. */
  function RepoOutcome(repo: string, uri: Option<string>, destCred: string, token: string -> Option<string>,
                       answer: SyncAnswer): (r: RepoStep)
    ensures r.Stopped? <==> uri.None? || answer.ToolMissing?
    ensures r.Stopped? ==> (r.end == RaisedAttributeError <==> uri.None?)
    ensures r.Ran? ==> r.call.src == repo && r.call.dest == ParentUri(uri.value) && (r.ok <==> answer.code == 0)
  {
    match uri
    case None => Stopped(RaisedAttributeError)
    case Some(u) =>
      // The source asks for the ECR token before starting `skopeo`; here the missing tool is
      // tested first. No modelled state records token requests, so the outcome is the same.
      match answer
      case ToolMissing => Stopped(CaughtFileNotFound)
      case ExitCode(code) =>
        var cred := if Utils.IsEcr(repo) then Ecr.LoginEcr(repo, token) else None;
        Ran(SyncCallFor(repo, ParentUri(u), cred, destCred), SyncSucceeded(code))
  }

  /** The loop body for one repository: provision the destination, then sync into it. */
  function DailyStep(table: Utils.DomainTable, s: Ecr.Service, repo: string, destCred: string, env: DailyEnv, i: nat): (r: (Ecr.Service, RepoStep))
    requires Ecr.Consistent(s)
    ensures Ecr.Consistent(r.0) && s.repos <= r.0.repos
  {
    var created := Ecr.CreateEcrRepoSpec(s, Utils.ReplaceDomainNameIn(table, repo), env.create(i));
    (created.after, RepoOutcome(repo, created.result, destCred, env.token, env.sync(i)))
  }

  /** The repository loop from position `i` on. */
  function DailyLoop(table: Utils.DomainTable, s: Ecr.Service, repos: seq<string>, destCred: string, env: DailyEnv, i: nat): (r: DailyResult)
    requires Ecr.Consistent(s) && i <= |repos|
    ensures Ecr.Consistent(r.after) && s.repos <= r.after.repos
    ensures r.end != RaisedRuntimeError
    ensures |r.proceed| + |r.failed| == |r.commands| <= |repos| - i
    decreases |repos| - i
  {
    if i == |repos| then DailyResult(Completed, s, [], [], [])
    else
      var (s1, step) := DailyStep(table, s, repos[i], destCred, env, i);
      match step
      case Stopped(end) => DailyResult(end, s1, [], [], [])
      case Ran(call, ok) =>
        var rest := DailyLoop(table, s1, repos, destCred, env, i + 1);
        DailyResult(rest.end, rest.after,
          (if ok then [repos[i]] else []) + rest.proceed,
          (if ok then [] else [repos[i]]) + rest.failed,
          [call] + rest.commands)
  }

  /** `image_daily_handler()` */
  function DailySpec(table: Utils.DomainTable, disk: Disk, s: Ecr.Service, env: DailyEnv): (r: DailyResult)
    requires Ecr.Consistent(s)
    ensures Ecr.Consistent(r.after)
  {
    if env.cnToken.None? then DailyResult(RaisedRuntimeError, s, [], [], [])
    else if DailyList !in disk then DailyResult(CaughtFileNotFound, s, [], [], [])
    else DailyLoop(table, s, ImageHandler.Load(ImageHandler.RepoEntries, disk[DailyList]), env.cnToken.value, env, 0)
  }

  /** The source image of each sync command. */
  function Sources(commands: seq<SyncCall>): (r: seq<string>)
    ensures |r| == |commands|
    ensures forall k :: 0 <= k < |r| ==> r[k] == commands[k].src
  {
    if commands == [] then [] else [commands[0].src] + Sources(commands[1..])
  }

  lemma SourcesCons(call: SyncCall, rest: seq<SyncCall>)
    ensures Sources([call] + rest) == [call.src] + Sources(rest)
  {
    assert ([call] + rest)[1..] == rest;
  }

  /** The repositories from position `i` on whose sync exits with 0 exactly when `exitZero`, in order. */
  function ByExitCode(repos: seq<string>, sync: nat -> SyncAnswer, i: nat, exitZero: bool): seq<string>
    requires i <= |repos|
    decreases |repos| - i
  {
    if i == |repos| then []
    else (if (sync(i) == ExitCode(0)) == exitZero then [repos[i]] else []) + ByExitCode(repos, sync, i + 1, exitZero)
  }

  /**
   * A run that completes synced every repository once, in order, and each lands in exactly one
   * outcome list: the succeeded list holds those whose sync exited with 0, the failed list the rest,
   * both in list order.
   */
  lemma {:induction false} CompletedRunSyncsAll(table: Utils.DomainTable, s: Ecr.Service, repos: seq<string>, destCred: string, env: DailyEnv, i: nat)
    requires Ecr.Consistent(s) && i <= |repos|
    ensures var r := DailyLoop(table, s, repos, destCred, env, i);
      r.end == Completed ==>
        && Sources(r.commands) == repos[i..]
        && r.proceed == ByExitCode(repos, env.sync, i, true)
        && r.failed == ByExitCode(repos, env.sync, i, false)
    decreases |repos| - i
  {
    var r := DailyLoop(table, s, repos, destCred, env, i);
    if i == |repos| {
      assert r.commands == [] && repos[i..] == [];
    } else {
      var next := DailyStep(table, s, repos[i], destCred, env, i);
      if next.1.Ran? {
        CompletedRunSyncsAll(table, next.0, repos, destCred, env, i + 1);
        var rest := DailyLoop(table, next.0, repos, destCred, env, i + 1);
        assert r.commands == [next.1.call] + rest.commands;
        assert next.1.ok <==> env.sync(i) == ExitCode(0);
        SourcesCons(next.1.call, rest.commands);
        SliceCons(repos, i);
      }
    }
  }

  lemma SliceCons<T>(xs: seq<T>, i: nat)
    requires i < |xs|
    ensures xs[i..] == [xs[i]] + xs[i + 1..]
  {
  }

  /** A failed `login_ecr_cn` ends the handler before it reads anything or touches the registry. */
  lemma CnLoginFailureAborts(table: Utils.DomainTable, disk: Disk, s: Ecr.Service, env: DailyEnv)
    requires Ecr.Consistent(s) && env.cnToken.None?
    ensures DailySpec(table, disk, s, env) == DailyResult(RaisedRuntimeError, s, [], [], [])
  {
  }

  /**
   * As written: when `create_ecr_repo` returns None for a repository (its listing or its creation
   * failed), the run ends there with an AttributeError, and no later repository is provisioned or synced.
   */
  lemma NoneUriAbortsRun(table: Utils.DomainTable, s: Ecr.Service, repos: seq<string>, destCred: string, env: DailyEnv, i: nat)
    requires Ecr.Consistent(s) && i < |repos|
    requires Ecr.CreateEcrRepoSpec(s, Utils.ReplaceDomainNameIn(table, repos[i]), env.create(i)).result.None?
    ensures var r := DailyLoop(table, s, repos, destCred, env, i);
      && r.end == RaisedAttributeError && r.commands == [] && r.after.repos == s.repos
  {
  }

  /** Two repositories, the first refused by the service: the second one is never synced. */
  lemma NoneUriExample(table: Utils.DomainTable, s: Ecr.Service, destCred: string, env: DailyEnv)
    requires Ecr.Consistent(s) && env.create(0).describeFails
    requires !env.create(1).describeFails && !env.create(1).createFails && env.sync(1) == ExitCode(0)
    ensures DailyLoop(table, s, ["quay.io/a", "quay.io/b"], destCred, env, 0).commands == []
  {
    NoneUriAbortsRun(table, s, ["quay.io/a", "quay.io/b"], destCred, env, 0);
  }

  /** The loop the `None` check evidently intends: a repository without a URI is skipped. */
  function DailyLoopIntended(table: Utils.DomainTable, s: Ecr.Service, repos: seq<string>, destCred: string, env: DailyEnv, i: nat): (r: DailyResult)
    requires Ecr.Consistent(s) && i <= |repos|
    ensures Ecr.Consistent(r.after) && s.repos <= r.after.repos
    ensures r.end == Completed || r.end == CaughtFileNotFound
    ensures |r.proceed| + |r.failed| == |r.commands| <= |repos| - i
    decreases |repos| - i
  {
    if i == |repos| then DailyResult(Completed, s, [], [], [])
    else
      var (s1, step) := DailyStep(table, s, repos[i], destCred, env, i);
      match step
      case Stopped(RaisedAttributeError) =>
        var rest := DailyLoopIntended(table, s1, repos, destCred, env, i + 1);
        rest
      case Stopped(end) => DailyResult(end, s1, [], [], [])
      case Ran(call, ok) =>
        var rest := DailyLoopIntended(table, s1, repos, destCred, env, i + 1);
        DailyResult(rest.end, rest.after,
          (if ok then [repos[i]] else []) + rest.proceed,
          (if ok then [] else [repos[i]]) + rest.failed,
          [call] + rest.commands)
  }

  /**
   * The repositories from position `i` on whose destination `create_ecr_repo` provides, in order;
   * with `exitZero` given, only those whose sync exits with 0 exactly when it says. The registry is
   * carried from one provisioning call to the next.
   */
  function ProvisionedRepos(table: Utils.DomainTable, s: Ecr.Service, repos: seq<string>, env: DailyEnv, i: nat,
                            exitZero: Option<bool>): seq<string>
    requires Ecr.Consistent(s) && i <= |repos|
    decreases |repos| - i
  {
    if i == |repos| then []
    else
      var created := Ecr.CreateEcrRepoSpec(s, Utils.ReplaceDomainNameIn(table, repos[i]), env.create(i));
      var kept := created.result.Some? && (exitZero.None? || (env.sync(i) == ExitCode(0)) == exitZero.value);
      (if kept then [repos[i]] else []) + ProvisionedRepos(table, created.after, repos, env, i + 1, exitZero)
  }

  /**
   * Intended: with skopeo present the run always completes, and every repository whose
   * destination exists is synced, in order, whatever happened to the ones before it.
   */
  lemma {:induction false} IntendedRunSyncsProvisioned(table: Utils.DomainTable, s: Ecr.Service, repos: seq<string>, destCred: string, env: DailyEnv, i: nat)
    requires Ecr.Consistent(s) && i <= |repos|
    requires forall k :: i <= k < |repos| ==> env.sync(k).ExitCode?
    ensures var r := DailyLoopIntended(table, s, repos, destCred, env, i);
      r.end == Completed && Sources(r.commands) == ProvisionedRepos(table, s, repos, env, i, None)
    decreases |repos| - i
  {
    if i < |repos| {
      var created := Ecr.CreateEcrRepoSpec(s, Utils.ReplaceDomainNameIn(table, repos[i]), env.create(i));
      var (s1, step) := DailyStep(table, s, repos[i], destCred, env, i);
      assert s1 == created.after && (step.Ran? <==> created.result.Some?);
      IntendedRunSyncsProvisioned(table, s1, repos, destCred, env, i + 1);
      if step.Ran? {
        SourcesCons(step.call, DailyLoopIntended(table, s1, repos, destCred, env, i + 1).commands);
      }
    }
  }

  /**
   * Intended, with skopeo present: the succeeded list holds the provisioned repositories whose sync
   * exited with 0 and the failed list the other provisioned ones, both in list order.
   */
  lemma {:induction false} IntendedRunOutcomes(table: Utils.DomainTable, s: Ecr.Service, repos: seq<string>, destCred: string, env: DailyEnv, i: nat)
    requires Ecr.Consistent(s) && i <= |repos|
    requires forall k :: i <= k < |repos| ==> env.sync(k).ExitCode?
    ensures var r := DailyLoopIntended(table, s, repos, destCred, env, i);
      && r.proceed == ProvisionedRepos(table, s, repos, env, i, Some(true))
      && r.failed == ProvisionedRepos(table, s, repos, env, i, Some(false))
    decreases |repos| - i
  {
    if i < |repos| {
      var created := Ecr.CreateEcrRepoSpec(s, Utils.ReplaceDomainNameIn(table, repos[i]), env.create(i));
      var (s1, step) := DailyStep(table, s, repos[i], destCred, env, i);
      assert s1 == created.after && (step.Ran? <==> created.result.Some?);
      IntendedRunOutcomes(table, s1, repos, destCred, env, i + 1);
      if step.Ran? {
        assert step.ok <==> env.sync(i) == ExitCode(0);
      }
    }
  }

  /** Where the as-written run completes, it agrees with the intended one. */
  lemma {:induction false} IntendedAgreesWhenCompleted(table: Utils.DomainTable, s: Ecr.Service, repos: seq<string>, destCred: string, env: DailyEnv, i: nat)
    requires Ecr.Consistent(s) && i <= |repos|
    requires DailyLoop(table, s, repos, destCred, env, i).end == Completed
    ensures DailyLoopIntended(table, s, repos, destCred, env, i) == DailyLoop(table, s, repos, destCred, env, i)
    decreases |repos| - i
  {
    if i < |repos| {
      var next := DailyStep(table, s, repos[i], destCred, env, i);
      if next.1.Ran? {
        IntendedAgreesWhenCompleted(table, next.0, repos, destCred, env, i + 1);
        var rest := DailyLoop(table, next.0, repos, destCred, env, i + 1);
        assert DailyLoopIntended(table, next.0, repos, destCred, env, i + 1) == rest;
      }
    }
  }

  /** A run's result with outcomes already gathered in front of it. */
  function Prefixed(p: seq<string>, f: seq<string>, c: seq<SyncCall>, r: DailyResult): DailyResult {
    DailyResult(r.end, r.after, p + r.proceed, f + r.failed, c + r.commands)
  }

  lemma PrefixedTwice(p: seq<string>, f: seq<string>, c: seq<SyncCall>,
                      p2: seq<string>, f2: seq<string>, c2: seq<SyncCall>, r: DailyResult)
    ensures Prefixed(p, f, c, Prefixed(p2, f2, c2, r)) == Prefixed(p + p2, f + f2, c + c2, r)
  {
    ImageHandler.Associative(p, p2, r.proceed);
    ImageHandler.Associative(f, f2, r.failed);
    ImageHandler.Associative(c, c2, r.commands);
  }

  lemma PrefixedEmptyFront(r: DailyResult)
    ensures Prefixed([], [], [], r) == r
  {
    assert [] + r.proceed == r.proceed && [] + r.failed == r.failed && [] + r.commands == r.commands;
  }

  lemma PrefixedEmpty(p: seq<string>, f: seq<string>, c: seq<SyncCall>, end: DailyEnd, after: Ecr.Service)
    ensures Prefixed(p, f, c, DailyResult(end, after, [], [], [])) == DailyResult(end, after, p, f, c)
  {
    assert p + [] == p && f + [] == f && c + [] == c;
  }

  /** The loop with the outcomes gathered so far carried along, as the handler's loop runs it. */
  function DailyRun(table: Utils.DomainTable, s: Ecr.Service, repos: seq<string>, destCred: string, env: DailyEnv, i: nat,
                    p: seq<string>, f: seq<string>, c: seq<SyncCall>): (r: DailyResult)
    requires Ecr.Consistent(s) && i <= |repos|
    decreases |repos| - i
  {
    if i == |repos| then DailyResult(Completed, s, p, f, c)
    else
      var next := DailyStep(table, s, repos[i], destCred, env, i);
      if next.1.Stopped? then DailyResult(next.1.end, next.0, p, f, c)
      else DailyRun(table, next.0, repos, destCred, env, i + 1,
        p + (if next.1.ok then [repos[i]] else []), f + (if next.1.ok then [] else [repos[i]]), c + [next.1.call])
  }

  /** Carrying the outcomes along gives the same run as putting them in front afterwards. */
  lemma {:induction false} DailyRunIsLoop(table: Utils.DomainTable, s: Ecr.Service, repos: seq<string>, destCred: string,
                                          env: DailyEnv, i: nat, p: seq<string>, f: seq<string>, c: seq<SyncCall>)
    requires Ecr.Consistent(s) && i <= |repos|
    ensures DailyRun(table, s, repos, destCred, env, i, p, f, c) == Prefixed(p, f, c, DailyLoop(table, s, repos, destCred, env, i))
    decreases |repos| - i
  {
    if i == |repos| {
      PrefixedEmpty(p, f, c, Completed, s);
    } else {
      var next := DailyStep(table, s, repos[i], destCred, env, i);
      if next.1.Stopped? {
        PrefixedEmpty(p, f, c, next.1.end, next.0);
      } else {
        var p2 := if next.1.ok then [repos[i]] else [];
        var f2 := if next.1.ok then [] else [repos[i]];
        DailyRunIsLoop(table, next.0, repos, destCred, env, i + 1, p + p2, f + f2, c + [next.1.call]);
        PrefixedTwice(p, f, c, p2, f2, [next.1.call], DailyLoop(table, next.0, repos, destCred, env, i + 1));
      }
    }
  }

  // ---------------------------------------------------------------------------
  // The handler, on the file store and the registry client
  // ---------------------------------------------------------------------------

  /** The loop body of `image_daily_handler` for one repository. */
  method ProcessRepo(table: Utils.DomainTable, reg: Ecr.Registry, repo: string, destCred: string, env: DailyEnv, i: nat) returns (step: RepoStep)
    requires reg.Valid()
    modifies reg
    ensures reg.Valid()
    ensures (reg.State(), step) == DailyStep(table, old(reg.State()), repo, destCred, env, i)
  {
    var repoCn := Utils.ReplaceDomainNameIn(table, repo);
    var uriCn := Ecr.CreateEcrRepo(reg, repoCn, env.create(i));
    if uriCn.None? {
      return Stopped(RaisedAttributeError);
    }
    var destUri := ParentUri(uriCn.value);
    var srcCred: Option<string> := None;
    if Utils.IsEcr(repo) {
      srcCred := Ecr.LoginEcr(repo, env.token);
    }
    var call := SyncCallFor(repo, destUri, srcCred, destCred);
    match env.sync(i)
    case ToolMissing =>
      return Stopped(CaughtFileNotFound);
    case ExitCode(code) =>
      return Ran(call, code == 0);
  }

  /** The `for repo in f` loop of `image_daily_handler`. */
  method SyncRepos(table: Utils.DomainTable, reg: Ecr.Registry, repos: seq<string>, destCred: string, env: DailyEnv)
    returns (end: DailyEnd, proceed: seq<string>, failed: seq<string>, commands: seq<SyncCall>)
    requires reg.Valid()
    modifies reg
    ensures reg.Valid()
    ensures DailyResult(end, reg.State(), proceed, failed, commands) == DailyRun(table, old(reg.State()), repos, destCred, env, 0, [], [], [])
  {
    proceed, failed, commands := [], [], [];
    var i := 0;
    while i < |repos|
      invariant 0 <= i <= |repos| && reg.Valid()
      invariant DailyRun(table, old(reg.State()), repos, destCred, env, 0, [], [], [])
        == DailyRun(table, reg.State(), repos, destCred, env, i, proceed, failed, commands)
    {
      var step := ProcessRepo(table, reg, repos[i], destCred, env, i);
      if step.Stopped? {
        return step.end, proceed, failed, commands;
      }
      proceed, failed, commands :=
        proceed + (if step.ok then [repos[i]] else []), failed + (if step.ok then [] else [repos[i]]), commands + [step.call];
      i := i + 1;
    }
    end := Completed;
  }

  /** `image_daily_handler()` */
  method RunDailyHandler(table: Utils.DomainTable, fs: FileStore, reg: Ecr.Registry, env: DailyEnv)
    returns (end: DailyEnd, proceed: seq<string>, failed: seq<string>, commands: seq<SyncCall>)
    requires reg.Valid()
    modifies reg
    ensures reg.Valid()
    ensures DailyResult(end, reg.State(), proceed, failed, commands) == DailySpec(table, fs.disk, old(reg.State()), env)
  {
    proceed, failed, commands := [], [], [];
    if env.cnToken.None? {
      return RaisedRuntimeError, proceed, failed, commands;
    }
    var destCred := env.cnToken.value;
    var lines := fs.ReadLines(DailyList);
    if lines.None? {
      return CaughtFileNotFound, proceed, failed, commands;
    }
    var repos := ImageHandler.Load(ImageHandler.RepoEntries, lines.value);
    end, proceed, failed, commands := SyncRepos(table, reg, repos, destCred, env);
    DailyRunIsLoop(table, old(reg.State()), repos, destCred, env, 0, [], [], []);
    PrefixedEmptyFront(DailyLoop(table, old(reg.State()), repos, destCred, env, 0));
  }
}
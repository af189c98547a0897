# container-mirror: the mirroring core in Dafny

This project models the decision logic of container-mirror, which copies container images from
public registries (Docker Hub, Quay, GCR, `registry.k8s.io`, GHCR, NVCR, public and private
ECR) into a private ECR registry in the China region (`cn-northwest-1`). It also proves
properties of that model.

The modelled core:

- **Destination paths.** `replace_domain_name` rewrites a source reference into a destination
  repository path. The first domain-table key the reference starts with is replaced by its
  namespace. A private ECR reference keeps only its repository path. Anything else goes under
  `dockerhub/`. `is_ecr` recognises private ECR references with one regular expression. Modules
  `Config` and `Utils`, with string helpers in `Text`.
- **The provisioner.** `create_ecr_repo` lists the registry, creates an absent repository and
  attaches the public-read policy to it. `delete_ecr_repo` force-deletes a listed repository.
  The China-region registry client is the class `Ecr.Registry`: the set of repositories, each
  repository's policy flag, and the log of requests sent. Whether a request fails is an answer
  handed in by the caller. Module `Ecr`.
- **The image handler.** `image_handler` loads the denied, ignore and required lists. It deletes
  the denied repositories, then screens, tags, provisions and transfers each required image. It
  appends the outcomes to the mirrored and failed ledgers and resets the required list from its
  template. Modules `ImageHandler` and `Files`; the file system is the class `Files.FileStore`.
- **The daily handler.** `image_daily_handler` logs in to the China registry and loads the daily
  list. For each repository it provisions the destination and runs `skopeo sync` into the
  destination's parent path. Module `DailyHandler`.
- **The earlier script.** `bin/mirror.py` has its own domain table, its own Docker logins and its
  own `main`. Module `BinMirror`.
- **The draft.** `mirror/mirror.py` has no ECR rule, a provisioner guarded by the denied list,
  and a push that is skipped when the registry already has the image's digest. Module
  `DraftMirror`.

The loops over denied entries, required images and daily repositories, and every state change
of the registry and the file system, are imperative methods: over the `Registry` and `FileStore`
objects, with a `while` loop where the source loops. Each one is proved equal to a function of
the old state, and the properties are proved about those functions. The source's other loops
are functions:
- the list comprehensions that load a list file (src/image_handler.py:21-25,
  src/image_daily_handler.py:21) are the recursive `ImageHandler.Load`;
- the domain-table loop of `replace_domain_name` (src/utils.py:11-13) is the recursive
  `Utils.FirstMatch`;
- the name lists built from a listing (src/ecr.py:45, :72) are membership in the set of names;
- each ledger's write loop (src/image_handler.py:60-61, :64-65) is one `AppendLines` call with
  all of its lines.

External answers are parameters:
- the AWS and Docker services and skopeo are answer records, or functions indexed by the list
  position of the item being processed;
- a credential token is a function from region to decoded token;
- a Docker login is a predicate on registry, user name and password.

Behaviour of the code that is easy to get wrong, as the model states it:

- **Provisioning failure.** A None from `create_ecr_repo` puts the image in neither ledger and
  the loop goes on with the next image (src/image_handler.py:50; `ImageHandler.HandleImage`,
  `ImageHandler.RunOutcomes`). In the daily handler the same None raises AttributeError at
  src/image_daily_handler.py:30, which nothing catches, so the run ends (see Findings).
- **Blank lines.** The denied and ignore lists keep a blank line as the empty entry
  (src/image_handler.py:21, :23); only the required and daily lists drop blank lines
  (src/image_handler.py:25, src/image_daily_handler.py:21; `ImageHandler.BlankLineEntries`).
- **Deletion pass.** `delete_ecr_repo` is called once per denied entry
  (src/image_handler.py:28-29): a repeated entry sends its requests again, and the second
  deletion finds nothing (`Ecr.DeleteTwice`).
- **Delete result.** `delete_ecr_repo` returns True only when the name was listed and the
  service accepted the deletion; an absent name and a ClientError both give False
  (src/ecr.py:73-82; `Ecr.DeleteEcrRepoSpec`).

## Model

| member | source | states |
|---|---|---|
| Utils.ParseEcr | src/utils.py:26-33 | a recognised reference has a numeric account, a region of `[a-z0-9-]`, a path accepted by `(.+)$`, and is exactly `<account>.dkr.ecr.<region>.amazonaws.com/<path>` |
| Utils.ParsedReference | src/utils.py:26-33 | the account digits, the region and the path the matcher cut out form a well-formed reference that is written exactly as the input |
| Utils.ParseCompose | src/utils.py:26-33 | every reference of that shape is recognised, and parsing gives back its three groups |
| Utils.IsEcrIff | src/utils.py:26-33 | `is_ecr(s)` holds exactly when `s` decomposes into the pattern's three groups (both directions) |
| Utils.IsEcr | src/utils.py:26-33 | no contract of its own; `Utils.IsEcrIff` states when it holds |
| Utils.CnDomainIsNotEcr | src/config.py:7-9 | the China registry's own host (ending in `.amazonaws.com.cn`) is never taken for an ECR source |
| Utils.HostOfCompose | src/ecr.py:17 | the text before the first `/` of an ECR reference is its registry host |
| Utils.InArray | src/utils.py:22-24 | `in_array` is true exactly when some list element equals the element |
| Utils.FirstMatch | src/utils.py:11-13 | the chosen table entry is the first one whose key the reference starts with; no earlier key matches; None means no key matches |
| Utils.TableHit | src/utils.py:11-13 | on the first matching key, only the key at the start is replaced by its namespace and the rest is kept |
| Utils.TableHitSplit | src/utils.py:11-13 | a reference written as the first matching key followed by a rest resolves to that key's namespace followed by the same rest |
| Utils.EcrHit | src/utils.py:15-18 | with no key matching, an ECR reference resolves to its repository path |
| Utils.DefaultHit | src/utils.py:20 | with no key matching and no ECR match, the result is `dockerhub/` followed by the whole reference |
| Utils.EcrIgnoresTable | src/utils.py:11-18 | since no key starts with a digit, every ECR reference resolves to its path whatever the table holds |
| Utils.ResolveNonEmpty | src/utils.py:6-20 | the destination path is never empty when no namespace is |
| Utils.DomainMapShape | src/config.py:12-24 | the configured keys are non-empty and start with no digit, and every namespace is non-empty |
| Utils.ReplaceDomainNameFacts | src/utils.py:6-20 | with the configured table the path is never empty and an ECR reference goes to its path |
| Utils.ResolveQuay | src/config.py:14 | `quay.io/coreos/etcd` resolves to `quay/coreos/etcd` |
| Utils.ResolveK8sGcr | src/config.py:15-18 | `k8s.gcr.io/pause` resolves to `gcr/google_containers/pause`: the shorter `gcr.io` key does not match it |
| Utils.ResolvePrefixOnly | src/utils.py:12-13 | matching is by prefix: `gcr.io.example/x` resolves to `gcr.example/x` |
| Utils.ResolveBareName | src/utils.py:20 | a bare `nginx` resolves to `dockerhub/nginx` |
| Utils.ReplaceDomainNameIn | src/utils.py:6-20 | no contract of its own; `Utils.TableHit`, `Utils.EcrHit` and `Utils.DefaultHit` state its three cases and `Utils.ResolveNonEmpty` its bound |
| Utils.ReplaceDomainName | src/utils.py:6-20 | no contract of its own; `Utils.ReplaceDomainNameFacts` and the `Resolve` examples state what it gives with the configured table |
| Ecr.Registry.constructor | src/ecr.py:10-12 | the client starts from a consistent registry state |
| Ecr.Registry.DescribeRepositories | src/ecr.py:44-45 | answers the set of repository names, or None on a ClientError; logs the request and changes nothing else |
| Ecr.Registry.CreateRepository | src/ecr.py:51 | an absent name is added without a policy and the reported URI is returned; an existing name or a ClientError changes no repository |
| Ecr.Registry.SetRepositoryPolicy | src/ecr.py:63 | an existing repository gets the policy unless the service refuses; the repositories are unchanged |
| Ecr.Registry.DeleteRepository | src/ecr.py:75 | an existing repository is removed with its policy unless the service refuses; true exactly then |
| Ecr.AttachPolicySpec | src/ecr.py:58-66 | a missing policy file sends no request; otherwise one request, and only an accepted one sets the flag; repositories never change |
| Ecr.AttachPolicy | src/ecr.py:58-66 | the client ends in the state `AttachPolicySpec` gives |
| Ecr.CreateEcrRepoSpec | src/ecr.py:41-56 | a URI exactly when the listing succeeds and the name exists or its creation succeeds; the canonical URI for an existing name, the reported URI for a new one; the repository exists after success; a failure or an existing name leaves repositories and policies as they were, and a new name adds only that repository, with the policy exactly when it was attached, every other repository keeping its policy; the request log only grows, starting with the listing |
| Ecr.CreateEcrRepo | src/ecr.py:41-56 | the client ends in the state and returns the URI `CreateEcrRepoSpec` gives |
| Ecr.DeleteEcrRepoSpec | src/ecr.py:68-82 | true exactly when the name existed and neither request failed; exactly that name is removed then, nothing otherwise; remaining policies unchanged |
| Ecr.DeleteEcrRepo | src/ecr.py:68-82 | the client ends in the state and returns the result `DeleteEcrRepoSpec` gives |
| Ecr.CreateExisting | src/ecr.py:46-48 | on an existing name only the listing is sent, and the canonical URI is returned |
| Ecr.CreateAbsent | src/ecr.py:49-54 | on an absent name: list, create, attach (unless the policy file is missing), and the reported URI is returned |
| Ecr.CreateRequests | src/ecr.py:41-56 | the requests sent are exactly the listing, then the creation for an absent name after a successful listing, then the policy request when creation succeeded and the policy file was read |
| Ecr.CreateClientError | src/ecr.py:55-56 | a listing or creation error yields None and leaves repositories and policies as they were |
| Ecr.CreateTwice | src/ecr.py:41-56 | creation is idempotent: after a successful call, a second one only lists and returns the canonical URI |
| Ecr.DeleteAbsent | src/ecr.py:77-79 | deleting an absent name returns false and sends only the listing |
| Ecr.DeleteTwice | src/ecr.py:68-82 | a second delete of the same name finds nothing and returns false |
| Ecr.CreateThenDelete | src/ecr.py:41-82 | creating an absent repository and deleting it restores the repositories and policies |
| Ecr.LoginRegion | src/ecr.py:17-20 | the region is the fourth `.`-field of the registry host, and contains no `.`; None where the host has fewer fields |
| Ecr.LoginRegionOfEcr | src/ecr.py:17-20 | for an ECR reference that field is exactly the region group of the pattern |
| Ecr.HostFourthField | src/ecr.py:20 | the fourth field of `<account>.dkr.ecr.<region>.amazonaws.com` is the region |
| Ecr.LoginEcr | src/ecr.py:14-29 | the credential is the decoded token of the image's own region, or None when the region or token cannot be had |
| Ecr.LoginEcrAsksOwnRegion | src/ecr.py:14-29 | for an ECR reference the token asked for is the one of its region |
| Files.AsLines | src/image_handler.py:59-65 | one line per entry, in order, each the entry followed by a line break |
| Files.Appended | src/image_handler.py:59-65 | an `a+` file is created when missing, its text is followed by exactly the text written, it keeps its lines when its last line ends with a line break, and no other file changes |
| Files.AppendText | src/image_handler.py:59-65 | appending keeps every line but the last, and keeps all of them when the last one ends with a line break (otherwise the first line written runs on from it) |
| Files.AppendTextContents | src/image_handler.py:59-65 | the file text after appending is the old text followed by the text written |
| Files.AppendTextLineSplit | src/image_handler.py:59-65 | appending lines split as iteration splits them (no empty line, a break only at a line's end and on every line but the last) to a file so split leaves a file so split |
| Files.ContentsConcat | src/image_handler.py:59-65 | the text of two runs of lines is the text of each, one after the other |
| Files.FileStore.constructor | src/image_handler.py:20-25 | the store starts from the given files |
| Files.FileStore.ReadLines | src/image_handler.py:20-25 | a file's lines, or None (FileNotFoundError) exactly when it is missing |
| Files.FileStore.AppendLines | src/image_handler.py:59-65 | the new file system is `Appended` of the old one |
| Files.FileStore.CopyFile | src/image_handler.py:67 | copying succeeds exactly when the source exists, and then only the destination changes, to the source's lines |
| ImageHandler.LoadMembers | src/image_handler.py:20-25 | an entry is loaded exactly when it comes from a kept line (not a comment, and not blank for the required list), stripped and for the denied list cut at the first `:` |
| ImageHandler.LoadConcat | src/image_handler.py:20-25 | loading is line by line: the entries of two runs of lines are the entries of each, in order |
| ImageHandler.LoadedImagesNonBlank | src/image_handler.py:25 | required images are never empty and carry no surrounding whitespace |
| ImageHandler.BlankLineEntries | src/image_handler.py:20-25 | a blank non-comment line gives the empty denied and ignore entry, but never an empty required image |
| ImageHandler.LoadHas | src/image_handler.py:20-25 | the entry of every kept line is in the loaded list |
| ImageHandler.Load | src/image_handler.py:20-25 | at most one entry per line; `ImageHandler.LoadMembers` and `ImageHandler.LoadConcat` state which entries, in which order |
| ImageHandler.DefaultTagFacts | src/image_handler.py:43-47 | tagging keeps the text before the first `:`; an untagged image gets the tag `latest`, a tagged one keeps its own |
| ImageHandler.RegistryOf | src/image_handler.py:34 | no contract of its own; `ImageHandler.HandleImage` states that the denied test is on this host |
| ImageHandler.WithDefaultTag | src/image_handler.py:44-45 | no contract of its own; `ImageHandler.DefaultTagFacts` states what tagging keeps and adds |
| ImageHandler.RepoOf | src/image_handler.py:47 | no contract of its own; `ImageHandler.HandleImage` and `ImageHandler.RunRecords` state that this repository is the one provisioned |
| ImageHandler.TagOf | src/image_handler.py:82 | no contract of its own; `ImageHandler.DefaultTagFacts` and `ImageHandler.PushKeepsTag` state which tag is pushed |
| ImageHandler.PullAndPush | src/image_handler.py:72-96 | true exactly when Docker raises no APIError; an ECR login is asked for exactly for ECR sources |
| ImageHandler.PushKeepsTag | src/image_handler.py:82-84 | the image is pushed to the destination repository under its own tag |
| ImageHandler.HandleImage | src/image_handler.py:32-56 | an image is skipped as denied exactly when its registry host is denied, as ignored exactly when it is not denied but ignored, and then nothing changes; a screened image leaves the registry as `create_ecr_repo` of its tagged repository does, is recorded in neither ledger exactly when that returns None, and otherwise is transferred with `pull_and_push` to the URI returned, mirrored without an APIError and failed with one |
| ImageHandler.DeletionPass | src/image_handler.py:27-29 | the deletion pass only removes repositories and leaves the remaining policies unchanged |
| ImageHandler.DeletionPassRemoves | src/image_handler.py:27-29 | afterwards exactly the repositories named by the denied entries whose requests succeeded are gone, however often they are listed |
| ImageHandler.Run | src/image_handler.py:32-56 | the image loop only adds repositories, and makes one transfer per recorded image, no more than there are images (which images it records is stated by `RunOutcomes`) |
| ImageHandler.RunRecords | src/image_handler.py:32-56 | every recorded image is a screened required image with its default tag, and its destination repository exists at the end |
| ImageHandler.RunOutcomes | src/image_handler.py:32-56 | the mirrored ledger is exactly the screened, provisioned images for which Docker raised no APIError, and the failed ledger those for which it did, each with its default tag and in list order; an image whose provisioning fails is in neither |
| ImageHandler.RunTransfers | src/image_handler.py:44-56 | the transfers are one `pull_and_push` per screened image whose destination was provisioned, in list order, each to the URI it was given |
| ImageHandler.RunAllSkipped | src/image_handler.py:35-41 | when every image is denied or ignored the loop changes nothing and records nothing |
| ImageHandler.ImageHandlerSpec | src/image_handler.py:13-70 | the whole handler keeps the registry consistent |
| ImageHandler.Mirror | src/image_handler.py:27-67 | deletion, image loop, ledgers and reset keep the registry consistent |
| ImageHandler.MissingInputChangesNothing | src/image_handler.py:20-25 | a missing list file ends the run before the registry or any file is touched |
| ImageHandler.LedgersAppendOnly | src/image_handler.py:59-65 | each ledger's text is its old text followed by exactly the run's outcomes, one line each, and a ledger whose last line ends with a line break keeps its old lines at the head |
| ImageHandler.RequiredListReset | src/image_handler.py:67 | the required list becomes the template when there is one and is otherwise left as read; the other lists and the template are never written |
| ImageHandler.RecordLedgers | src/image_handler.py:59-65 | recording writes the mirrored and failed images, one line each, at the end of their ledgers' text, creating a missing ledger |
| ImageHandler.RecordKeepsLines | src/image_handler.py:59-65 | a ledger whose last line ends with a line break keeps its lines, and the new lines follow them |
| ImageHandler.Record | src/image_handler.py:58-67 | no contract of its own; `ImageHandler.RecordLedgers`, `ImageHandler.RecordKeepsLines` and `ImageHandler.RecordInputs` state what it writes |
| ImageHandler.RecordInputs | src/image_handler.py:67 | recording copies the template over the required list when there is one and leaves the denied list, the ignore list and the template as they were |
| ImageHandler.DeleteDenied | src/image_handler.py:27-29 | the loop over the denied list leaves the registry as `DeletionPass` does |
| ImageHandler.ProcessImage | src/image_handler.py:33-56 | one pass of the loop body does what `HandleImage` says |
| ImageHandler.ProcessNext | src/image_handler.py:32-56 | one turn of the image loop advances the run by exactly the next required image, its outcome appended to the ledgers gathered so far |
| ImageHandler.ProcessImages | src/image_handler.py:32-56 | the image loop ends with the registry and outcome lists `Run` gives |
| ImageHandler.MirrorLists | src/image_handler.py:27-67 | the files and registry end as `Mirror` gives |
| ImageHandler.RunImageHandler | src/image_handler.py:13-70 | `image_handler()` ends with the files and registry `ImageHandlerSpec` gives |
| DailyHandler.ParentUriOf | src/image_daily_handler.py:30 | dropping the last `/`-segment of `u/last` gives back `u` |
| DailyHandler.ParentUri | src/image_daily_handler.py:30 | no contract of its own; `DailyHandler.ParentUriOf` and `DailyHandler.ParentOfCanonical` state what it keeps |
| DailyHandler.ParentOfCanonical | src/image_daily_handler.py:27-30 | for an existing `ns/name` the sync goes to `<registry>/ns` |
| DailyHandler.SourceFlagChoice | src/image_daily_handler.py:47-52 | the source flag carries credentials exactly when `is_ecr(src)` held; a failed ECR login is passed on as `--src-creds=None` |
| DailyHandler.SourceFlag | src/image_daily_handler.py:47-52 | no contract of its own; `DailyHandler.SourceFlagChoice` states which flag is chosen |
| DailyHandler.DestFlag | src/image_daily_handler.py:57 | no contract of its own; `DailyHandler.SyncCommandShape` states where it goes in the command |
| DailyHandler.SyncCommand | src/image_daily_handler.py:62 | no contract of its own; `DailyHandler.SyncCommandShape` states its words |
| DailyHandler.SyncCommandShape | src/image_daily_handler.py:57-62 | the skopeo command has twelve words, the source and destination as its last two, the destination credential flag just before them |
| DailyHandler.SyncSucceeded | src/image_daily_handler.py:67-75 | `sync` reports success exactly on exit code 0 |
| DailyHandler.RepoOutcome | src/image_daily_handler.py:30-38 | the pass stops exactly on a None URI (AttributeError) or a missing skopeo; otherwise the sync goes from the repository to the parent of the URI and succeeds exactly on exit code 0 |
| DailyHandler.DailyStep | src/image_daily_handler.py:27-38 | one repository's pass only adds repositories |
| DailyHandler.DailyLoop | src/image_daily_handler.py:24-38 | the loop only adds repositories, never raises RuntimeError, and records one outcome per sync run, no more than there are repositories |
| DailyHandler.DailySpec | src/image_daily_handler.py:12-41 | the whole handler keeps the registry consistent |
| DailyHandler.Sources | src/image_daily_handler.py:62 | one entry per sync command, the k-th being the source operand of the k-th command |
| DailyHandler.CompletedRunSyncsAll | src/image_daily_handler.py:24-38 | a run that completes synced every repository once, in order; the succeeded list is exactly the repositories whose sync exited with 0 and the failed list the others, both in list order |
| DailyHandler.CnLoginFailureAborts | src/image_daily_handler.py:15 | a failed China login ends the run with RuntimeError before anything is read or touched |
| DailyHandler.NoneUriAbortsRun | src/image_daily_handler.py:28-32 | whenever `create_ecr_repo` returns None (a failed listing or a failed creation), the run ends with AttributeError, with no later repository synced and the repositories unchanged |
| DailyHandler.NoneUriExample | src/image_daily_handler.py:28-32 | of two repositories whose first is refused, none is synced |
| DailyHandler.DailyLoopIntended | src/image_daily_handler.py:30-32 | the loop with the None check in effect only adds repositories and always completes unless skopeo is missing |
| DailyHandler.IntendedRunSyncsProvisioned | src/image_daily_handler.py:28-33 | with the check in effect and skopeo present, the run completes and the repositories synced are exactly those whose destination `create_ecr_repo` provided, in list order |
| DailyHandler.IntendedRunOutcomes | src/image_daily_handler.py:32-38 | with the check in effect and skopeo present, the succeeded list is exactly the provisioned repositories whose sync exited with 0 and the failed list the other provisioned ones, in list order |
| DailyHandler.IntendedAgreesWhenCompleted | src/image_daily_handler.py:24-38 | where the run as written completes, it equals the intended one |
| DailyHandler.DailyRunIsLoop | src/image_daily_handler.py:24-38 | the loop's accumulating form equals the recursive definition with the outcomes gathered so far in front |
| DailyHandler.ProcessRepo | src/image_daily_handler.py:27-38 | one pass of the loop body does what `DailyStep` says |
| DailyHandler.SyncRepos | src/image_daily_handler.py:24-38 | the loop over the daily list ends as its accumulating specification says |
| DailyHandler.RunDailyHandler | src/image_daily_handler.py:12-41 | `image_daily_handler()` ends with the registry, outcome lists and commands `DailySpec` gives |
| BinMirror.TableIsPrefixOfLater | bin/mirror.py:24-33 | the earlier table is the later one without its last three entries |
| BinMirror.ReplaceDomainNameFacts | bin/mirror.py:60-74 | the path is never empty and an ECR reference goes to its path |
| BinMirror.ReplaceDomainName | bin/mirror.py:60-74 | no contract of its own; `BinMirror.ReplaceDomainNameFacts`, `BinMirror.TableIsPrefixOfLater` and `BinMirror.GhcrFallsThrough` state what it gives |
| BinMirror.GhcrFallsThrough | bin/mirror.py:24-33 | without a `ghcr.io` entry, `ghcr.io/x` goes to `dockerhub/ghcr.io/x` |
| BinMirror.SplitCredential | bin/mirror.py:99 | the unpacking yields two pieces without `:` that rejoin to the token |
| BinMirror.CredentialRoundTrip | bin/mirror.py:99 | a token made of a name and a password without `:` splits back into them |
| BinMirror.CredentialNeedsOneColon | bin/mirror.py:99 | the unpacking succeeds exactly when the token holds exactly one `:` |
| BinMirror.LoginEcr | bin/mirror.py:89-112 | a login succeeds only when the image's region and its token can be had |
| BinMirror.LoginEcrOfEcr | bin/mirror.py:89-112 | for an ECR reference Docker is asked to log in to its host with the two halves of its region's token |
| BinMirror.LoginEcrRejectsMalformedToken | bin/mirror.py:99 | a token without exactly one `:` fails the login whatever Docker would answer |
| BinMirror.LoginEcrCn | bin/mirror.py:114-130 | the China login succeeds only with a token that splits in two |
| BinMirror.LoginEcrCnOfToken | bin/mirror.py:114-130 | a well-formed token logs Docker in to the China registry with its two halves |
| BinMirror.MainSpec | bin/mirror.py:228-288 | `main` keeps the registry consistent |
| BinMirror.MainIsImageHandler | bin/mirror.py:243-285 | once logged in, `main` does exactly what `image_handler` does over the earlier table |
| BinMirror.MainLoginFailureChangesNothing | bin/mirror.py:235-247 | a failed China login escapes before anything is deleted, created or written; a missing list ends the run quietly first |
| BinMirror.RunMain | bin/mirror.py:228-288 | `main()` ends with the files, registry and raised error `MainSpec` gives |
| DraftMirror.AgreesOffEcr | mirror/mirror.py:54-62 | away from ECR references the draft's rule agrees with the later one on the same table |
| DraftMirror.EcrGoesToDockerhub | mirror/mirror.py:20-30 | an ECR reference matches no key, not even `amazonaws.com`, and goes whole under `dockerhub/`, where the later rule keeps its path |
| DraftMirror.KeyIsSwapped | mirror/mirror.py:59-61 | on the first matching key only that key is replaced by its namespace |
| DraftMirror.FirstMatchIs | mirror/mirror.py:59-60 | the first key the reference starts with is the one chosen |
| DraftMirror.ReplaceDomainName | mirror/mirror.py:54-62 | no contract of its own; `DraftMirror.KeyIsSwapped`, `DraftMirror.EcrGoesToDockerhub` and `DraftMirror.AgreesOffEcr` state its cases |
| DraftMirror.CreateEcrRepoSpec | mirror/mirror.py:140-157 | a denied name is refused with no request sent; otherwise the name itself exactly when the listing succeeds and the name exists or is created; the repository exists after success; every other repository keeps its policy; the requests are the listing, the creation of an absent name and the policy request, as in the later provisioner |
| DraftMirror.CreateAgreesWithLater | mirror/mirror.py:146-157 | for a name not denied, the registry ends as with the later `create_ecr_repo`, and the call succeeds on the same answers |
| DraftMirror.CreateEcrRepo | mirror/mirror.py:140-157 | the client ends in the state and returns the result `CreateEcrRepoSpec` gives |
| DraftMirror.DeleteEcrRepoSpec | mirror/mirror.py:169-181 | true exactly after deleting a denied name found in both regions; false exactly on a failed global listing or a refused deletion; None otherwise, with nothing changed |
| DraftMirror.DeleteEcrRepo | mirror/mirror.py:169-181 | the client ends in the state and returns the result `DeleteEcrRepoSpec` gives |
| DraftMirror.DeniedChinaRepositoryKept | mirror/mirror.py:173-177 | a denied repository that exists in the China registry but not in the global one is left in place |
| DraftMirror.DeniedChinaRepositoryKeptExample | mirror/mirror.py:173-177 | with an empty global region, a denied China repository is not deleted |
| DraftMirror.DeleteEcrRepoIntended | mirror/mirror.py:169-181 | looking up the China registry: true exactly after deleting a denied existing name, false exactly on a ClientError |
| DraftMirror.IntendedDeleteRemovesDenied | mirror/mirror.py:169-181 | with that lookup a denied repository is gone afterwards unless the service refuses, and the registry ends as with the later `delete_ecr_repo` |
| DraftMirror.DeleteEcrRepoCorrected | mirror/mirror.py:169-181 | the client ends as `DeleteEcrRepoIntended` gives |
| DraftMirror.GetLocalImageDigest | mirror/mirror.py:113-123 | a digest exactly when the image has a first repo digest; it holds no `@` and is the text after the last `@` |
| DraftMirror.DigestOfRepoDigest | mirror/mirror.py:117 | `name@digest` yields its digest |
| DraftMirror.IsRemoteImageExists | mirror/mirror.py:125-136 | true exactly when the description succeeded and some image detail carries the tag |
| DraftMirror.RemoteRepository | mirror/mirror.py:198 | the repository looked up is the second `/`-field of the target, which always exists |
| DraftMirror.RemoteRepositoryIsFirstSegment | mirror/mirror.py:193-198 | with a registry host without `/`, that is the first segment of the mirrored path only |
| DraftMirror.PullAndPush | mirror/mirror.py:183-206 | true exactly when Docker raises no APIError, pushed or skipped; the target is the registry followed by the rewritten reference; pushed exactly when true and not skipped |
| DraftMirror.NoDigestMeansPush | mirror/mirror.py:197-202 | without a non-empty local digest the image is pushed whenever Docker does not fail |
| DraftMirror.PushSkipped | mirror/mirror.py:197-198 | no contract of its own; `DraftMirror.PullAndPush` states that the push happens exactly when it fails and `DraftMirror.NoDigestMeansPush` that it needs a digest |
| DraftMirror.RunPullAndPush | mirror/mirror.py:183-206 | the method does what `PullAndPush` says, using the loop of `IsRemoteImageExists` |

## Left out

- src/chart_handler.py: it cannot run as written (names used without import, `index.yaml` read with an XML parser) and never fills its outcome lists.
- `main()` of mirror/mirror.py: its calls do not match the arity of the functions it calls.
- src/main.py only calls the two handlers one after the other.
- Base64 decoding of the tokens: a token is modelled as the decoded text.
- Regular expressions: `is_ecr` is a hand-written recogniser of its one pattern, and `\d` is taken as ASCII digits only (Python also accepts other Unicode digits).
- Pagination of `describe_repositories`: a listing is the whole set of names.
- Logging, and the debug log of skopeo's output.
- Environment variables and the configured file paths: files are named by their role.
- Docker login side effects: a login is a true/false answer.
- Uncaught exceptions end the run and are not modelled, apart from these three: RuntimeError from the China login, FileNotFoundError (a missing list file or template, or a missing skopeo), and the AttributeError on a None URI in the daily handler. Not modelled are, for example, a botocore error other than ClientError in `create_ecr_repo` or `delete_ecr_repo` (src/ecr.py:55, :80 catch only ClientError) and a Docker error other than APIError in `pull_and_push` (src/image_handler.py:94).
- Failures of `Popen` other than a missing skopeo executable.
- Ecr.Registry.CreateRepository: an existing name is refused like any ClientError; the service's actual error code is not modelled.
- ImageHandler.PullAndPush: the ECR login it asks for is recorded but its result is ignored, as the source ignores it.
- DailyHandler.DailySpec: the daily outcome lists are returned but never written, as in the source.
- DailyHandler.RepoOutcome: the `except Exception` around the source credentials cannot fire, because `login_ecr` catches everything itself.
- bin/mirror.py:132-155 holds the digest helpers of the draft, which its own `pull_and_push` never calls; they are modelled once, in `DraftMirror`.
- bin/mirror.py `create_ecr_repo`, `attach_policy` and `delete_ecr_repo` are the same as in src/ and are modelled once, in `Ecr`. Its `pull_and_push` differs from src's only in the login it asks for on an ECR source: its own `login_ecr`, a Docker login (`BinMirror.LoginEcr`), where src fetches a token. Both ignore the login's result, so `ImageHandler.PullAndPush` covers both by recording only that a login was asked for.
- DraftMirror.PullAndPush: one APIError answer covers the pull, the tag and the push; the draft's own `login_ecr` (global token, result ignored) is recorded only as whether a login was asked for.

## Findings

| source | as written | input that shows it | evidently intended | confidence | as-written member | corrected member |
|---|---|---|---|---|---|---|
| src/image_daily_handler.py:28-32 | the parent path is computed from `uri_cn` before the `uri_cn != None` check, so a None URI raises AttributeError and the uncaught error ends the whole run | two daily repositories, the first one's `describe_repositories` raising ClientError: the second is never synced | skip a repository without a destination and go on with the next | not executed | DailyHandler.NoneUriAbortsRun | DailyHandler.IntendedRunSyncsProvisioned |
| mirror/mirror.py:173-177 | the repository is looked up in the global-region registry but deleted in the China-region registry | a denied repository present in the China registry and absent from the global one: it is kept and None is returned | look up the China registry the repository is deleted from | not executed | DraftMirror.DeniedChinaRepositoryKept | DraftMirror.IntendedDeleteRemovesDenied |

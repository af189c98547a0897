/**
 * `image_handler`: load the denied, ignore and required lists, delete the denied
 * repositories, then mirror every required image in turn, and finally append the
 * outcomes to the ledger files and reset the required list from its template.
 *
 * The Docker daemon is an oracle: `apiError(k)` says whether pulling, tagging or pushing
 * the k-th required image raises `docker.errors.APIError`. The registry's answers come
 * from the oracles of the provisioner, also indexed by list position.
 */
module ImageHandler {
  import opened Text
  import Utils
  import Ecr
  import opened Files

  // ---------------------------------------------------------------------------
  // Loading the lists
  // ---------------------------------------------------------------------------

  /** `line.startswith('#')`, checked on the raw line, before stripping. */
  predicate IsComment(line: string) {
    StartsWith(line, "#")
  }

  /** The four list comprehensions that load a list file. */
  datatype ListKind =
    | DeniedEntries  // non-comment lines, stripped and cut at the first `:`; blank lines give ""
    | IgnoreEntries  // non-comment lines, stripped
    | ImageEntries   // non-comment, non-blank lines, stripped
    | RepoEntries    // non-comment, non-blank lines, stripped and cut at the first `:` (daily list)

  predicate Keeps(kind: ListKind, line: string) {
    && !IsComment(line)
    && ((kind.ImageEntries? || kind.RepoEntries?) ==> Strip(line) != [])
  }

  function EntryOf(kind: ListKind, line: string): string {
    if kind.DeniedEntries? || kind.RepoEntries? then BeforeFirst(Strip(line), ':') else Strip(line)
  }

  /** The entries of a list file, in file order. */
  function Load(kind: ListKind, lines: seq<string>): (r: seq<string>)
    ensures |r| <= |lines|
  {
    if lines == [] then []
    else (if Keeps(kind, lines[0]) then [EntryOf(kind, lines[0])] else []) + Load(kind, lines[1..])
  }

  /** Some kept line of `lines` gives the entry `x`. */
  predicate FromKeptLine(kind: ListKind, lines: seq<string>, x: string) {
    exists k :: 0 <= k < |lines| && Keeps(kind, lines[k]) && x == EntryOf(kind, lines[k])
  }

  /** An entry is loaded exactly when some kept line gives it. */
  lemma {:induction false} LoadMembers(kind: ListKind, lines: seq<string>)
    ensures forall x :: x in Load(kind, lines) <==> FromKeptLine(kind, lines, x)
  {
    if lines != [] {
      var head := if Keeps(kind, lines[0]) then [EntryOf(kind, lines[0])] else [];
      var tail := lines[1..];
      LoadMembers(kind, tail);
      assert Load(kind, lines) == head + Load(kind, tail);
      forall x ensures x in Load(kind, lines) <==> FromKeptLine(kind, lines, x) {
        if x in head {
          assert Keeps(kind, lines[0]) && x == EntryOf(kind, lines[0]);
        }
        if x in Load(kind, tail) {
          var j :| 0 <= j < |tail| && Keeps(kind, tail[j]) && x == EntryOf(kind, tail[j]);
          assert lines[j + 1] == tail[j];
        }
        if FromKeptLine(kind, lines, x) {
          var k :| 0 <= k < |lines| && Keeps(kind, lines[k]) && x == EntryOf(kind, lines[k]);
          if k > 0 {
            assert tail[k - 1] == lines[k];
            assert FromKeptLine(kind, tail, x);
          }
        }
      }
    }
  }

  /** Loading is line by line: the entries of two files' lines are the entries of each, in order. */
  lemma {:induction false} LoadConcat(kind: ListKind, a: seq<string>, b: seq<string>)
    ensures Load(kind, a + b) == Load(kind, a) + Load(kind, b)
  {
    if a != [] {
      var head := if Keeps(kind, a[0]) then [EntryOf(kind, a[0])] else [];
      assert (a + b)[0] == a[0] && (a + b)[1..] == a[1..] + b;
      assert Load(kind, a + b) == head + Load(kind, a[1..] + b);
      LoadConcat(kind, a[1..], b);
      Associative(head, Load(kind, a[1..]), Load(kind, b));
    } else {
      assert a + b == b;
    }
  }

  /** Required images and daily repositories are never blank and carry no surrounding whitespace. */
  lemma LoadedImagesNonBlank(kind: ListKind, lines: seq<string>)
    requires kind.ImageEntries?
    ensures forall x :: x in Load(kind, lines) ==> x != [] && !IsSpace(x[0]) && !IsSpace(x[|x| - 1])
  {
    LoadMembers(kind, lines);
  }

  /** A blank, non-comment line gives the empty denied and ignore entry, but never an empty required image. */
  lemma BlankLineEntries(lines: seq<string>, k: nat)
    requires k < |lines| && AllSpace(lines[k]) && !IsComment(lines[k])
    ensures "" in Load(DeniedEntries, lines) && "" in Load(IgnoreEntries, lines)
    ensures "" !in Load(ImageEntries, lines)
  {
    assert Strip(lines[k]) == [];
    assert EntryOf(DeniedEntries, lines[k]) == "" && EntryOf(IgnoreEntries, lines[k]) == "";
    LoadHas(DeniedEntries, lines, k);
    LoadHas(IgnoreEntries, lines, k);
    LoadedImagesNonBlank(ImageEntries, lines);
  }

  /** A kept line's entry is loaded. */
  lemma LoadHas(kind: ListKind, lines: seq<string>, k: nat)
    requires k < |lines| && Keeps(kind, lines[k])
    ensures EntryOf(kind, lines[k]) in Load(kind, lines)
  {
    LoadMembers(kind, lines);
  }

  // ---------------------------------------------------------------------------
  // One image
  // ---------------------------------------------------------------------------

  /** `img.split('/')[0]`: the registry host the denied list is checked against. */
  function RegistryOf(img: string): string {
    BeforeFirst(img, '/')
  }

  /** An image with no `:` is given the `latest` tag. */
  function WithDefaultTag(img: string): string {
    if ':' in img then img else img + ":latest"
  }

  /** `replace_domain_name(img.split(':')[0])`: the destination repository of a tagged image. */
  function RepoOf(table: Utils.DomainTable, tagged: string): string {
    Utils.ReplaceDomainNameIn(table, BeforeFirst(tagged, ':'))
  }

  /** `img.split(':')[-1]` */
  function TagOf(tagged: string): string {
    AfterLast(tagged, ':')
  }

  /** Tagging keeps the text before the first `:` and gives an untagged image the tag `latest`. */
  lemma DefaultTagFacts(img: string)
    ensures ':' in WithDefaultTag(img)
    ensures BeforeFirst(WithDefaultTag(img), ':') == BeforeFirst(img, ':')
    ensures TagOf(WithDefaultTag(img)) == if ':' in img then TagOf(img) else "latest"
  {
    if ':' !in img {
      var t := img + [':'] + "latest";
      assert img + ":latest" == t;
      assert t[|img|] == ':';
      assert BeforeFirst(img, ':') == img;
      BeforeFirstCons(img, ":latest", ':');
      assert ':' !in "latest";
      SplitNoSeparator("latest", ':');
      SplitCons(img, "latest", ':');
    }
  }

  /** What `pull_and_push(img, target_repo)` does: an ECR login first for ECR sources, then one push. */
  datatype Transfer = Transfer(ecrLogin: bool, pulled: string, pushed: string, ok: bool)

  /** `pull_and_push(img, target_repo)`: False exactly when Docker raises APIError. */
  function PullAndPush(img: string, targetRepo: string, apiError: bool): (r: Transfer)
    ensures r.ok <==> !apiError
    ensures r.ecrLogin <==> Utils.IsEcr(img)
  {
    Transfer(Utils.IsEcr(img), img, targetRepo + ":" + TagOf(img), !apiError)
  }

  /** The image is pushed under the destination repository with its own tag. */
  lemma PushKeepsTag(repo: string, tag: string, targetRepo: string, apiError: bool)
    requires ':' !in tag
    ensures PullAndPush(repo + ":" + tag, targetRepo, apiError).pushed == targetRepo + ":" + tag
  {
    assert repo + ":" + tag == repo + [':'] + tag;
    AfterLastOfSuffix(repo, tag, ':');
  }

  /** What became of one required image. */
  datatype Disposition =
    | SkippedDenied   // its registry host is on the denied list
    | SkippedIgnored  // it is on the ignore list
    | Unrecorded      // `create_ecr_repo` returned None: in neither outcome list
    | Mirrored        // `pull_and_push` returned True
    | Failed          // `pull_and_push` returned False

  datatype Handled = Handled(after: Ecr.Service, disposition: Disposition, tagged: string, transfer: Option<Transfer>)

  /** One pass of the loop body of `image_handler`. */
  function HandleImage(table: Utils.DomainTable, s: Ecr.Service, img: string, denied: seq<string>,
                       ignore: seq<string>, o: Ecr.CreateOracle, apiError: bool): (r: Handled)
    requires Ecr.Consistent(s)
    ensures Ecr.Consistent(r.after) && s.repos <= r.after.repos
    ensures r.disposition.SkippedDenied? <==> RegistryOf(img) in denied
    ensures r.disposition.SkippedIgnored? <==> RegistryOf(img) !in denied && img in ignore
    ensures r.disposition.SkippedDenied? || r.disposition.SkippedIgnored? ==> r.after == s && r.transfer.None?
    ensures r.tagged == WithDefaultTag(img)
    ensures r.transfer.Some? <==> r.disposition.Mirrored? || r.disposition.Failed?
    ensures r.transfer.Some? ==> RepoOf(table, r.tagged) in r.after.repos && r.transfer.value.pulled == r.tagged
    ensures r.disposition.Mirrored? ==> !apiError
    ensures r.disposition.Failed? ==> apiError
    ensures RegistryOf(img) !in denied && img !in ignore ==>
      var c := Ecr.CreateEcrRepoSpec(s, RepoOf(table, WithDefaultTag(img)), o);
      && r.after == c.after
      && (r.disposition.Unrecorded? <==> c.result.None?)
      && (c.result.Some? ==> r.transfer == Some(PullAndPush(r.tagged, c.result.value, apiError)))
  {
    var tagged := WithDefaultTag(img);
    if Utils.InArray(RegistryOf(img), denied) then Handled(s, SkippedDenied, tagged, None)
    else if Utils.InArray(img, ignore) then Handled(s, SkippedIgnored, tagged, None)
    else
      var created := Ecr.CreateEcrRepoSpec(s, RepoOf(table, tagged), o);
      match created.result
      case None => Handled(created.after, Unrecorded, tagged, None)
      case Some(uri) =>
        var t := PullAndPush(tagged, uri, apiError);
        Handled(created.after, if t.ok then Mirrored else Failed, tagged, Some(t))
  }

  // ---------------------------------------------------------------------------
  // The whole run, as functions of the registry state
  // ---------------------------------------------------------------------------

  /** The three loaded lists. */
  datatype Lists = Lists(denied: seq<string>, ignore: seq<string>, images: seq<string>)

  /** The oracles of one run: deletions by denied-list position, the rest by required-list position. */
  datatype Env = Env(delete: nat -> Ecr.DeleteOracle, create: nat -> Ecr.CreateOracle, apiError: nat -> bool)

  /** The deletion pass: `delete_ecr_repo(replace_domain_name(e))` for the denied entries from `i` on. */
  function DeletionPass(table: Utils.DomainTable, s: Ecr.Service, denied: seq<string>,
                        o: nat -> Ecr.DeleteOracle, i: nat): (r: Ecr.Service)
    requires Ecr.Consistent(s) && i <= |denied|
    ensures Ecr.Consistent(r) && r.repos <= s.repos
    ensures forall n :: n in r.repos ==> r.policy[n] == s.policy[n]
    decreases |denied| - i
  {
    if i == |denied| then s
    else
      var step := Ecr.DeleteEcrRepoSpec(s, Utils.ReplaceDomainNameIn(table, denied[i]), o(i));
      DeletionPass(table, step.after, denied, o, i + 1)
  }

  /** The names whose deletion the service carries out: those of the entries it raises no error for. */
  function Deletable(table: Utils.DomainTable, denied: seq<string>, o: nat -> Ecr.DeleteOracle, i: nat): set<string>
    requires i <= |denied|
    decreases |denied| - i
  {
    if i == |denied| then {}
    else
      (if !o(i).describeFails && !o(i).deleteFails then {Utils.ReplaceDomainNameIn(table, denied[i])} else {})
        + Deletable(table, denied, o, i + 1)
  }

  /**
   * After the deletion pass exactly the repositories named by an error-free denied entry are gone,
   * whether they existed or not, and however often they are listed.
   */
  lemma {:induction false} DeletionPassRemoves(table: Utils.DomainTable, s: Ecr.Service, denied: seq<string>,
                                               o: nat -> Ecr.DeleteOracle, i: nat)
    requires Ecr.Consistent(s) && i <= |denied|
    ensures DeletionPass(table, s, denied, o, i).repos == s.repos - Deletable(table, denied, o, i)
    decreases |denied| - i
  {
    if i < |denied| {
      var name := Utils.ReplaceDomainNameIn(table, denied[i]);
      var step := Ecr.DeleteEcrRepoSpec(s, name, o(i));
      DeletionPassRemoves(table, step.after, denied, o, i + 1);
      var here: set<string> := if !o(i).describeFails && !o(i).deleteFails then {name} else {};
      assert step.after.repos == s.repos - here;
    }
  }

  /** The outcome of the image loop: the registry afterwards, the two outcome lists and the transfers made. */
  datatype Ledger = Ledger(after: Ecr.Service, mirrored: seq<string>, failed: seq<string>, transfers: seq<Transfer>)

  /** The image loop over the required images from `i` on. */
  function Run(table: Utils.DomainTable, s: Ecr.Service, lists: Lists, env: Env, i: nat): (r: Ledger)
    requires Ecr.Consistent(s) && i <= |lists.images|
    ensures Ecr.Consistent(r.after) && s.repos <= r.after.repos
    ensures |r.transfers| == |r.mirrored| + |r.failed| <= |lists.images| - i
    decreases |lists.images| - i
  {
    if i == |lists.images| then Ledger(s, [], [], [])
    else
      var h := HandleImage(table, s, lists.images[i], lists.denied, lists.ignore, env.create(i), env.apiError(i));
      var rest := Run(table, h.after, lists, env, i + 1);
      Ledger(rest.after,
        (if h.disposition.Mirrored? then [h.tagged] else []) + rest.mirrored,
        (if h.disposition.Failed? then [h.tagged] else []) + rest.failed,
        (if h.transfer.Some? then [h.transfer.value] else []) + rest.transfers)
  }

  /** An image passes the screening when neither its registry host is denied nor it is ignored. */
  predicate Screened(lists: Lists, img: string) {
    RegistryOf(img) !in lists.denied && img !in lists.ignore
  }

  /**
   * Everything recorded, mirrored or failed, is a screened required image with its default tag,
   * and its destination repository exists when the loop ends.
   */
  lemma {:induction false} RunRecords(table: Utils.DomainTable, s: Ecr.Service, lists: Lists, env: Env, i: nat)
    requires Ecr.Consistent(s) && i <= |lists.images|
    ensures var r := Run(table, s, lists, env, i);
      forall x :: x in r.mirrored + r.failed ==>
        && RepoOf(table, x) in r.after.repos
        && exists k :: i <= k < |lists.images| && Screened(lists, lists.images[k]) && x == WithDefaultTag(lists.images[k])
    decreases |lists.images| - i
  {
    if i < |lists.images| {
      var h := HandleImage(table, s, lists.images[i], lists.denied, lists.ignore, env.create(i), env.apiError(i));
      RunRecords(table, h.after, lists, env, i + 1);
      var r := Run(table, s, lists, env, i);
      var rest := Run(table, h.after, lists, env, i + 1);
      var m := if h.disposition.Mirrored? then [h.tagged] else [];
      var f := if h.disposition.Failed? then [h.tagged] else [];
      assert r.after == rest.after && r.mirrored == m + rest.mirrored && r.failed == f + rest.failed;
      forall x | x in r.mirrored + r.failed
        ensures RepoOf(table, x) in r.after.repos
        ensures exists k :: i <= k < |lists.images| && Screened(lists, lists.images[k]) && x == WithDefaultTag(lists.images[k])
      {
        if x in rest.mirrored + rest.failed {
          var k :| i + 1 <= k < |lists.images| && Screened(lists, lists.images[k]) && x == WithDefaultTag(lists.images[k]);
        } else {
          assert x in m || x in f;
          assert x == h.tagged && h.transfer.Some?;
          assert Screened(lists, lists.images[i]);
        }
      }
    }
  }

  /**
   * The screened images from position `i` on whose destination `create_ecr_repo` provisions, and
   * whose transfer raises APIError exactly when `apiError` says, with their default tag, in list
   * order. The registry is carried from one provisioning call to the next.
   */
  function Picked(table: Utils.DomainTable, s: Ecr.Service, lists: Lists, env: Env, i: nat, apiError: bool): seq<string>
    requires Ecr.Consistent(s) && i <= |lists.images|
    decreases |lists.images| - i
  {
    if i == |lists.images| then []
    else if !Screened(lists, lists.images[i]) then Picked(table, s, lists, env, i + 1, apiError)
    else
      var tagged := WithDefaultTag(lists.images[i]);
      var c := Ecr.CreateEcrRepoSpec(s, RepoOf(table, tagged), env.create(i));
      (if c.result.Some? && env.apiError(i) == apiError then [tagged] else []) + Picked(table, c.after, lists, env, i + 1, apiError)
  }

  /** One `pull_and_push` per screened image from position `i` on whose destination is provisioned, to the URI it was given. */
  function PickedTransfers(table: Utils.DomainTable, s: Ecr.Service, lists: Lists, env: Env, i: nat): seq<Transfer>
    requires Ecr.Consistent(s) && i <= |lists.images|
    decreases |lists.images| - i
  {
    if i == |lists.images| then []
    else if !Screened(lists, lists.images[i]) then PickedTransfers(table, s, lists, env, i + 1)
    else
      var tagged := WithDefaultTag(lists.images[i]);
      var c := Ecr.CreateEcrRepoSpec(s, RepoOf(table, tagged), env.create(i));
      (if c.result.Some? then [PullAndPush(tagged, c.result.value, env.apiError(i))] else [])
        + PickedTransfers(table, c.after, lists, env, i + 1)
  }

  /**
   * The ledgers of the image loop are exactly the screened images whose destination was
   * provisioned, in list order: the mirrored ledger those Docker raised no APIError for, the failed
   * ledger the others. A screened image whose provisioning fails is in neither.
   */
  lemma {:induction false} RunOutcomes(table: Utils.DomainTable, s: Ecr.Service, lists: Lists, env: Env, i: nat)
    requires Ecr.Consistent(s) && i <= |lists.images|
    ensures var r := Run(table, s, lists, env, i);
      && r.mirrored == Picked(table, s, lists, env, i, false)
      && r.failed == Picked(table, s, lists, env, i, true)
    decreases |lists.images| - i
  {
    if i < |lists.images| {
      var h := HandleImage(table, s, lists.images[i], lists.denied, lists.ignore, env.create(i), env.apiError(i));
      RunOutcomes(table, h.after, lists, env, i + 1);
      if Screened(lists, lists.images[i]) {
        var c := Ecr.CreateEcrRepoSpec(s, RepoOf(table, h.tagged), env.create(i));
        assert h.after == c.after;
        assert h.disposition.Mirrored? <==> c.result.Some? && !env.apiError(i);
        assert h.disposition.Failed? <==> c.result.Some? && env.apiError(i);
      } else {
        assert h.after == s && !h.disposition.Mirrored? && !h.disposition.Failed?;
      }
    }
  }

  /** The transfers of the image loop are one `pull_and_push` per provisioned image, in order, to the URI it was given. */
  lemma {:induction false} RunTransfers(table: Utils.DomainTable, s: Ecr.Service, lists: Lists, env: Env, i: nat)
    requires Ecr.Consistent(s) && i <= |lists.images|
    ensures Run(table, s, lists, env, i).transfers == PickedTransfers(table, s, lists, env, i)
    decreases |lists.images| - i
  {
    if i < |lists.images| {
      var h := HandleImage(table, s, lists.images[i], lists.denied, lists.ignore, env.create(i), env.apiError(i));
      RunTransfers(table, h.after, lists, env, i + 1);
      if !Screened(lists, lists.images[i]) {
        assert h.after == s && h.transfer.None?;
      }
    }
  }

  /** When every required image is denied or ignored, the loop touches nothing and records nothing. */
  lemma {:induction false} RunAllSkipped(table: Utils.DomainTable, s: Ecr.Service, lists: Lists, env: Env, i: nat)
    requires Ecr.Consistent(s) && i <= |lists.images|
    requires forall k :: i <= k < |lists.images| ==> !Screened(lists, lists.images[k])
    ensures Run(table, s, lists, env, i) == Ledger(s, [], [], [])
    decreases |lists.images| - i
  {
    if i < |lists.images| {
      var h := HandleImage(table, s, lists.images[i], lists.denied, lists.ignore, env.create(i), env.apiError(i));
      assert !Screened(lists, lists.images[i]);
      assert h.after == s && !h.disposition.Mirrored? && !h.disposition.Failed? && h.transfer.None?;
      RunAllSkipped(table, s, lists, env, i + 1);
    }
  }

  // ---------------------------------------------------------------------------
  // The whole handler, as a function of the files and the registry
  // ---------------------------------------------------------------------------

  datatype World = World(disk: Disk, registry: Ecr.Service)

  predicate InputsPresent(disk: Disk) {
    DeniedList in disk && IgnoreList in disk && ImagesList in disk
  }

  function ListsOf(disk: Disk): Lists
    requires InputsPresent(disk)
  {
    Lists(Load(DeniedEntries, disk[DeniedList]), Load(IgnoreEntries, disk[IgnoreList]), Load(ImageEntries, disk[ImagesList]))
  }

  /**
   * `image_handler()` over a domain table. A missing input file raises FileNotFoundError before
   * anything happens; a missing template raises it after the ledgers were written, so the
   * required list is then left as it was. Either error is caught and the run simply ends.
   */
  function ImageHandlerSpec(table: Utils.DomainTable, w: World, env: Env): (r: World)
    requires Ecr.Consistent(w.registry)
    ensures Ecr.Consistent(r.registry)
  {
    if !InputsPresent(w.disk) then w else Mirror(table, w, ListsOf(w.disk), env)
  }

  /** What the handler does once its three lists are loaded: delete, mirror, record, reset. */
  function Mirror(table: Utils.DomainTable, w: World, lists: Lists, env: Env): (r: World)
    requires Ecr.Consistent(w.registry)
    ensures Ecr.Consistent(r.registry)
  {
    var cleaned := DeletionPass(table, w.registry, lists.denied, env.delete, 0);
    var run := Run(table, cleaned, lists, env, 0);
    World(Record(w.disk, run.mirrored, run.failed), run.after)
  }

  /** The end of the handler: append the two ledgers, then copy the template over the required list. */
  function Record(disk: Disk, mirrored: seq<string>, failed: seq<string>): Disk {
    var d1 := Appended(disk, MirroredList, AsLines(mirrored));
    var d2 := Appended(d1, FailedList, AsLines(failed));
    if ImagesListTemplate in d2 then d2[ImagesList := d2[ImagesListTemplate]] else d2
  }

  /** A missing list file aborts the handler before it touches the registry or any file. */
  lemma MissingInputChangesNothing(table: Utils.DomainTable, w: World, env: Env)
    requires Ecr.Consistent(w.registry) && !InputsPresent(w.disk)
    ensures ImageHandlerSpec(table, w, env) == w
  {
  }

  /**
   * Ledgers are append-only: the text they held is followed by exactly the run's outcomes, one
   * line each, and a ledger whose last line ends with a line break keeps its lines at its head.
   */
  lemma LedgersAppendOnly(table: Utils.DomainTable, w: World, env: Env)
    requires Ecr.Consistent(w.registry) && InputsPresent(w.disk)
    ensures var r := ImageHandlerSpec(table, w, env);
      var run := Run(table, DeletionPass(table, w.registry, ListsOf(w.disk).denied, env.delete, 0), ListsOf(w.disk), env, 0);
      && MirroredList in r.disk && FailedList in r.disk
      && Contents(r.disk[MirroredList]) == Contents(Held(w.disk, MirroredList)) + Contents(AsLines(run.mirrored))
      && Contents(r.disk[FailedList]) == Contents(Held(w.disk, FailedList)) + Contents(AsLines(run.failed))
      && (Terminated(Held(w.disk, MirroredList)) ==> r.disk[MirroredList] == Held(w.disk, MirroredList) + AsLines(run.mirrored))
      && (Terminated(Held(w.disk, FailedList)) ==> r.disk[FailedList] == Held(w.disk, FailedList) + AsLines(run.failed))
  {
    var lists := ListsOf(w.disk);
    var run := Run(table, DeletionPass(table, w.registry, lists.denied, env.delete, 0), lists, env, 0);
    RecordLedgers(w.disk, run.mirrored, run.failed);
    RecordKeepsLines(w.disk, run.mirrored, run.failed);
  }

  /**
   * The required list is overwritten by the template when there is one, and is otherwise left
   * as read; the denied and ignore lists and the template itself are never written.
   */
  lemma RequiredListReset(table: Utils.DomainTable, w: World, env: Env)
    requires Ecr.Consistent(w.registry) && InputsPresent(w.disk)
    ensures var r := ImageHandlerSpec(table, w, env);
      && r.disk[ImagesList] == (if ImagesListTemplate in w.disk then w.disk[ImagesListTemplate] else w.disk[ImagesList])
      && r.disk[DeniedList] == w.disk[DeniedList] && r.disk[IgnoreList] == w.disk[IgnoreList]
      && (ImagesListTemplate in w.disk ==> r.disk[ImagesListTemplate] == w.disk[ImagesListTemplate])
  {
    var lists := ListsOf(w.disk);
    var run := Run(table, DeletionPass(table, w.registry, lists.denied, env.delete, 0), lists, env, 0);
    RecordInputs(w.disk, run.mirrored, run.failed);
  }

  /** Recording writes each run's outcomes, one line each, at the end of its ledger, creating the ledger when missing. */
  lemma RecordLedgers(disk: Disk, mirrored: seq<string>, failed: seq<string>)
    ensures var r := Record(disk, mirrored, failed);
      && MirroredList in r && FailedList in r
      && Contents(r[MirroredList]) == Contents(Held(disk, MirroredList)) + Contents(AsLines(mirrored))
      && Contents(r[FailedList]) == Contents(Held(disk, FailedList)) + Contents(AsLines(failed))
  {
    var d1 := Appended(disk, MirroredList, AsLines(mirrored));
    assert Held(d1, FailedList) == Held(disk, FailedList);
  }

  /** A ledger whose last line ends with a line break keeps its lines, and the new ones follow them. */
  lemma RecordKeepsLines(disk: Disk, mirrored: seq<string>, failed: seq<string>)
    ensures var r := Record(disk, mirrored, failed);
      && MirroredList in r && FailedList in r
      && (Terminated(Held(disk, MirroredList)) ==> r[MirroredList] == Held(disk, MirroredList) + AsLines(mirrored))
      && (Terminated(Held(disk, FailedList)) ==> r[FailedList] == Held(disk, FailedList) + AsLines(failed))
  {
    var d1 := Appended(disk, MirroredList, AsLines(mirrored));
    assert Held(d1, FailedList) == Held(disk, FailedList);
  }

  /** Recording resets the required list from the template and leaves the other inputs as they were. */
  lemma RecordInputs(disk: Disk, mirrored: seq<string>, failed: seq<string>)
    requires InputsPresent(disk)
    ensures var r := Record(disk, mirrored, failed);
      && r[ImagesList] == (if ImagesListTemplate in disk then disk[ImagesListTemplate] else disk[ImagesList])
      && r[DeniedList] == disk[DeniedList] && r[IgnoreList] == disk[IgnoreList]
      && (ImagesListTemplate in disk ==> r[ImagesListTemplate] == disk[ImagesListTemplate])
  {
  }

  // ---------------------------------------------------------------------------
  // The handler, on the file store and the registry client
  // ---------------------------------------------------------------------------

  /** The deletion pass of `image_handler`. */
  method DeleteDenied(reg: Ecr.Registry, table: Utils.DomainTable, denied: seq<string>, o: nat -> Ecr.DeleteOracle)
    requires reg.Valid()
    modifies reg
    ensures reg.Valid()
    ensures reg.State() == DeletionPass(table, old(reg.State()), denied, o, 0)
  {
    var i := 0;
    while i < |denied|
      invariant 0 <= i <= |denied| && reg.Valid()
      invariant DeletionPass(table, reg.State(), denied, o, i) == DeletionPass(table, old(reg.State()), denied, o, 0)
    {
      var _ := Ecr.DeleteEcrRepo(reg, Utils.ReplaceDomainNameIn(table, denied[i]), o(i));
      i := i + 1;
    }
  }

  /** The loop body of `image_handler` for one required image. */
  method ProcessImage(reg: Ecr.Registry, table: Utils.DomainTable, img: string, denied: seq<string>,
                      ignore: seq<string>, o: Ecr.CreateOracle, apiError: bool)
    returns (disposition: Disposition, tagged: string, transfer: Option<Transfer>)
    requires reg.Valid()
    modifies reg
    ensures reg.Valid()
    ensures Handled(reg.State(), disposition, tagged, transfer) == HandleImage(table, old(reg.State()), img, denied, ignore, o, apiError)
  {
    tagged := img;
    transfer := None;
    var registry := BeforeFirst(img, '/');
    if Utils.InArray(registry, denied) {
      disposition := SkippedDenied;
    } else if Utils.InArray(img, ignore) {
      disposition := SkippedIgnored;
    } else {
      if ':' !in img {
        tagged := img + ":latest";
      }
      var repoCn := Utils.ReplaceDomainNameIn(table, BeforeFirst(tagged, ':'));
      var uriCn := Ecr.CreateEcrRepo(reg, repoCn, o);
      if uriCn.None? {
        disposition := Unrecorded;
      } else {
        var t := PullAndPush(tagged, uriCn.value, apiError);
        transfer := Some(t);
        disposition := if t.ok then Mirrored else Failed;
      }
    }
    tagged := WithDefaultTag(img);
  }

  /** The image loop of `image_handler`. */
  method ProcessImages(reg: Ecr.Registry, table: Utils.DomainTable, lists: Lists, env: Env)
    returns (mirrored: seq<string>, failed: seq<string>, transfers: seq<Transfer>)
    requires reg.Valid()
    modifies reg
    ensures reg.Valid()
    ensures Ledger(reg.State(), mirrored, failed, transfers) == Run(table, old(reg.State()), lists, env, 0)
  {
    mirrored, failed, transfers := [], [], [];
    ghost var outcome := Run(table, reg.State(), lists, env, 0);
    RunFromStartIsRun(table, reg.State(), lists, env);
    var i := 0;
    while i < |lists.images|
      invariant 0 <= i <= |lists.images| && reg.Valid()
      invariant RunFrom(table, reg.State(), lists, env, i, mirrored, failed, transfers) == outcome
    {
      mirrored, failed, transfers := ProcessNext(reg, table, lists, env, i, mirrored, failed, transfers);
      i := i + 1;
    }
    RunFromDone(table, reg.State(), lists, env, i, mirrored, failed, transfers);
  }

  /** One turn of the image loop: the `i`-th required image, its outcome appended to the ledgers. */
  method ProcessNext(reg: Ecr.Registry, table: Utils.DomainTable, lists: Lists, env: Env, i: nat,
                     mirrored: seq<string>, failed: seq<string>, transfers: seq<Transfer>)
    returns (mirrored': seq<string>, failed': seq<string>, transfers': seq<Transfer>)
    requires reg.Valid() && i < |lists.images|
    modifies reg
    ensures reg.Valid()
    ensures RunFrom(table, reg.State(), lists, env, i + 1, mirrored', failed', transfers')
      == RunFrom(table, old(reg.State()), lists, env, i, mirrored, failed, transfers)
  {
    var disposition, tagged, transfer :=
      ProcessImage(reg, table, lists.images[i], lists.denied, lists.ignore, env.create(i), env.apiError(i));
    RunFromStep(table, old(reg.State()), lists, env, i, mirrored, failed, transfers, reg.State(), disposition, tagged, transfer);
    mirrored' := mirrored + if disposition.Mirrored? then [tagged] else [];
    failed' := failed + if disposition.Failed? then [tagged] else [];
    transfers' := transfers + if transfer.Some? then [transfer.value] else [];
  }

  /** The image loop with the outcomes gathered so far carried along, as the method's loop keeps them. */
  function RunFrom(table: Utils.DomainTable, s: Ecr.Service, lists: Lists, env: Env, i: nat,
                   mirrored: seq<string>, failed: seq<string>, transfers: seq<Transfer>): Ledger
    requires Ecr.Consistent(s) && i <= |lists.images|
    decreases |lists.images| - i
  {
    if i == |lists.images| then Ledger(s, mirrored, failed, transfers)
    else
      var h := HandleImage(table, s, lists.images[i], lists.denied, lists.ignore, env.create(i), env.apiError(i));
      RunFrom(table, h.after, lists, env, i + 1,
        mirrored + (if h.disposition.Mirrored? then [h.tagged] else []),
        failed + (if h.disposition.Failed? then [h.tagged] else []),
        transfers + (if h.transfer.Some? then [h.transfer.value] else []))
  }

  /** One step of the image loop with the outcomes carried along. */
  lemma RunFromStep(table: Utils.DomainTable, s: Ecr.Service, lists: Lists, env: Env, i: nat,
                    mirrored: seq<string>, failed: seq<string>, transfers: seq<Transfer>,
                    after: Ecr.Service, disposition: Disposition, tagged: string, transfer: Option<Transfer>)
    requires Ecr.Consistent(s) && i < |lists.images|
    requires Handled(after, disposition, tagged, transfer)
      == HandleImage(table, s, lists.images[i], lists.denied, lists.ignore, env.create(i), env.apiError(i))
    ensures Ecr.Consistent(after)
    ensures RunFrom(table, s, lists, env, i, mirrored, failed, transfers)
        == RunFrom(table, after, lists, env, i + 1,
             mirrored + (if disposition.Mirrored? then [tagged] else []),
             failed + (if disposition.Failed? then [tagged] else []),
             transfers + (if transfer.Some? then [transfer.value] else []))
  {
  }

  /** Carrying the outcomes along gives the loop's own outcomes after the ones gathered before. */
  lemma {:induction false} RunFromIsRun(table: Utils.DomainTable, s: Ecr.Service, lists: Lists, env: Env, i: nat,
                                        mirrored: seq<string>, failed: seq<string>, transfers: seq<Transfer>)
    requires Ecr.Consistent(s) && i <= |lists.images|
    ensures var r := Run(table, s, lists, env, i);
      RunFrom(table, s, lists, env, i, mirrored, failed, transfers)
        == Ledger(r.after, mirrored + r.mirrored, failed + r.failed, transfers + r.transfers)
    decreases |lists.images| - i
  {
    if i == |lists.images| {
      assert mirrored + [] == mirrored && failed + [] == failed && transfers + [] == transfers;
    } else {
      var h := HandleImage(table, s, lists.images[i], lists.denied, lists.ignore, env.create(i), env.apiError(i));
      var m := if h.disposition.Mirrored? then [h.tagged] else [];
      var f := if h.disposition.Failed? then [h.tagged] else [];
      var t := if h.transfer.Some? then [h.transfer.value] else [];
      RunFromIsRun(table, h.after, lists, env, i + 1, mirrored + m, failed + f, transfers + t);
      var rest := Run(table, h.after, lists, env, i + 1);
      Associative(mirrored, m, rest.mirrored);
      Associative(failed, f, rest.failed);
      Associative(transfers, t, rest.transfers);
    }
  }

  /** Past the last image, the carried loop has nothing left to add. */
  lemma RunFromDone(table: Utils.DomainTable, s: Ecr.Service, lists: Lists, env: Env, i: nat,
                    mirrored: seq<string>, failed: seq<string>, transfers: seq<Transfer>)
    requires Ecr.Consistent(s) && i == |lists.images|
    ensures RunFrom(table, s, lists, env, i, mirrored, failed, transfers) == Ledger(s, mirrored, failed, transfers)
  {
  }

  /** Started with nothing gathered, the carried loop is the image loop itself. */
  lemma RunFromStartIsRun(table: Utils.DomainTable, s: Ecr.Service, lists: Lists, env: Env)
    requires Ecr.Consistent(s)
    ensures RunFrom(table, s, lists, env, 0, [], [], []) == Run(table, s, lists, env, 0)
  {
    RunFromIsRun(table, s, lists, env, 0, [], [], []);
    var r := Run(table, s, lists, env, 0);
    assert [] + r.mirrored == r.mirrored && [] + r.failed == r.failed && [] + r.transfers == r.transfers;
  }

  lemma Associative<T>(a: seq<T>, b: seq<T>, c: seq<T>)
    ensures a + (b + c) == (a + b) + c
  {
  }

  /** `image_handler()` */
  method RunImageHandler(fs: FileStore, reg: Ecr.Registry, table: Utils.DomainTable, env: Env)
    requires reg.Valid()
    modifies fs, reg
    ensures reg.Valid()
    ensures World(fs.disk, reg.State()) == ImageHandlerSpec(table, World(old(fs.disk), old(reg.State())), env)
  {
    var deniedLines := fs.ReadLines(DeniedList);
    if deniedLines.None? {
      return;
    }
    var ignoreLines := fs.ReadLines(IgnoreList);
    if ignoreLines.None? {
      return;
    }
    var imageLines := fs.ReadLines(ImagesList);
    if imageLines.None? {
      return;
    }
    var lists := Lists(Load(DeniedEntries, deniedLines.value), Load(IgnoreEntries, ignoreLines.value),
                       Load(ImageEntries, imageLines.value));
    MirrorLists(fs, reg, table, lists, env);
  }

  /** The body of `image_handler` after the three lists are read. */
  method MirrorLists(fs: FileStore, reg: Ecr.Registry, table: Utils.DomainTable, lists: Lists, env: Env)
    requires reg.Valid()
    modifies fs, reg
    ensures reg.Valid()
    ensures World(fs.disk, reg.State()) == Mirror(table, World(old(fs.disk), old(reg.State())), lists, env)
  {
    DeleteDenied(reg, table, lists.denied, env.delete);
    var mirrored, failed, _ := ProcessImages(reg, table, lists, env);
    fs.AppendLines(MirroredList, AsLines(mirrored));
    fs.AppendLines(FailedList, AsLines(failed));
    var _ := fs.CopyFile(ImagesListTemplate, ImagesList);
  }
}

/** Commands one after another, each finished or crashed at any of its moments. */
module Sessions {
  import opened Wrappers
  import opened References
  import opened Digests
  import opened Stores
  import opened Running
  import opened MutableStorage
  import opened Fetching
  import opened Pruning
  import opened Commands
  import opened Updates
  import opened Repairing

  datatype CommandLine =
    | InstallCommand(container: string, image: string)
    | UninstallCommand(container: string)
    | UpdateCommand(containers: seq<string>)
    | SwitchCommand(container: string, digest: string)
    | PruneCommand
    | RepairCommand
    | RunCommand(containers: seq<string>, command: seq<string>)

  /** What a command meets: failing file operations, locked files, and a registry. */
  datatype Environment = Environment(
    faults: nat -> bool,
    readLocked: nat -> set<Inode>,
    serve: Registry,
    requestSizes: nat -> seq<nat>)

  /** All that the registries met so far have answered to requests for layers. */
  ghost function Received(environments: seq<Environment>): iset<Delivery> {
    iset delivery | ReceivedInOne(environments, delivery)
  }

  ghost predicate ReceivedInOne(environments: seq<Environment>, delivery: Delivery) {
    exists i :: 0 <= i < |environments| && WasReceived(environments[i].serve, delivery)
  }

  lemma ReceivedNext(environments: seq<Environment>, n: nat)
    requires n < |environments|
    ensures Received(environments[..n]) <= Received(environments[..n + 1])
    ensures Deliveries(environments[n].serve) <= Received(environments[..n + 1])
  {
    hide WasReceived;
    forall delivery | delivery in Received(environments[..n]) ensures delivery in Received(environments[..n + 1]) {
      var i :| 0 <= i < n && WasReceived(environments[..n][i].serve, delivery);
      assert environments[..n + 1][i] == environments[..n][i];
    }
    assert environments[..n + 1][n] == environments[n];
  }

  lemma StartIsSafe(codec: Codec, journal: seq<Moment>, left: Store, claim: Claim)
    requires OneOf(journal, 0, left, left) && SafeStore(codec, left, claim)
    ensures AllIntact(codec, journal, 0, claim) && SafeStart(codec, Core(left), claim)
  {
    hide Intact, WholeLayers;
    IntactIsCore(codec, left, Core(left));
    forall k | 0 <= k < |journal| ensures SafeStore(codec, StoreAt(journal, k), claim) {
      IntactIsCore(codec, left, StoreAt(journal, k));
    }
  }

  lemma SweepIsSafe(codec: Codec, journal: seq<Moment>, n: nat, s: Store, claim: Claim)
    requires AllSwept(journal, n, s, UsedManifests(s), UsedLayers(codec, s)) && SafeStore(codec, s, claim)
    ensures AllIntact(codec, journal, n, claim)
  {
    hide Intact, WholeLayers, Swept;
    forall k | n <= k < |journal| ensures SafeStore(codec, StoreAt(journal, k), claim) {
      SweepKeepsIntact(codec, s, StoreAt(journal, k));
    }
  }

  /** What a command that has come to its end has made of a store, and whether it reports success;
      `n` is the number of its first request to the registry. */
  ghost predicate Outcome(codec: Codec, serve: Registry, n: nat, line: CommandLine, s: Store, t: Store, ok: bool) {
    match line
    case InstallCommand(container, image) =>
      if ok then
        && container !in s.containers && Parse(image).Ok?
        && Obtained(codec, serve, n, Parse(image).value, s, t)
        && t.containers == s.containers[container := NewlyInstalled(codec, serve, n, Parse(image).value)]
        && KeepsData(codec, s, t)
      else t.containers == s.containers && KeepsData(codec, s, t)
    case UninstallCommand(container) =>
      && t.manifests == s.manifests && t.layers == s.layers
      && (t.containers == s.containers - {container} || (!ok && t.containers == s.containers))
    case UpdateCommand(containers) =>
      UpdateOutcome(codec, serve, n, containers, s, t, ok)
    case SwitchCommand(container, digest) =>
      if ok then
        && container in s.containers && ReadReference(s, container).Some?
        && Obtained(codec, serve, n, ReadReference(s, container).value.(specifier := Digest(digest)), s, t)
        && t.containers == PointTo(s, container, digest).containers && KeepsData(codec, s, t)
      else t.containers == s.containers && KeepsData(codec, s, t)
    case PruneCommand =>
      && Swept(s, t, UsedManifests(s), UsedLayers(codec, s))
      && (ok ==> t.manifests.Keys <= UsedManifests(s) <= s.manifests.Keys)
    case RepairCommand =>
      && t.containers == s.containers && KeepsData(codec, s, t)
      && (ok ==> DefectCounts(codec, t) == Checked(0, 0))
    case RunCommand(containers, command) =>
      SameData(s, t) && ok == BwrapCommand(codec, "", s, containers, command).Some?
  }

  /** The named containers, or all if none are named, have been updated, or some of them if it failed. */
  ghost predicate UpdateOutcome(codec: Codec, serve: Registry, n: nat, containers: seq<string>, s: Store, t: Store,
                                ok: bool)
  {
    && KeepsData(codec, s, t)
    && (containers != [] ==>
          forall c | c !in containers && c in s.containers ::
            c in t.containers && t.containers[c] == s.containers[c])
    && exists last: nat ::
         && Updating(codec, Requests(serve, n, last), s, t)
         && (ok ==>
               forall c | c in containers || (containers == [] && c in s.containers) ::
                 Refreshed(codec, serve, n, last, s, t, c))
  }

  /** If the line is a switch, the digest string that the registry leads to is the one that was
      asked for, or a manifest was saved under that one before. Other requests do not matter. */
  predicate SwitchAgrees(codec: Codec, serve: Registry, n: nat, s: Store, line: CommandLine) {
    line.SwitchCommand? && ReadReference(s, line.container).Some? ==>
      var asked := ReadReference(s, line.container).value.(specifier := Digest(line.digest));
      var fetched := FetchedAt(codec, serve, n, asked);
      fetched.Some? ==> fetched.value.digest == line.digest || line.digest in s.manifests
  }

  /** The registry led to a manifest, which is saved now if it was not before. */
  predicate Obtained(codec: Codec, serve: Registry, n: nat, reference: Reference, s: Store, t: Store) {
    var fetched := FetchedAt(codec, serve, n, reference);
    fetched.Some? && t.manifests.Keys == s.manifests.Keys + {fetched.value.digest}
  }

  function NewlyInstalled(codec: Codec, serve: Registry, n: nat, reference: Reference): Container
    requires FetchedAt(codec, serve, n, reference).Some?
  {
    Container(Some(FetchedAt(codec, serve, n, reference).value.digest), Some(reference))
  }

  /** Does what the command does, and reports whether it ended well. */
  method Execute(storage: StorageMutable, client: RegistryClient, line: CommandLine, ghost claim: Claim)
    returns (ok: bool)
    requires storage.Valid() && storage.lock.NoLock? && storage.codec == client.codec && !line.RunCommand?
    requires Covers(claim, client.serve)
    modifies storage, client
    ensures storage.Valid() && old(storage.journal) <= storage.journal
    ensures Outcome(client.codec, client.serve, old(client.clock), line, old(storage.disk), storage.disk, ok)
    ensures SafeStart(storage.codec, old(storage.disk), claim)
            && SwitchAgrees(client.codec, client.serve, old(client.clock), old(storage.disk), line) ==>
              AllIntact(storage.codec, storage.journal, |old(storage.journal)|, claim)
  {
    hide AllIntact, SafeStore, AllSwept, Swept, FollowsProtocol, FetchedAt, UsedManifests, UsedLayers, Updating,
         AllUpdating, DefectCounts, Parse, ReadReference, KeepsData, Refreshed, UpdateOutcome;
    ghost var s, n := storage.disk, |storage.journal|;
    match line {
      case InstallCommand(container, image) =>
        ok := Install(storage, client, container, image, map[], claim);
      case UninstallCommand(container) =>
        ok := Uninstall(storage, container, claim);
      case UpdateCommand(containers) =>
        ghost var first := client.clock;
        ok := Update(storage, client, containers, map[], map[], claim);
        UpdateEnds(client.codec, client.serve, first, client.clock, containers, s, storage.disk, ok);
      case SwitchCommand(container, digest) =>
        ok := Switch(storage, client, container, digest, map[], claim);
      case PruneCommand =>
        var pruned := Prune(storage, {});
        ok := pruned.Some?;
        if SafeStart(storage.codec, s, claim) {
          SweepIsSafe(storage.codec, storage.journal, n, s, claim);
        }
      case RepairCommand =>
        var checked := Repair(storage, client, map[], claim);
        ok := checked == Checked(0, 0);
    }
  }

  lemma UpdateEnds(codec: Codec, serve: Registry, n: nat, last: nat, containers: seq<string>, s: Store, t: Store,
                   ok: bool)
    requires KeepsData(codec, s, t) && Updating(codec, Requests(serve, n, last), s, t)
    requires ok ==>
               forall c | c in containers || (containers == [] && c in s.containers) ::
                 Refreshed(codec, serve, n, last, s, t, c)
    requires containers != [] ==>
               forall c | c !in containers && c in s.containers ::
                 c in t.containers && t.containers[c] == s.containers[c]
    ensures UpdateOutcome(codec, serve, n, containers, s, t, ok)
  {
    hide KeepsData, Updating, Refreshed;
  }

  /** One command on the store that was left behind; it ends, or crashes at some moment. */
  method RunSession(codec: Codec, environment: Environment, left: Store, line: CommandLine, crash: Option<nat>,
                    ghost claim: Claim)
    returns (after: Store, ok: bool)
    requires Covers(claim, environment.serve)
    ensures SafeStore(codec, left, claim) && SwitchAgrees(codec, environment.serve, 0, left, line) ==>
              SafeStore(codec, after, claim)
    ensures crash.None? ==>
              Outcome(codec, environment.serve, 0, line, if line.RunCommand? then left else Core(left), after, ok)
  {
    hide AllIntact, SafeStore, SwitchAgrees, FollowsProtocol, OneOf, Core, SafeStart, Outcome, Deliveries;
    if line.RunCommand? {
      after, ok := RunReader(codec, environment.serve, left, line, claim);
      return;
    }
    var storage := new StorageMutable(codec, environment.faults, environment.readLocked, left);
    var client := new RegistryClient(codec, environment.serve, environment.requestSizes);
    ghost var journal := storage.journal;
    SwitchIgnoresTemporary(codec, environment.serve, left, line);
    ok := Execute(storage, client, line, claim);
    var last := |storage.journal| - 1;
    var k := if crash.Some? && crash.value < last then crash.value else last;
    after := StoreAt(storage.journal, k);
    if SafeStore(codec, left, claim) && SwitchAgrees(codec, environment.serve, 0, left, line) {
      StartIsSafe(codec, journal, left, claim);
      IntactThroughout(codec, journal, storage.journal, 0, claim);
      SafeAt(codec, storage.journal, k, claim);
    }
  }

  lemma SwitchIgnoresTemporary(codec: Codec, serve: Registry, s: Store, line: CommandLine)
    ensures SwitchAgrees(codec, serve, 0, Core(s), line) == SwitchAgrees(codec, serve, 0, s, line)
  {
    hide FetchedAt;
  }

  lemma SafeAt(codec: Codec, journal: seq<Moment>, k: nat, claim: Claim)
    requires AllIntact(codec, journal, 0, claim) && k < |journal|
    ensures SafeStore(codec, StoreAt(journal, k), claim)
  {
  }

  /** A run only adds lock files, and is over as far as the store goes when bwrap starts. */
  method RunReader(codec: Codec, serve: Registry, left: Store, line: CommandLine, ghost claim: Claim)
    returns (after: Store, ok: bool)
    requires line.RunCommand?
    ensures SafeStore(codec, left, claim) ==> SafeStore(codec, after, claim)
    ensures Outcome(codec, serve, 0, line, left, after, ok)
  {
    hide BwrapCommand, SafeStore, WithLocks, StackedLayers;
    var storage := new Storage("", codec, left);
    var bwrap := storage.BuildBwrapCommand(line.containers, line.command);
    ok := bwrap.Some?;
    after := storage.disk;
    OnlyLocksDiffer(left, after);
    if SafeStore(codec, left, claim) {
      SameDataIsSafe(codec, left, after, claim);
    }
  }

  lemma OnlyLocksDiffer(s: Store, t: Store)
    requires Core(t).(locks := map[], nextInode := 0) == Core(s).(locks := map[], nextInode := 0)
    ensures SameData(s, t)
  {
    assert t == s.(temporary := t.temporary, locks := t.locks, nextInode := t.nextInode);
  }

  lemma SameDataIsSafe(codec: Codec, s: Store, t: Store, claim: Claim)
    requires SafeStore(codec, s, claim) && SameData(s, t)
    ensures SafeStore(codec, t, claim)
  {
    forall digest | digest in t.manifests ensures IntactManifest(codec, t, digest) {
      assert IntactManifest(codec, s, digest);
    }
    forall c | c in t.containers ensures IntactContainer(t, c) {
      assert IntactContainer(s, c);
    }
  }

  /** Every switch among the first `n` commands was answered with the digest it asked for, or asked
      for a saved one. */
  predicate SwitchesAgree(codec: Codec, environments: seq<Environment>, lines: seq<CommandLine>, stores: seq<Store>,
                          n: nat)
    requires n <= |lines| && |environments| == |lines| && n <= |stores|
  {
    forall i | 0 <= i < n :: SwitchAgrees(codec, environments[i].serve, 0, stores[i], lines[i])
  }

  /** The commands that were not interrupted did their work, on what the one before had left. */
  ghost predicate Outcomes(codec: Codec, environments: seq<Environment>, lines: seq<CommandLine>,
                           crashes: seq<Option<nat>>, stores: seq<Store>, oks: seq<bool>, n: nat)
    requires n <= |lines| && |environments| == |lines| == |crashes| && |stores| == n + 1 && |oks| == n
  {
    forall i | 0 <= i < n && crashes[i].None? ::
      Outcome(codec, environments[i].serve, 0, lines[i],
              if lines[i].RunCommand? then stores[i] else Core(stores[i]), stores[i + 1], oks[i])
  }

  /** From an empty store, whatever commands run, whatever fails, whatever the registry answers,
      and wherever commands crash: in every store on the way every saved manifest verifies, parses
      and has its layers, every container names a saved manifest, and every layer is a whole
      extraction of what a registry has answered for it. Only switching relies on the registry to
      answer with the digest that it was asked for, in the one request that it makes. */
  method RunSessions(codec: Codec, environments: seq<Environment>, lines: seq<CommandLine>, crashes: seq<Option<nat>>)
    returns (stores: seq<Store>, oks: seq<bool>)
    requires |environments| == |lines| == |crashes|
    ensures |stores| == |lines| + 1 && stores[0] == EMPTY_STORE && |oks| == |lines|
    ensures Outcomes(codec, environments, lines, crashes, stores, oks, |lines|)
    ensures forall i | 0 <= i <= |lines| && SwitchesAgree(codec, environments, lines, stores, i) ::
              Intact(codec, stores[i]) && WholeLayers(codec, Received(environments[..i]), stores[i])
  {
    hide SwitchAgrees, Outcome, Core, Intact, WholeLayers, Received, Deliveries, SwitchesAgree, AllSafe;
    stores, oks := [EMPTY_STORE], [];
    StartsSafe(codec, environments, lines);
    for n := 0 to |lines|
      invariant |stores| == n + 1 && stores[0] == EMPTY_STORE && |oks| == n
      invariant Outcomes(codec, environments, lines, crashes, stores, oks, n)
      invariant AllSafe(codec, environments, lines, stores)
    {
      ReceivedNext(environments, n);
      ghost var claim := WholeFrom(Received(environments[..n + 1]));
      var after, ok := RunSession(codec, environments[n], stores[n], lines[n], crashes[n], claim);
      StillAllSafe(codec, environments, lines, stores, after, n);
      stores, oks := stores + [after], oks + [ok];
    }
    SafeAndWhole(codec, environments, lines, stores);
  }

  /** The store before each command is safe, if the switches up to there were answered as asked. */
  ghost predicate AllSafe(codec: Codec, environments: seq<Environment>, lines: seq<CommandLine>, stores: seq<Store>)
    requires |environments| == |lines| && |stores| <= |lines| + 1
  {
    forall i | 0 <= i < |stores| && SwitchesAgree(codec, environments, lines, stores, i) ::
      SafeStore(codec, stores[i], WholeFrom(Received(environments[..i])))
  }

  lemma SafeAndWhole(codec: Codec, environments: seq<Environment>, lines: seq<CommandLine>, stores: seq<Store>)
    requires |environments| == |lines| && |stores| <= |lines| + 1 && AllSafe(codec, environments, lines, stores)
    ensures forall i | 0 <= i < |stores| && SwitchesAgree(codec, environments, lines, stores, i) ::
              Intact(codec, stores[i]) && WholeLayers(codec, Received(environments[..i]), stores[i])
  {
    hide Intact, WholeLayers, SwitchesAgree, Received;
  }

  lemma StartsSafe(codec: Codec, environments: seq<Environment>, lines: seq<CommandLine>)
    requires |environments| == |lines|
    ensures AllSafe(codec, environments, lines, [EMPTY_STORE])
  {
    EmptyStoreIsSafe(codec, WholeFrom(Received(environments[..0])));
    hide SafeStore, SwitchAgrees, Received;
  }

  lemma StillAllSafe(codec: Codec, environments: seq<Environment>, lines: seq<CommandLine>, stores: seq<Store>,
                     after: Store, n: nat)
    requires |environments| == |lines| && n < |lines| && |stores| == n + 1
    requires AllSafe(codec, environments, lines, stores)
    requires SafeStore(codec, stores[n], WholeFrom(Received(environments[..n + 1])))
             && SwitchAgrees(codec, environments[n].serve, 0, stores[n], lines[n]) ==>
               SafeStore(codec, after, WholeFrom(Received(environments[..n + 1])))
    ensures AllSafe(codec, environments, lines, stores + [after])
  {
    hide SafeStore, SwitchAgrees, Received;
    ReceivedNext(environments, n);
    var before, more := Received(environments[..n]), Received(environments[..n + 1]);
    if SafeStore(codec, stores[n], WholeFrom(before)) {
      MoreIsClaimed(codec, stores[n], before, more);
    }
    var longer := stores + [after];
    forall i | 0 <= i <= n + 1 && SwitchesAgree(codec, environments, lines, longer, i)
      ensures SafeStore(codec, longer[i], WholeFrom(Received(environments[..i])))
    {
      SwitchesAgreed(codec, environments, lines, stores, after, i);
      if i == n + 1 {
        SwitchesAgreed(codec, environments, lines, stores, after, n);
        assert SwitchAgrees(codec, environments[n].serve, 0, longer[n], lines[n]);
      }
    }
  }

  lemma SwitchesAgreed(codec: Codec, environments: seq<Environment>, lines: seq<CommandLine>, stores: seq<Store>,
                       after: Store, n: nat)
    requires n <= |lines| && |environments| == |lines| && n <= |stores| + 1
    ensures n <= |stores| && SwitchesAgree(codec, environments, lines, stores + [after], n) ==>
              SwitchesAgree(codec, environments, lines, stores, n)
    ensures forall i | 0 <= i < n && i < |stores| && SwitchesAgree(codec, environments, lines, stores + [after], n) ::
              SwitchesAgree(codec, environments, lines, stores + [after], i)
  {
    hide SwitchAgrees;
    var longer := stores + [after];
    forall i | 0 <= i < |stores| ensures longer[i] == stores[i] {
    }
  }

  lemma EmptyStoreIsSafe(codec: Codec, claim: Claim)
    ensures SafeStore(codec, EMPTY_STORE, claim)
  {
  }

  lemma MoreIsClaimed(codec: Codec, s: Store, received: iset<Delivery>, more: iset<Delivery>)
    requires SafeStore(codec, s, WholeFrom(received)) && received <= more
    ensures SafeStore(codec, s, WholeFrom(more))
  {
    hide WholeLayer;
    forall digest | digest in s.layers ensures WholeLayer(codec, more, digest, s.layers[digest]) {
      MoreReceived(codec, received, more, digest, s.layers[digest]);
    }
  }

  /** After any such history, a run never fails for a missing manifest or layer: its command line
      is built exactly for installed containers that bring a layer, and a command to run. */
  method RunAfterSessions(codec: Codec, environments: seq<Environment>, lines: seq<CommandLine>,
                          crashes: seq<Option<nat>>, root: string, containers: seq<string>, command: seq<string>)
    returns (stores: seq<Store>, oks: seq<bool>, bwrap: Option<seq<string>>)
    requires |environments| == |lines| == |crashes|
    ensures |stores| == |lines| + 1 && stores[0] == EMPTY_STORE && |oks| == |lines|
    ensures Outcomes(codec, environments, lines, crashes, stores, oks, |lines|)
    ensures bwrap == BwrapCommand(codec, root, stores[|lines|], containers, command)
    ensures SwitchesAgree(codec, environments, lines, stores, |lines|) ==>
              (bwrap.Some? <==>
                 && containers != [] && command != []
                 && (forall c | c in containers :: c in stores[|lines|].containers)
                 && exists c :: c in containers && LayersOf(codec, stores[|lines|], c) != [])
  {
    hide Intact, WholeLayers, BwrapCommand, WithLocks, StackedLayers, LayersOf, Outcomes, SwitchesAgree;
    stores, oks := RunSessions(codec, environments, lines, crashes);
    var final := stores[|lines|];
    var storage := new Storage(root, codec, final);
    bwrap := storage.BuildBwrapCommand(containers, command);
    if Intact(codec, final) {
      IntactStoreRuns(codec, root, final, containers, command);
    }
  }

  /** From any store at all: a repair that reaches its check, then a prune that succeeds, leave an
      intact store. Without hypotheses on the registry this takes a check that found nothing. */
  method RepairAndPrune(codec: Codec, first: Environment, second: Environment, left: Store)
    returns (checked: RepairResult, pruned: Option<PruneCount>, final: Store)
    ensures checked.Checked? && pruned.Some?
            && ((AllRestorable(codec, first.serve, left) && NoCollisions(codec, first.serve, left))
                || checked == Checked(0, 0)) ==>
              Intact(codec, final)
  {
    hide AllRestorable, NoCollisions, AllIntact, SafeStore, FollowsProtocol, OneOf, AllSwept, Swept, AllUsesIntact,
         UsedManifests, UsedLayers, Intact, DefectCounts, IntactUse;
    var storage := new StorageMutable(codec, first.faults, first.readLocked, left);
    var client := new RegistryClient(codec, first.serve, first.requestSizes);
    if NoCollisions(codec, first.serve, left) {
      CollisionsIgnoreTemporary(codec, first.serve, left);
    }
    if AllRestorable(codec, first.serve, left) {
      AnswersIgnoreTemporary(codec, first.serve, left);
    }
    checked := Repair(storage, client, map[], IntactOnly);
    var repaired := storage.disk;
    var again := new StorageMutable(codec, second.faults, second.readLocked, repaired);
    ghost var s := again.disk;
    pruned := Prune(again, {});
    final := again.disk;
    if checked.Checked? && pruned.Some? {
      if AllUsesIntact(codec, repaired, repaired.containers.Keys) {
        UsesIgnoreTemporary(codec, repaired);
        RepairThenPrune(codec, s, final);
      } else if checked == Checked(0, 0) {
        SameCounts(codec, repaired, s);
        CleanCheckThenPrune(codec, s, final);
      }
    }
  }

  lemma CollisionsIgnoreTemporary(codec: Codec, serve: Registry, s: Store)
    requires NoCollisions(codec, serve, s)
    ensures NoCollisions(codec, serve, Core(s))
  {
    hide IsServed, NoCollision;
    assert forall digest, bytes :: IsDocument(serve, Core(s), digest, bytes) <==> IsDocument(serve, s, digest, bytes);
  }

  lemma AnswersIgnoreTemporary(codec: Codec, serve: Registry, s: Store)
    requires AllRestorable(codec, serve, s)
    ensures AllRestorable(codec, serve, Core(s))
  {
    hide FetchedAt;
    forall n, c | c in s.containers ensures IsRestorable(codec, serve, n, Core(s), c) {
      assert IsRestorable(codec, serve, n, s, c);
    }
  }

  lemma UsesIgnoreTemporary(codec: Codec, s: Store)
    requires AllUsesIntact(codec, s, s.containers.Keys)
    ensures AllUsesIntact(codec, Core(s), Core(s).containers.Keys)
  {
    forall c | c in s.containers ensures IntactUse(codec, Core(s), c) {
      assert IntactUse(codec, s, c);
    }
  }

  lemma SameCounts(codec: Codec, s: Store, t: Store)
    requires t == Core(s)
    ensures DefectCounts(codec, t) == DefectCounts(codec, s)
  {
    hide Verifies;
    assert forall d :: MissingFor(codec, t, d) == MissingFor(codec, s, d);
    assert InvalidManifests(codec, t, t.manifests.Keys) == InvalidManifests(codec, s, s.manifests.Keys);
    assert MissingLayers(codec, t, t.manifests.Keys) == MissingLayers(codec, s, s.manifests.Keys);
  }
}

/** The command line that runs a stack of layers, and what bwrap makes of it. */
module CommandLines {
  import opened Wrappers
  import opened Stores
  import opened Bubblewrap

  const LAYER_LOCKS_DIR := "/tmp/.layer_locks"

  function LayerPath(root: string, digest: string): string {
    root + "/layers/" + digest
  }

  function LockPath(root: string, digest: string): string {
    root + "/locks/layers/" + digest
  }

  function Decimal(n: nat): string {
    if n < 10 then ['0' + n as char] else Decimal(n / 10) + ['0' + (n % 10) as char]
  }

  function SandboxLock(index: nat): string {
    LAYER_LOCKS_DIR + "/" + Decimal(index)
  }

  function OverlaySources(root: string, layers: seq<Descriptor>): seq<string> {
    if layers == [] then []
    else OverlaySources(root, layers[..|layers| - 1])
         + ["--overlay-src", LayerPath(root, layers[|layers| - 1].digest)]
  }

  function LockMount(root: string, layer: Descriptor, index: nat): seq<string> {
    ["--ro-bind", LockPath(root, layer.digest), SandboxLock(index), "--lock-file", SandboxLock(index)]
  }

  function LockMounts(root: string, layers: seq<Descriptor>): seq<string> {
    if layers == [] then []
    else LockMounts(root, layers[..|layers| - 1]) + LockMount(root, layers[|layers| - 1], |layers| - 1)
  }

  function RootMount(root: string, layers: seq<Descriptor>): seq<string>
    requires layers != []
  {
    if |layers| == 1 then ["--ro-bind", LayerPath(root, layers[0].digest), "/"]
    else OverlaySources(root, layers) + ["--ro-overlay", "/"]
  }

  const OPENING: seq<string> := ["--clearenv", "--unshare-all"]
  const MOUNTS: seq<string> := ["--proc", "/proc", "--dev", "/dev", "--tmpfs", "/tmp", "--dir", LAYER_LOCKS_DIR]

  function Options(root: string, layers: seq<Descriptor>): seq<string>
    requires layers != []
  {
    OPENING + RootMount(root, layers) + MOUNTS + LockMounts(root, layers)
  }

  function Arguments(root: string, layers: seq<Descriptor>, command: seq<string>): seq<string>
    requires layers != []
  {
    Options(root, layers) + command
  }

  /** The number that decimal digits stand for. */
  function DecimalValue(digits: string): nat {
    if digits == "" then 0
    else
      var digit := digits[|digits| - 1];
      10 * DecimalValue(digits[..|digits| - 1]) + if '0' <= digit <= '9' then (digit - '0') as nat else 0
  }

  /** Indices are printed in decimal, without leading zeros. */
  lemma {:induction false} DecimalReads(n: nat)
    ensures DecimalValue(Decimal(n)) == n
    ensures Decimal(n) != "" && forall i | 0 <= i < |Decimal(n)| :: '0' <= Decimal(n)[i] <= '9'
    ensures n > 0 ==> Decimal(n)[0] != '0'
    decreases n
  {
    if n >= 10 {
      DecimalReads(n / 10);
      assert Decimal(n)[..|Decimal(n)| - 1] == Decimal(n / 10);
    } else {
      assert Decimal(n)[..|Decimal(n)| - 1] == "";
    }
  }

  lemma {:induction false} LockMountsAt(root: string, layers: seq<Descriptor>, i: nat)
    requires i < |layers|
    ensures |LockMounts(root, layers)| == 5 * |layers|
    ensures LockMounts(root, layers)[5 * i..5 * i + 5] == LockMount(root, layers[i], i)
    decreases |layers|
  {
    var front := layers[..|layers| - 1];
    if i < |front| {
      LockMountsAt(root, front, i);
      assert LockMounts(root, layers)[..|LockMounts(root, front)|] == LockMounts(root, front);
    } else if front != [] {
      LockMountsAt(root, front, 0);
    }
  }

  /** The arguments end with one lock mount for each layer, in index order, and with the command. */
  lemma LockMountAt(root: string, layers: seq<Descriptor>, command: seq<string>, i: nat)
    requires i < |layers|
    ensures var arguments, name := Arguments(root, layers, command), "/tmp/.layer_locks/" + Decimal(i);
            var first := |arguments| - |command| - 5 * |layers|;
            && 0 <= first && arguments[first + 5 * |layers|..] == command
            && arguments[first + 5 * i..first + 5 * i + 5]
               == ["--ro-bind", root + "/locks/layers/" + layers[i].digest, name, "--lock-file", name]
  {
    LockMountsAt(root, layers, i);
    hide RootMount, LockMounts, Decimal;
    var before := OPENING + RootMount(root, layers) + MOUNTS;
    var mounts := LockMounts(root, layers);
    assert Arguments(root, layers, command) == before + mounts + command;
    assert (before + mounts + command)[|before| + 5 * i..|before| + 5 * i + 5] == mounts[5 * i..5 * i + 5];
    assert LAYER_LOCKS_DIR + "/" == "/tmp/.layer_locks/";
  }

  lemma SandboxLockInjective(i: nat, j: nat)
    ensures SandboxLock(i) == SandboxLock(j) ==> i == j
    ensures !IsHidden(SandboxLock(i), SandboxLock(j)) || i == j
  {
    var prefix := LAYER_LOCKS_DIR + "/";
    assert SandboxLock(i)[|prefix|..] == Decimal(i) && SandboxLock(j)[|prefix|..] == Decimal(j);
    DecimalReads(i);
    DecimalReads(j);
    var n := |SandboxLock(i)|;
    if n < |SandboxLock(j)| {
      assert SandboxLock(j)[n] == Decimal(j)[n - |prefix|];
      assert (SandboxLock(i) + "/")[n] == '/';
    }
  }

  // ----- What bwrap reads -----

  function LayerPaths(root: string, layers: seq<Descriptor>): seq<string> {
    seq(|layers|, i requires 0 <= i < |layers| => LayerPath(root, layers[i].digest))
  }

  lemma OpeningIsRead(rest: seq<string>)
    ensures Read(OPENING + rest, NO_SETUP) == Read(rest, NO_SETUP.(cleared := true, unshared := true))
  {
    assert OPENING + rest == ["--clearenv"] + (["--unshare-all"] + rest);
    ReadFlag("--clearenv", ["--unshare-all"] + rest, NO_SETUP);
    ReadFlag("--unshare-all", rest, NO_SETUP.(cleared := true));
  }

  lemma {:induction false} SourcesAreRead(root: string, layers: seq<Descriptor>, rest: seq<string>, setup: Setup)
    ensures Read(OverlaySources(root, layers) + rest, setup)
            == Read(rest, setup.(sources := setup.sources + LayerPaths(root, layers)))
    decreases |layers|
  {
    hide LayerPath, Read;
    if layers == [] {
      assert OverlaySources(root, layers) + rest == rest;
      assert setup.sources + LayerPaths(root, layers) == setup.sources;
    } else {
      var front, path := layers[..|layers| - 1], LayerPath(root, layers[|layers| - 1].digest);
      var more := ["--overlay-src", path] + rest;
      assert OverlaySources(root, layers) + rest == OverlaySources(root, front) + more;
      SourcesAreRead(root, front, more, setup);
      var found := setup.(sources := setup.sources + LayerPaths(root, front));
      ReadValue("--overlay-src", path, rest, found);
      assert found.sources + [path] == setup.sources + LayerPaths(root, layers);
    }
  }

  function RootOf(root: string, layers: seq<Descriptor>): Mount
    requires layers != []
  {
    if |layers| == 1 then Bound(LayerPath(root, layers[0].digest)) else Overlaid(LayerPaths(root, layers))
  }

  lemma RootIsRead(root: string, layers: seq<Descriptor>, rest: seq<string>, setup: Setup)
    requires layers != [] && setup.sources == []
    ensures Read(RootMount(root, layers) + rest, setup) == Read(rest, Mounted(setup, "/", RootOf(root, layers)))
  {
    hide Read, LayerPath;
    if |layers| == 1 {
      ReadBind(LayerPath(root, layers[0].digest), "/", rest, setup);
    } else {
      var more := ["--ro-overlay", "/"] + rest;
      assert RootMount(root, layers) + rest == OverlaySources(root, layers) + more;
      SourcesAreRead(root, layers, more, setup);
      var found := setup.(sources := LayerPaths(root, layers));
      assert setup.sources + LayerPaths(root, layers) == LayerPaths(root, layers);
      ReadValue("--ro-overlay", "/", rest, found);
      assert Overlaying(found, "/") == Mounted(setup, "/", RootOf(root, layers));
    }
  }

  function AfterMounts(setup: Setup): Setup {
    Mounted(Mounted(Mounted(setup, "/proc", Proc), "/dev", Dev), "/tmp", Tmpfs)
      .(directories := setup.directories + {LAYER_LOCKS_DIR})
  }

  lemma MountsAreRead(rest: seq<string>, setup: Setup)
    ensures Read(MOUNTS + rest, setup) == Read(rest, AfterMounts(setup))
  {
    hide Read;
    var fourth := ["--dir", LAYER_LOCKS_DIR] + rest;
    var third := ["--tmpfs", "/tmp"] + fourth;
    var second := ["--dev", "/dev"] + third;
    assert MOUNTS + rest == ["--proc", "/proc"] + second;
    var one := Mounted(setup, "/proc", Proc);
    var two := Mounted(one, "/dev", Dev);
    var three := Mounted(two, "/tmp", Tmpfs);
    ReadValue("--proc", "/proc", second, setup);
    ReadValue("--dev", "/dev", third, one);
    ReadValue("--tmpfs", "/tmp", fourth, two);
    ReadValue("--dir", LAYER_LOCKS_DIR, rest, three);
  }

  function AfterLock(root: string, layer: Descriptor, index: nat, setup: Setup): Setup {
    Mounted(setup, SandboxLock(index), Bound(LockPath(root, layer.digest)))
      .(locks := setup.locks + [SandboxLock(index)])
  }

  function AfterLocks(root: string, layers: seq<Descriptor>, setup: Setup): Setup {
    if layers == [] then setup
    else AfterLock(root, layers[|layers| - 1], |layers| - 1, AfterLocks(root, layers[..|layers| - 1], setup))
  }

  lemma {:induction false} LocksAreRead(root: string, layers: seq<Descriptor>, rest: seq<string>, setup: Setup)
    ensures Read(LockMounts(root, layers) + rest, setup) == Read(rest, AfterLocks(root, layers, setup))
    decreases |layers|
  {
    hide Read, LockPath, SandboxLock, Mounted;
    if layers == [] {
      assert LockMounts(root, layers) + rest == rest;
    } else {
      var front, last, n := layers[..|layers| - 1], layers[|layers| - 1], |layers| - 1;
      var lock := ["--lock-file", SandboxLock(n)] + rest;
      var more := ["--ro-bind", LockPath(root, last.digest), SandboxLock(n)] + lock;
      assert LockMounts(root, layers) + rest == LockMounts(root, front) + more;
      var before := AfterLocks(root, front, setup);
      LocksAreRead(root, front, more, setup);
      MountedOnly(before, SandboxLock(n), Bound(LockPath(root, last.digest)));
      ReadBind(LockPath(root, last.digest), SandboxLock(n), lock, before);
      var mounted := Mounted(before, SandboxLock(n), Bound(LockPath(root, last.digest)));
      ReadValue("--lock-file", SandboxLock(n), rest, mounted);
    }
  }

  lemma MountedOnly(setup: Setup, target: string, mount: Mount)
    ensures Mounted(setup, target, mount) == setup.(mounts := Mounted(setup, target, mount).mounts)
  {
  }

  function LockNames(n: nat): seq<string> {
    seq(n, i requires 0 <= i < n => SandboxLock(i))
  }

  lemma {:induction false} LocksAreNamed(root: string, layers: seq<Descriptor>, setup: Setup)
    ensures var after := AfterLocks(root, layers, setup);
            after == setup.(mounts := after.mounts, locks := setup.locks + LockNames(|layers|))
    decreases |layers|
  {
    if layers == [] {
      assert setup.locks + LockNames(|layers|) == setup.locks;
    } else {
      var front, n := layers[..|layers| - 1], |layers| - 1;
      LocksAreNamed(root, front, setup);
      hide LockPath, SandboxLock, AfterLocks;
      OneMoreLock(root, layers, setup);
      assert LockNames(n) + [SandboxLock(n)] == LockNames(n + 1);
    }
  }

  /** The lock files are all bound, at paths of their own. */
  lemma {:induction false} LocksAreBound(root: string, layers: seq<Descriptor>, setup: Setup, i: nat)
    requires i < |layers|
    ensures IsBound(AfterLocks(root, layers, setup), SandboxLock(i), LockPath(root, layers[i].digest))
    decreases |layers|
  {
    var front, n := layers[..|layers| - 1], |layers| - 1;
    OneMoreLock(root, layers, setup);
    if i < n {
      LocksAreBound(root, front, setup, i);
      SandboxLockInjective(n, i);
      hide LockPath, SandboxLock, AfterLocks, IsHidden;
    }
  }

  /** They hide none of the usual mounts. */
  lemma {:induction false} LocksHideNothing(root: string, layers: seq<Descriptor>, setup: Setup, path: string)
    requires path in setup.mounts && |path| <= 5
    ensures path in AfterLocks(root, layers, setup).mounts
    ensures AfterLocks(root, layers, setup).mounts[path] == setup.mounts[path]
    decreases |layers|
  {
    if layers != [] {
      LocksHideNothing(root, layers[..|layers| - 1], setup, path);
      LongName(|layers| - 1);
      OneMoreLock(root, layers, setup);
      hide LockPath, SandboxLock, AfterLocks, IsHidden;
    }
  }

  lemma OneMoreLock(root: string, layers: seq<Descriptor>, setup: Setup)
    requires layers != []
    ensures AfterLocks(root, layers, setup)
            == AfterLock(root, layers[|layers| - 1], |layers| - 1, AfterLocks(root, layers[..|layers| - 1], setup))
  {
  }

  predicate IsBound(setup: Setup, target: string, source: string) {
    target in setup.mounts && setup.mounts[target] == Bound(source)
  }

  lemma LongName(index: nat)
    ensures |SandboxLock(index)| > 5 && forall path | |path| <= 5 :: !IsHidden(SandboxLock(index), path)
  {
  }

  lemma {:induction false} NoBareDashes(root: string, layers: seq<Descriptor>)
    ensures "--" !in OverlaySources(root, layers) && "--" !in LockMounts(root, layers)
    decreases |layers|
  {
    if layers != [] {
      NoBareDashes(root, layers[..|layers| - 1]);
      LongPaths(root, layers[|layers| - 1].digest);
      LongName(|layers| - 1);
      hide SandboxLock, LayerPath, LockPath, IsHidden;
    }
  }

  lemma LongPaths(root: string, digest: string)
    ensures |LayerPath(root, digest)| > 5 && |LockPath(root, digest)| > 5
  {
  }

  lemma NoBareDashesInOptions(root: string, layers: seq<Descriptor>)
    requires layers != []
    ensures "--" !in Options(root, layers)
  {
    NoBareDashes(root, layers);
    LongPaths(root, layers[0].digest);
    hide OverlaySources, LockMounts, LayerPath;
    assert "--" !in RootMount(root, layers);
    assert "--" !in OPENING && "--" !in MOUNTS;
  }

  lemma NamesApart()
    ensures !IsHidden("/proc", "/") && !IsHidden("/dev", "/") && !IsHidden("/tmp", "/")
    ensures !IsHidden("/dev", "/proc") && !IsHidden("/tmp", "/proc") && !IsHidden("/tmp", "/dev")
  {
    var proc, dev, tmp := "/proc", "/dev", "/tmp";
    assert proc[1] == 'p' && dev[1] == 'd' && tmp[1] == 't';
    assert (dev + "/")[1] == 'd' && (tmp + "/")[1] == 't';
  }

  lemma UsualMounts(setup: Setup, mount: Mount)
    requires setup.mounts == map[]
    ensures AfterMounts(Mounted(setup, "/", mount)).mounts
            == map["/" := mount, "/proc" := Proc, "/dev" := Dev, "/tmp" := Tmpfs]
    ensures var after := AfterMounts(Mounted(setup, "/", mount));
            && after.cleared == setup.cleared && after.unshared == setup.unshared && after.locks == setup.locks
            && after.directories == setup.directories + {LAYER_LOCKS_DIR}
  {
    NamesApart();
    hide IsHidden;
    var rooted := Mounted(setup, "/", mount);
    assert rooted.mounts == map["/" := mount];
    assert Mounted(rooted, "/proc", Proc).mounts == map["/" := mount, "/proc" := Proc];
  }

  lemma RootIsOf(root: string, layers: seq<Descriptor>, setup: Setup)
    requires layers != [] && "/" in setup.mounts && setup.mounts["/"] == RootOf(root, layers)
    ensures RootSources(setup) == LayerPaths(root, layers)
  {
    hide LayerPath;
  }

  /** What bwrap sets up from the options: an empty environment and namespaces of its own, the layers
      of the stack at the root, bottom first, the usual mounts, and read locks on the lock files of
      all layers, in order. */
  lemma OptionsAreRead(root: string, layers: seq<Descriptor>)
    requires layers != []
    ensures "--" !in Options(root, layers)
    ensures var read := Read(Options(root, layers), NO_SETUP);
            && read.Some? && read.value.command == []
            && var setup := read.value.setup;
               && setup.cleared && setup.unshared
               && RootSources(setup) == LayerPaths(root, layers)
               && LockedFiles(setup) == seq(|layers|, i requires 0 <= i < |layers| =>
                                          Some(LockPath(root, layers[i].digest)))
               && "/proc" in setup.mounts && setup.mounts["/proc"] == Proc
               && "/dev" in setup.mounts && setup.mounts["/dev"] == Dev
               && "/tmp" in setup.mounts && setup.mounts["/tmp"] == Tmpfs
               && setup.directories == {"/tmp/.layer_locks"}
  {
    NoBareDashesInOptions(root, layers);
    hide LockMounts, LockPath, LayerPath, SandboxLock, Options, Read, RootOf, LayerPaths, AfterMounts, Mounted,
         AfterLocks, RootSources, LockedFiles;
    var bare := NO_SETUP.(cleared := true, unshared := true);
    var mounted := AfterMounts(Mounted(bare, "/", RootOf(root, layers)));
    var setup := AfterLocks(root, layers, mounted);
    OptionsInTurn(root, layers);
    UsualMounts(bare, RootOf(root, layers));
    LocksAreNamed(root, layers, mounted);
    LocksHideNothing(root, layers, mounted, "/");
    LocksHideNothing(root, layers, mounted, "/proc");
    LocksHideNothing(root, layers, mounted, "/dev");
    LocksHideNothing(root, layers, mounted, "/tmp");
    RootIsOf(root, layers, setup);
    LocksAreFound(root, layers, mounted);
  }

  lemma LocksAreFound(root: string, layers: seq<Descriptor>, setup: Setup)
    requires setup.locks == []
    ensures LockedFiles(AfterLocks(root, layers, setup))
            == seq(|layers|, i requires 0 <= i < |layers| => Some(LockPath(root, layers[i].digest)))
  {
    hide LockPath, SandboxLock, AfterLocks;
    LocksAreNamed(root, layers, setup);
    var found := LockedFiles(AfterLocks(root, layers, setup));
    forall i | 0 <= i < |layers| ensures found[i] == Some(LockPath(root, layers[i].digest)) {
      LocksAreBound(root, layers, setup, i);
    }
  }

  lemma OptionsInTurn(root: string, layers: seq<Descriptor>)
    requires layers != []
    ensures var bare := NO_SETUP.(cleared := true, unshared := true);
            var mounted := AfterMounts(Mounted(bare, "/", RootOf(root, layers)));
            Read(Options(root, layers), NO_SETUP) == Some(Invocation(AfterLocks(root, layers, mounted), []))
  {
    hide LockMounts, RootMount, AfterMounts, AfterLocks, Mounted, RootOf;
    var bare := NO_SETUP.(cleared := true, unshared := true);
    var rooted := Mounted(bare, "/", RootOf(root, layers));
    var fourth := LockMounts(root, layers) + [];
    var third := MOUNTS + fourth;
    var second := RootMount(root, layers) + third;
    assert Options(root, layers) == OPENING + second;
    OpeningIsRead(second);
    RootIsRead(root, layers, third, bare);
    MountsAreRead(fourth, rooted);
    LocksAreRead(root, layers, [], AfterMounts(rooted));
  }

  // ----- Building it step by step -----

  lemma NoLockMounts(root: string, layers: seq<Descriptor>)
    ensures LockMounts(root, layers[..0]) == []
  {
  }

  lemma LockMountsNext(root: string, layers: seq<Descriptor>, i: nat)
    requires i < |layers|
    ensures LockMounts(root, layers[..i + 1])
            == LockMounts(root, layers[..i])
               + ["--ro-bind", LockPath(root, layers[i].digest), SandboxLock(i), "--lock-file", SandboxLock(i)]
  {
    assert layers[..i + 1][..i] == layers[..i];
  }

  lemma NoOverlaySources(root: string, layers: seq<Descriptor>)
    ensures OverlaySources(root, layers[..0]) == []
  {
  }

  lemma OverlaySourcesNext(root: string, layers: seq<Descriptor>, i: nat)
    requires i < |layers|
    ensures OverlaySources(root, layers[..i + 1])
            == OverlaySources(root, layers[..i]) + ["--overlay-src", LayerPath(root, layers[i].digest)]
  {
    assert layers[..i + 1][..i] == layers[..i];
  }
}

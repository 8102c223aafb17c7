/** How bwrap reads its arguments, and what it sets up from them. */
module Bubblewrap {
  import opened Wrappers

  datatype Mount = Bound(source: string) | Overlaid(sources: seq<string>) | Proc | Dev | Tmpfs

  /** What has been set up so far: `sources` wait for the next overlay, and the files named by
      `locks` are locked once everything is mounted. */
  datatype Setup = Setup(
    cleared: bool,
    unshared: bool,
    sources: seq<string>,
    mounts: map<string, Mount>,
    directories: set<string>,
    locks: seq<string>)

  const NO_SETUP: Setup := Setup(false, false, [], map[], {}, [])

  predicate IsHidden(target: string, path: string) {
    target == "/" || path == target || target + "/" <= path
  }

  /** A mount hides what is mounted at its target and below. */
  function Mounted(setup: Setup, target: string, mount: Mount): Setup {
    var kept := map path | path in setup.mounts && !IsHidden(target, path) :: setup.mounts[path];
    setup.(mounts := kept[target := mount])
  }

  function Overlaying(setup: Setup, target: string): Setup {
    Mounted(setup, target, Overlaid(setup.sources)).(sources := [])
  }

  function Flagged(setup: Setup, option: string): Option<Setup> {
    if option == "--clearenv" then Some(setup.(cleared := true))
    else if option == "--unshare-all" then Some(setup.(unshared := true))
    else None
  }

  function WithValue(setup: Setup, option: string, value: string): Option<Setup> {
    if option == "--overlay-src" then Some(setup.(sources := setup.sources + [value]))
    else if option == "--ro-overlay" then Some(Overlaying(setup, value))
    else if option == "--proc" then Some(Mounted(setup, value, Proc))
    else if option == "--dev" then Some(Mounted(setup, value, Dev))
    else if option == "--tmpfs" then Some(Mounted(setup, value, Tmpfs))
    else if option == "--dir" then Some(setup.(directories := setup.directories + {value}))
    else if option == "--lock-file" then Some(setup.(locks := setup.locks + [value]))
    else None
  }

  /** The setup, and the command to run in it. */
  datatype Invocation = Invocation(setup: Setup, command: seq<string>)

  predicate IsOption(argument: string) {
    "-" <= argument
  }

  /** Options come first; the command starts at the first argument that is none, or after `--`. */
  function Read(arguments: seq<string>, setup: Setup): Option<Invocation> {
    if arguments == [] || !IsOption(arguments[0]) then Some(Invocation(setup, arguments))
    else if arguments[0] == "--" then Some(Invocation(setup, arguments[1..]))
    else if Flagged(setup, arguments[0]).Some? then Read(arguments[1..], Flagged(setup, arguments[0]).value)
    else if |arguments| >= 2 && WithValue(setup, arguments[0], arguments[1]).Some? then
      Read(arguments[2..], WithValue(setup, arguments[0], arguments[1]).value)
    else if |arguments| >= 3 && arguments[0] == "--ro-bind" then
      Read(arguments[3..], Mounted(setup, arguments[2], Bound(arguments[1])))
    else None
  }

  /** Where the root comes from: one directory, or several that are overlaid, bottom first. */
  function RootSources(setup: Setup): seq<string> {
    if "/" !in setup.mounts then []
    else match setup.mounts["/"]
      case Bound(source) => [source]
      case Overlaid(sources) => sources
      case _ => []
  }

  /** The files outside the sandbox that are locked; none where a name leads to no bound file. */
  function LockedFiles(setup: Setup): seq<Option<string>> {
    seq(|setup.locks|, i requires 0 <= i < |setup.locks| =>
      if setup.locks[i] in setup.mounts && setup.mounts[setup.locks[i]].Bound? then
        Some(setup.mounts[setup.locks[i]].source)
      else None)
  }

  lemma ReadFlag(option: string, rest: seq<string>, setup: Setup)
    requires IsOption(option) && option != "--" && Flagged(setup, option).Some?
    ensures Read([option] + rest, setup) == Read(rest, Flagged(setup, option).value)
  {
    assert ([option] + rest)[1..] == rest;
  }

  lemma ReadValue(option: string, value: string, rest: seq<string>, setup: Setup)
    requires IsOption(option) && option != "--" && Flagged(setup, option).None?
    requires WithValue(setup, option, value).Some?
    ensures Read([option, value] + rest, setup) == Read(rest, WithValue(setup, option, value).value)
  {
    assert ([option, value] + rest)[2..] == rest;
  }

  lemma ReadBind(source: string, target: string, rest: seq<string>, setup: Setup)
    ensures Read(["--ro-bind", source, target] + rest, setup) == Read(rest, Mounted(setup, target, Bound(source)))
  {
    assert (["--ro-bind", source, target] + rest)[3..] == rest;
  }

  /** Options that are read up to their end are read the same in front of more arguments. */
  lemma {:induction false} ReadInFront(options: seq<string>, more: seq<string>, setup: Setup)
    requires Read(options, setup).Some? && Read(options, setup).value.command == [] && "--" !in options
    ensures Read(options + more, setup) == Read(more, Read(options, setup).value.setup)
    decreases |options|
  {
    var all := options + more;
    if options == [] {
      assert all == more;
    } else {
      assert all[0] == options[0];
      if Flagged(setup, options[0]).Some? {
        assert all[1..] == options[1..] + more;
        ReadInFront(options[1..], more, Flagged(setup, options[0]).value);
      } else if |options| >= 2 && WithValue(setup, options[0], options[1]).Some? {
        assert all[1] == options[1] && all[2..] == options[2..] + more;
        ReadInFront(options[2..], more, WithValue(setup, options[0], options[1]).value);
      } else {
        assert all[1] == options[1] && all[2] == options[2] && all[3..] == options[3..] + more;
        NoValue(setup, options[1]);
        ReadInFront(options[3..], more, Mounted(setup, options[2], Bound(options[1])));
      }
    }
  }

  lemma NoValue(setup: Setup, value: string)
    ensures WithValue(setup, "--ro-bind", value).None? && Flagged(setup, "--ro-bind").None?
  {
  }

  /** A command is run as it is given if and only if its first word does not begin like an option. */
  lemma CommandIsRun(options: seq<string>, command: seq<string>, setup: Setup)
    requires Read(options, setup).Some? && Read(options, setup).value.command == [] && "--" !in options
    requires command != []
    ensures !IsOption(command[0]) <==>
              Read(options + command, setup) == Some(Invocation(Read(options, setup).value.setup, command))
  {
    ReadInFront(options, command, setup);
    var ready := Read(options, setup).value.setup;
    if IsOption(command[0]) && Read(command, ready).Some? {
      CommandIsShorter(command, ready);
    }
  }

  lemma {:induction false} CommandIsShorter(arguments: seq<string>, setup: Setup)
    requires arguments != [] && IsOption(arguments[0]) && Read(arguments, setup).Some?
    ensures |Read(arguments, setup).value.command| < |arguments|
    decreases |arguments|
  {
    if arguments[0] != "--" {
      var next :=
        if Flagged(setup, arguments[0]).Some? then (arguments[1..], Flagged(setup, arguments[0]).value)
        else if WithValue(setup, arguments[0], arguments[1]).Some? then
          (arguments[2..], WithValue(setup, arguments[0], arguments[1]).value)
        else (arguments[3..], Mounted(setup, arguments[2], Bound(arguments[1])));
      assert Read(arguments, setup) == Read(next.0, next.1);
      if next.0 != [] && IsOption(next.0[0]) {
        CommandIsShorter(next.0, next.1);
      }
    }
  }
}

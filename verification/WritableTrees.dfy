/** Making a tree of files writable by its owner, so that it can be removed. */
module WritableTrees {
  import opened Wrappers
  import opened LayerTree

  datatype Permission = OwnerRead | OwnerWrite | OwnerExecute | OtherBit(bit: nat)

  type Mode = set<Permission>

  /** The target of a link starts at the directory that the link lies in, or at the root. */
  datatype Entry = FileEntry(mode: Mode) | LinkEntry(target: Path, relative: bool) | DirectoryEntry(mode: Mode)

  /** A file system; a link is an entry of its own. */
  type Entries = map<Path, Entry>

  predicate ValidEntries(t: Entries) {
    forall p | p in t && p != [] :: Parent(p) in t && t[Parent(p)].DirectoryEntry?
  }

  const DIRECTORY_BITS: Mode := {OwnerRead, OwnerWrite, OwnerExecute}
  const FILE_BITS: Mode := {OwnerRead, OwnerWrite}

  function Writable(entry: Entry): Entry {
    match entry
    case FileEntry(mode) => FileEntry(mode + FILE_BITS)
    case LinkEntry(_, _) => entry
    case DirectoryEntry(mode) => DirectoryEntry(mode + DIRECTORY_BITS)
  }

  /** The entries with those at `paths` made writable. */
  function MadeWritable(t: Entries, paths: set<Path>): Entries {
    map p | p in t :: if p in paths then Writable(t[p]) else t[p]
  }

  function Below(t: Entries, root: Path): set<Path> {
    set p | p in t && root <= p
  }

  function Children(t: Entries, directory: Path): set<Path> {
    set p | p in t && p != [] && Parent(p) == directory
  }

  // ----- Resolving paths -----

  /** How many links a path may lead through. */
  const MAX_LINKS: nat := 40

  /** Where a path leads from a directory, through links, the last one included. */
  function Follow(t: Entries, directory: Path, names: Path, links: nat): Option<Path>
    decreases links, |names|
  {
    if names == [] then Some(directory)
    else
      var next := directory + [names[0]];
      if !Searchable(t, directory) || next !in t then None
      else match t[next]
        case FileEntry(_) => if |names| == 1 then Some(next) else None
        case DirectoryEntry(_) => Follow(t, next, names[1..], links)
        case LinkEntry(target, relative) =>
          if links == 0 then None else Follow(t, if relative then directory else [], target + names[1..], links - 1)
  }

  /** Where a path leads, through links, but not the last one. */
  function Locate(t: Entries, path: Path): (place: Option<Path>)
    ensures place.Some? ==> place.value in t
  {
    if path == [] then if [] in t then Some([]) else None
    else match Follow(t, [], Parent(path), MAX_LINKS)
      case None => None
      case Some(directory) =>
        if Searchable(t, directory) && directory + [Leaf(path)] in t then Some(directory + [Leaf(path)]) else None
  }

  lemma PrefixIsSearchable(t: Entries, prefix: Path, path: Path)
    requires prefix <= path && prefix != path && (CanReach(t, prefix, path) || CanReach(t, [], path))
    ensures Searchable(t, prefix)
  {
    assert path[..|prefix|] == prefix;
  }

  /** Below a place that a path leads to, names lead straight on. */
  lemma {:induction false} FollowOn(t: Entries, directory: Path, names: Path, more: Path, links: nat, place: Path)
    requires Follow(t, directory, names, links) == Some(place)
    requires CanReach(t, place, place + more)
    requires more != [] ==> place + more in t && !t[place + more].LinkEntry?
    ensures Follow(t, directory, names + more, links) == Some(place + more)
    decreases links, |names|
  {
    if more != [] {
      PrefixIsSearchable(t, place, place + more);
    }
    if names == [] {
      assert names + more == more;
      FollowStraight(t, place, more, links);
    } else {
      var next := directory + [names[0]];
      var both := names + more;
      assert both[0] == names[0] && both[1..] == names[1..] + more;
      match t[next]
      case FileEntry(_) =>
        if more == [] {
          assert both == names && place + more == place;
        }
      case DirectoryEntry(_) => FollowOn(t, next, names[1..], more, links, place);
      case LinkEntry(target, relative) =>
        assert target + both[1..] == target + names[1..] + more;
        FollowOn(t, if relative then directory else [], target + names[1..], more, links - 1, place);
    }
  }

  lemma {:induction false} FollowStraight(t: Entries, place: Path, more: Path, links: nat)
    requires CanReach(t, place, place + more)
    requires more != [] ==> place + more in t && !t[place + more].LinkEntry?
    ensures Follow(t, place, more, links) == Some(place + more)
    decreases |more|
  {
    if more == [] {
      assert place + more == place;
    } else {
      var path, next := place + more, place + [more[0]];
      assert path[..|place|] == place && path[..|next|] == next && next + more[1..] == path;
      assert Searchable(t, path[..|place|]);
      if |more| > 1 {
        assert Searchable(t, path[..|next|]);
        forall n | |next| <= n < |path| ensures Searchable(t, path[..n]) {
        }
        FollowStraight(t, next, more[1..], links);
      } else {
        assert more[1..] == [] && next == path;
      }
    }
  }

  /** An operation that follows links reaches what one that does not has found, unless that is a link. */
  lemma LocatedIsFollowed(t: Entries, path: Path, place: Path)
    requires Locate(t, path) == Some(place) && !t[place].LinkEntry?
    ensures Follow(t, [], path, MAX_LINKS) == Some(place)
  {
    if path != [] {
      var directory := Follow(t, [], Parent(path), MAX_LINKS).value;
      assert path == Parent(path) + [Leaf(path)] && place == directory + [Leaf(path)];
      forall n | |directory| <= n < |place| ensures Searchable(t, place[..n]) {
        assert place[..n] == directory;
      }
      FollowOn(t, [], Parent(path), [Leaf(path)], MAX_LINKS, directory);
    }
  }

  /** More permissions, and nothing else, never make a path lead elsewhere. */
  lemma {:induction false} FollowStays(t: Entries, visited: set<Path>, directory: Path, names: Path, links: nat)
    requires Follow(t, directory, names, links).Some?
    ensures Follow(MadeWritable(t, visited), directory, names, links) == Follow(t, directory, names, links)
    decreases links, |names|
  {
    if names != [] {
      var next := directory + [names[0]];
      match t[next]
      case FileEntry(_) =>
      case DirectoryEntry(_) => FollowStays(t, visited, next, names[1..], links);
      case LinkEntry(target, relative) =>
        FollowStays(t, visited, if relative then directory else [], target + names[1..], links - 1);
    }
  }

  lemma LocateStays(t: Entries, visited: set<Path>, path: Path)
    requires Locate(t, path).Some?
    ensures Locate(MadeWritable(t, visited), path) == Locate(t, path)
  {
    if path != [] {
      FollowStays(t, visited, [], Parent(path), MAX_LINKS);
    }
  }

  /** Paths are spelled from the root as given, and lead below the place where that root is. */
  predicate Spells(root: Path, place: Path, path: Path, target: Path) {
    place <= target && path == root + target[|place|..]
  }

  lemma SpelledIsLocated(t: Entries, root: Path, place: Path, path: Path, target: Path)
    requires Locate(t, root) == Some(place) && Spells(root, place, path, target)
    requires target in t && CanReach(t, place, target)
    ensures Locate(t, path) == Some(target)
  {
    var more := target[|place|..];
    assert target == place + more;
    if more == [] {
      assert path == root && target == place;
    } else {
      assert target[..|place|] == place && Searchable(t, target[..|place|]);
      LocatedIsFollowed(t, root, place);
      var front := more[..|more| - 1];
      var directory := place + front;
      assert directory == Parent(target) && root + front == Parent(path) && Leaf(path) == Leaf(target);
      assert Searchable(t, target[..|target| - 1]);
      forall n | |place| <= n < |directory| ensures Searchable(t, directory[..n]) {
        assert directory[..n] == target[..n];
      }
      FollowOn(t, [], root, front, MAX_LINKS, place);
      assert directory + [Leaf(path)] == target;
    }
  }

  /** Every directory from `root` down to the path may be searched by its owner. */
  predicate CanReach(t: Entries, root: Path, path: Path)
    requires root <= path
  {
    forall n | |root| <= n < |path| :: Searchable(t, path[..n])
  }

  predicate Searchable(t: Entries, directory: Path) {
    directory in t && t[directory].DirectoryEntry? && OwnerExecute in t[directory].mode
  }

  /** The worklist: `visited` paths are writable, `pending` ones are due. */
  ghost predicate Descending(t: Entries, root: Path, pending: seq<Path>, visited: set<Path>) {
    && visited <= Below(t, root)
    && (forall i | 0 <= i < |pending| :: pending[i] in Below(t, root) && pending[i] !in visited)
    && (forall i, j | 0 <= i < j < |pending| :: pending[i] != pending[j])
    && (root in visited || pending == [root])
    && (forall p | (p in visited || p in pending) && p != root :: p != [] && Parent(p) in visited)
    && (forall p | p in Below(t, root) && p != root && Parent(p) in visited :: p in visited || p in pending)
  }

  lemma BelowParent(root: Path, p: Path)
    requires root <= p && p != root
    ensures p != [] && root <= Parent(p)
  {
  }

  lemma {:induction false} DescentIsComplete(t: Entries, root: Path, visited: set<Path>, p: Path)
    requires ValidEntries(t) && Descending(t, root, [], visited) && p in Below(t, root)
    ensures p in visited
    decreases |p|
  {
    if p != root {
      BelowParent(root, p);
      DescentIsComplete(t, root, visited, Parent(p));
    }
  }

  lemma DescentIsDone(t: Entries, root: Path, visited: set<Path>)
    requires ValidEntries(t) && Descending(t, root, [], visited)
    ensures visited == Below(t, root)
  {
    forall p | p in Below(t, root) ensures p in visited {
      DescentIsComplete(t, root, visited, p);
    }
  }

  lemma {:induction false} ReachesVisited(t: Entries, root: Path, pending: seq<Path>, visited: set<Path>, p: Path)
    requires ValidEntries(t) && Descending(t, root, pending, visited)
    requires p in visited || p in pending
    ensures root <= p && CanReach(MadeWritable(t, visited), root, p)
    decreases |p|
  {
    assert p in Below(t, root);
    if p != root {
      var q := Parent(p);
      ReachesVisited(t, root, pending, visited, q);
      assert Searchable(MadeWritable(t, visited), q);
      forall n | |root| <= n < |p| ensures Searchable(MadeWritable(t, visited), p[..n]) {
        assert p[..n] == if n < |q| then q[..n] else q;
      }
    }
  }

  lemma DescentContinues(t: Entries, root: Path, pending: seq<Path>, visited: set<Path>, path: Path, found: seq<Path>)
    requires ValidEntries(t) && Descending(t, root, pending + [path], visited)
    requires forall p :: p in found <==> p in Children(t, path)
    requires forall i, j | 0 <= i < j < |found| :: found[i] != found[j]
    ensures Descending(t, root, pending + found, visited + {path})
  {
    var before, after := pending + [path], pending + found;
    assert before[|pending|] == path;
    assert forall i | 0 <= i < |pending| :: before[i] == pending[i];
    assert forall p | p in pending :: p in before;
    forall p | p in found ensures p in Below(t, root) && p !in visited && p !in before && p != root {
      FoundIsNew(t, root, before, visited, path, p);
    }
    forall i, j | 0 <= i < j < |after| ensures after[i] != after[j] {
      if j >= |pending| && i < |pending| {
        assert after[j] in found && after[i] in before;
      }
    }
  }

  lemma FoundIsNew(t: Entries, root: Path, before: seq<Path>, visited: set<Path>, path: Path, p: Path)
    requires Descending(t, root, before, visited) && path in before && p in Children(t, path)
    ensures p in Below(t, root) && p !in visited && p !in before && p != root
  {
    assert path in Below(t, root) && path !in visited;
    assert root <= p;
  }

  class FileSystem {
    var entries: Entries

    constructor (entries: Entries)
      ensures this.entries == entries
    {
      this.entries := entries;
    }

    /** Does not follow a link at the end of the path. */
    method SymlinkMetadata(path: Path) returns (metadata: Option<Entry>)
      ensures metadata == match Locate(entries, path) case None => None case Some(place) => Some(entries[place])
    {
      var place := Locate(entries, path);
      metadata := if place.Some? then Some(entries[place.value]) else None;
    }

    /** Follows a link at the end of the path. The mode of the file or directory there is replaced;
        no other entry changes, and none comes or goes. */
    method SetPermissions(path: Path, mode: Mode) returns (ok: bool)
      modifies this
      ensures var place := Follow(old(entries), [], path, MAX_LINKS);
              && (ok <==> place.Some? && place.value in old(entries) && !old(entries)[place.value].LinkEntry?)
              && (ok ==> IsAtMode(entries, place.value, mode) && OnlyModeDiffers(old(entries), entries, place.value))
      ensures !ok ==> entries == old(entries)
    {
      var changed := Chmod(entries, path, mode);
      ok := changed.Some?;
      if ok {
        entries := changed.value;
      }
    }

    /** Lists a directory, in any order, and follows a link at the end of the path. */
    method ReadDirectory(path: Path) returns (names: Option<seq<Name>>)
      ensures var place := Follow(entries, [], path, MAX_LINKS);
              && (names.Some? == CanList(entries, place))
              && (names.Some? <==>
                    && place.Some? && place.value in entries && entries[place.value].DirectoryEntry?
                    && OwnerRead in entries[place.value].mode)
      ensures names.Some? ==>
                && (forall name :: name in names.value
                      <==> Follow(entries, [], path, MAX_LINKS).value + [name] in entries)
                && forall i, j | 0 <= i < j < |names.value| :: names.value[i] != names.value[j]
    {
      var place := Follow(entries, [], path, MAX_LINKS);
      if !CanList(entries, place) {
        return None;
      }
      var remaining := set p | p in entries && p != [] && Parent(p) == place.value :: Leaf(p);
      forall name ensures name in remaining <==> place.value + [name] in entries {
        NameOfChild(entries, place.value, name);
      }
      var found: seq<Name> := [];
      while remaining != {}
        invariant forall name :: place.value + [name] in entries <==> name in remaining || name in found
        invariant forall name | name in found :: name !in remaining
        invariant forall i, j | 0 <= i < j < |found| :: found[i] != found[j]
      {
        var name :| name in remaining;
        remaining := remaining - {name};
        found := found + [name];
      }
      names := Some(found);
    }

    /** Adds owner bits to what has been inspected, unless it is a link. Without that guard the
        permissions of whatever the link leads to would change. */
    method MakePathWritable(path: Path, metadata: Entry, ghost place: Path) returns (ok: bool)
      requires Locate(entries, path) == Some(place) && metadata == entries[place]
      modifies this
      ensures ok && entries == old(entries)[place := Writable(old(entries)[place])]
    {
      hide Follow, Locate;
      if metadata.LinkEntry? {
        return true;
      }
      LocatedIsFollowed(entries, path, place);
      var mode := metadata.mode;
      var writable := if metadata.DirectoryEntry? then mode + DIRECTORY_BITS else mode + FILE_BITS;
      ok := true;
      if writable != mode {
        ok := SetPermissions(path, writable);
      }
    }

    /** Fails only if there is nothing at `root`: by the time a path is inspected every directory
        on the way may be searched, and by the time a directory is listed it may be read. No link
        is followed below `root`. */
    method MakeTreeWritable(root: Path) returns (ok: bool)
      requires ValidEntries(entries)
      modifies this
      ensures ok <==> Locate(old(entries), root).Some?
      ensures entries == if ok then MadeWritable(old(entries), Below(old(entries), Locate(old(entries), root).value))
                         else old(entries)
    {
      hide Descending, CanReach, MadeWritable, Below, Children, Locate, Follow, Spells, CanList, ValidEntries, Joined;
      ghost var t := entries;
      ghost var top := Locate(t, root);
      ghost var visited: set<Path> := {};
      ghost var places: seq<Path> := if top.Some? then [top.value] else [];
      var pending := [root];
      DescentStarts(t, root);
      while pending != []
        invariant top.None? ==> pending == [root] && entries == t
        invariant top.Some? ==>
                    && Descending(t, top.value, places, visited) && entries == MadeWritable(t, visited)
                    && |places| == |pending|
                    && forall i | 0 <= i < |pending| :: Spells(root, top.value, pending[i], places[i])
        decreases if top.Some? then Below(t, top.value) - visited else {}, |pending|
      {
        var path := pending[|pending| - 1];
        pending := pending[..|pending| - 1];
        if top.Some? {
          NextPath(t, root, top.value, path, places, visited);
        }
        var metadata := SymlinkMetadata(path);
        if metadata.None? { return false; }
        ghost var place := places[|places| - 1];
        assert places == places[..|places| - 1] + [place];
        places := places[..|places| - 1];
        var _ := MakePathWritable(path, metadata.value, place);
        VisitedOne(t, visited, place);
        SameChildren(t, visited, place);
        var names: seq<Name> := [];
        if metadata.value.DirectoryEntry? {
          NowReadable(t, root, top.value, path, place, visited + {place});
          var listed := ReadDirectory(path);
          names := listed.value;
        }
        ListedAreChildren(t, visited + {place}, place, names);
        SpelledOn(root, top.value, path, place, names);
        DescentContinues(t, top.value, places, visited, place, Joined(place, names));
        visited := visited + {place};
        pending := pending + Joined(path, names);
        places := places + Joined(place, names);
      }
      if top.Some? {
        DescentIsDone(t, top.value, visited);
      }
      ok := true;
    }
  }

  predicate IsAtMode(t: Entries, place: Path, mode: Mode) {
    place in t && !t[place].LinkEntry? && t[place].mode == mode
  }

  /** The entries are the same but for the mode of one, which stays a file or a directory. */
  predicate OnlyModeDiffers(t: Entries, u: Entries, place: Path) {
    && t.Keys == u.Keys && (forall p | p in t && p != place :: u[p] == t[p])
    && (place in t ==> (u[place].FileEntry? <==> t[place].FileEntry?))
  }

  /** Changing permissions follows links. */
  function Chmod(t: Entries, path: Path, mode: Mode): Option<Entries> {
    match Follow(t, [], path, MAX_LINKS)
    case None => None
    case Some(place) =>
      if place !in t || t[place].LinkEntry? then None
      else Some(t[place := if t[place].FileEntry? then FileEntry(mode) else DirectoryEntry(mode)])
  }

  /** A path whose last step is a link leads on to the target, from the directory that the link lies
      in, or from the root. */
  lemma {:induction false} FollowToLink(t: Entries, place: Path, more: Path, links: nat)
    requires more != [] && place + more in t && t[place + more].LinkEntry? && CanReach(t, place, place + more)
    ensures var path := place + more;
            Follow(t, place, more, links)
            == if links == 0 then None
               else Follow(t, if t[path].relative then Parent(path) else [], t[path].target, links - 1)
    decreases |more|
  {
    var path, next := place + more, place + [more[0]];
    assert path[..|place|] == place && path[..|next|] == next && next + more[1..] == path;
    assert Searchable(t, path[..|place|]);
    if |more| > 1 {
      assert Searchable(t, path[..|next|]);
      FollowToLink(t, next, more[1..], links);
    } else {
      assert more[1..] == [] && t[path].target + [] == t[path].target && next == path && Parent(path) == place;
    }
  }

  /** When permissions are set at a link, those of what it leads to change, which may lie anywhere:
      the guard is what keeps files outside the tree as they are. */
  lemma UnguardedReachesTarget(t: Entries, path: Path, target: Path, mode: Mode)
    requires path != [] && path in t && t[path] == LinkEntry(target, false) && CanReach(t, [], path)
    requires target in t && t[target].FileEntry? && CanReach(t, [], target)
    ensures !(path <= target) && Chmod(t, path, mode) == Some(t[target := FileEntry(mode)])
  {
    assert [] + path == path && [] + target == target;
    FollowToLink(t, [], path, MAX_LINKS);
    FollowStraight(t, [], target, MAX_LINKS - 1);
    if path <= target && path != target {
      PrefixIsSearchable(t, path, target);
    }
  }

  /** A path through directories leads straight on if its owner may search all of them, and nowhere
      otherwise. */
  lemma {:induction false} SearchIsNeeded(t: Entries, place: Path, more: Path, links: nat)
    requires forall n | |place| <= n < |place + more| ::
               (place + more)[..n] in t && t[(place + more)[..n]].DirectoryEntry?
    requires more != [] ==> place + more in t && !t[place + more].LinkEntry?
    ensures Follow(t, place, more, links) == if CanReach(t, place, place + more) then Some(place + more) else None
    decreases |more|
  {
    var path := place + more;
    if more == [] {
      assert path == place;
    } else {
      var next := place + [more[0]];
      assert path[..|place|] == place && path[..|next|] == next && next + more[1..] == path;
      assert CanReach(t, place, path) <==> Searchable(t, place) && CanReach(t, next, path);
      if |more| > 1 {
        SearchIsNeeded(t, next, more[1..], links);
      } else {
        assert more[1..] == [] && next == path;
      }
    }
  }

  predicate CanList(t: Entries, place: Option<Path>) {
    && place.Some? && place.value in t && t[place.value].DirectoryEntry? && OwnerRead in t[place.value].mode
  }

  function Joined(directory: Path, names: seq<Name>): seq<Path> {
    seq(|names|, i requires 0 <= i < |names| => directory + [names[i]])
  }

  lemma NameOfChild(t: Entries, directory: Path, name: Name)
    ensures name in (set p | p in t && p != [] && Parent(p) == directory :: Leaf(p)) <==> directory + [name] in t
  {
    var path := directory + [name];
    assert Parent(path) == directory && Leaf(path) == name;
    forall p | p != [] && Parent(p) == directory && Leaf(p) == name ensures p == path {
      assert p == Parent(p) + [Leaf(p)];
    }
  }

  lemma DescentStarts(t: Entries, root: Path)
    ensures Locate(t, root).Some? ==>
              var place := Locate(t, root).value;
              Descending(t, place, [place], {}) && Spells(root, place, root, place)
    ensures MadeWritable(t, {}) == t
  {
    if Locate(t, root).Some? {
      var place := Locate(t, root).value;
      assert place[|place|..] == [];
      assert root + [] == root;
    }
  }

  lemma NextPath(t: Entries, root: Path, top: Path, path: Path, places: seq<Path>, visited: set<Path>)
    requires ValidEntries(t) && Locate(t, root) == Some(top) && Descending(t, top, places, visited) && places != []
    requires Spells(root, top, path, places[|places| - 1])
    ensures var place := places[|places| - 1];
            && place in Below(t, top) && place in t && place !in visited && place in MadeWritable(t, visited)
            && Locate(MadeWritable(t, visited), path) == Some(place)
            && top <= place && CanReach(MadeWritable(t, visited), top, place)
  {
    var place := places[|places| - 1];
    ReachesVisited(t, top, places, visited, place);
    LocateStays(t, visited, root);
    assert place in Below(t, top);
    hide Locate, Descending, CanReach;
    SpelledIsLocated(MadeWritable(t, visited), root, top, path, place);
  }

  /** Once a directory has been made writable it can be listed. */
  lemma NowReadable(t: Entries, root: Path, top: Path, path: Path, place: Path, visited: set<Path>)
    requires Locate(t, root) == Some(top) && Spells(root, top, path, place)
    requires place in t && place in visited && t[place].DirectoryEntry?
    requires CanReach(MadeWritable(t, visited), top, place)
    ensures Follow(MadeWritable(t, visited), [], path, MAX_LINKS) == Some(place)
    ensures CanList(MadeWritable(t, visited), Some(place))
  {
    LocateStays(t, visited, root);
    hide Locate, CanReach, Follow;
    SpelledIsLocated(MadeWritable(t, visited), root, top, path, place);
    LocatedIsFollowed(MadeWritable(t, visited), path, place);
  }

  lemma ListedAreChildren(t: Entries, visited: set<Path>, place: Path, names: seq<Name>)
    requires ValidEntries(t) && place in t
    requires forall name :: name in names <==> t[place].DirectoryEntry? && place + [name] in MadeWritable(t, visited)
    requires forall i, j | 0 <= i < j < |names| :: names[i] != names[j]
    ensures forall p :: p in Joined(place, names) <==> p in Children(t, place)
    ensures forall i, j | 0 <= i < j < |names| :: Joined(place, names)[i] != Joined(place, names)[j]
  {
    var found := Joined(place, names);
    forall i | 0 <= i < |names| ensures Leaf(found[i]) == names[i] && Parent(found[i]) == place {
    }
    forall p | p in Children(t, place) ensures p in found {
      assert p == place + [Leaf(p)];
      var i :| 0 <= i < |names| && names[i] == Leaf(p);
      assert found[i] == p;
    }
  }

  lemma SpelledOn(root: Path, top: Path, path: Path, place: Path, names: seq<Name>)
    requires Spells(root, top, path, place)
    ensures |Joined(path, names)| == |Joined(place, names)| == |names|
    ensures forall i | 0 <= i < |names| :: Spells(root, top, Joined(path, names)[i], Joined(place, names)[i])
  {
    forall i | 0 <= i < |names| ensures Spells(root, top, Joined(path, names)[i], Joined(place, names)[i]) {
      assert (place + [names[i]])[|top|..] == place[|top|..] + [names[i]];
    }
  }

  lemma VisitedOne(t: Entries, visited: set<Path>, path: Path)
    requires path in t && path !in visited
    ensures MadeWritable(t, visited)[path := Writable(MadeWritable(t, visited)[path])]
            == MadeWritable(t, visited + {path})
    ensures MadeWritable(t, visited + {path})[path] == Writable(t[path])
    ensures forall root | root <= path && CanReach(MadeWritable(t, visited), root, path) ::
              CanReach(MadeWritable(t, visited + {path}), root, path)
  {
    forall q | Searchable(MadeWritable(t, visited), q) ensures Searchable(MadeWritable(t, visited + {path}), q) {
    }
    forall root | root <= path && CanReach(MadeWritable(t, visited), root, path)
      ensures CanReach(MadeWritable(t, visited + {path}), root, path)
    {
      forall n | |root| <= n < |path| ensures Searchable(MadeWritable(t, visited + {path}), path[..n]) {
        assert Searchable(MadeWritable(t, visited), path[..n]);
      }
    }
  }

  lemma SameChildren(t: Entries, visited: set<Path>, path: Path)
    requires ValidEntries(t) && path in t
    ensures Children(MadeWritable(t, visited), path) == Children(t, path)
    ensures !t[path].DirectoryEntry? ==> Children(t, path) == {}
    ensures MadeWritable(t, visited)[path].DirectoryEntry? == t[path].DirectoryEntry?
  {
  }

  /** In the end every file of the tree can be read and written by its owner, every directory searched
      as well, no permission is lost, and nothing else changes. */
  lemma TreeIsWritable(t: Entries, root: Path, p: Path)
    requires p in t
    ensures var after := MadeWritable(t, Below(t, root));
            && p in after
            && (root <= p && t[p].FileEntry? ==> after[p] == FileEntry(t[p].mode + {OwnerRead, OwnerWrite}))
            && (root <= p && t[p].DirectoryEntry? ==>
                  after[p] == DirectoryEntry(t[p].mode + {OwnerRead, OwnerWrite, OwnerExecute}))
            && (!(root <= p) || t[p].LinkEntry? ==> after[p] == t[p])
  {
  }
}

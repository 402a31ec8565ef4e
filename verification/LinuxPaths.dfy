/** `mounted_path` and `dentry_path` of vmi-os-linux.  Names are byte strings. */
module LinuxPaths {
  import opened Words
  import opened VmiTypes
  import opened Guest
  import opened RingLists
  import LinuxLists

  type Name = seq<byte>

  const SLASH: byte := 0x2f

  datatype DentryOffsets = DentryOffsets(parent: u64, name: u64, qstrLength: u64, qstrName: u64, maximumName: nat)

  datatype MountOffsets = MountOffsets(parent: u64, mountpoint: u64, root: u64)

  const BAD_ARGUMENTS := VmiError.Backend("invalid Linux path arguments")
  const LOOPED := VmiError.Backend("Linux path looped")
  const TOO_LONG := VmiError.Backend("Linux path exceeded component limit")
  const BAD_NAME := VmiError.Backend("invalid Linux dentry name")
  const NULL_POINTER := VmiError.Backend("null Linux path pointer")

  // ---------- reading names and pointers ----------

  ghost function NameOf(g: Space, o: DentryOffsets, dentry: u64): Result<Name>
    requires g.Valid()
  {
    var qstr :- Add(dentry, o.name);
    var lengthAddress :- Add(qstr, o.qstrLength);
    var length :- g.U32(lengthAddress);
    if length > o.maximumName then Err(BAD_NAME)
    else
      var pointerAddress :- Add(qstr, o.qstrName);
      var pointer :- g.U64(pointerAddress);
      if length != 0 && pointer == 0 then Err(BAD_NAME)
      else if length == 0 then Ok([])
      else g.Bytes(pointer, length)
  }

  /** A pointer that may not be null. */
  ghost function Pointer(g: Space, base: u64, offset: u64): Result<u64>
    requires g.Valid()
  {
    match Next(g, offset, base)
    case Err(e) => Err(e)
    case Ok(p) => if p == 0 then Err(NULL_POINTER) else Ok(p)
  }

  method ReadName(reader: Reader, o: DentryOffsets, dentry: u64) returns (r: Result<Name>)
    requires reader.Valid()
    modifies reader.session.translations
    ensures reader.Valid() && reader.Sees() == old(reader.Sees())
    ensures r == NameOf(reader.Sees(), o, dentry)
  {
    hide Space.Bytes, Space.U32, Space.U64, Reader.Valid;
    var qstr :- Add(dentry, o.name);
    var lengthAddress :- Add(qstr, o.qstrLength);
    var length :- reader.ReadU32(lengthAddress);
    if length > o.maximumName { return Err(BAD_NAME); }
    var pointerAddress :- Add(qstr, o.qstrName);
    var pointer :- reader.ReadU64(pointerAddress);
    if length != 0 && pointer == 0 { return Err(BAD_NAME); }
    if length == 0 { return Ok([]); }
    r := reader.ReadBytes(pointer, length);
  }

  method ReadPointer(reader: Reader, base: u64, offset: u64) returns (r: Result<u64>)
    requires reader.Valid()
    modifies reader.session.translations
    ensures reader.Valid() && reader.Sees() == old(reader.Sees())
    ensures r == Pointer(reader.Sees(), base, offset)
  {
    hide Space.U64, Reader.Valid;
    var address :- Add(base, offset);
    var p :- reader.ReadU64(address);
    if p == 0 { return Err(NULL_POINTER); }
    return Ok(p);
  }

  // ---------- joining ----------

  function Tail(components: seq<Name>): seq<byte> {
    if components == [] then [] else [SLASH] + components[0] + Tail(components[1..])
  }

  /** The absolute path of `components`, root first. */
  function Joined(components: seq<Name>): seq<byte> {
    if components == [] then [SLASH] else Tail(components)
  }

  lemma {:induction false} TailPush(components: seq<Name>, last: Name)
    ensures Tail(components + [last]) == Tail(components) + [SLASH] + last
  {
    if components != [] {
      assert (components + [last])[1..] == components[1..] + [last];
      TailPush(components[1..], last);
    } else {
      assert [last][1..] == [];
    }
  }

  method JoinAbsolutePath(components: seq<Name>) returns (path: seq<byte>)
    ensures path == Joined(components)
  {
    path := [SLASH];
    for index := 0 to |components|
      invariant path == if index == 0 then [SLASH] else Tail(components[..index])
    {
      if index != 0 { path := path + [SLASH]; }
      assert components[..index + 1] == components[..index] + [components[index]];
      TailPush(components[..index], components[index]);
      path := path + components[index];
    }
    assert components[..|components|] == components;
  }

  /** Splitting at slashes. */
  function Split(path: seq<byte>): (r: seq<Name>)
    ensures |r| > 0
  {
    if path == [] then [[]]
    else if path[0] == SLASH then [[]] + Split(path[1..])
    else
      var rest := Split(path[1..]);
      [[path[0]] + rest[0]] + rest[1..]
  }

  lemma {:induction false} SplitName(name: Name, rest: seq<byte>)
    requires SLASH !in name && (rest == [] || rest[0] == SLASH)
    ensures Split(name + rest) == [name + Split(rest)[0]] + Split(rest)[1..]
  {
    if name == [] {
      assert name + rest == rest;
    } else {
      var path, after := name + rest, Split(rest);
      assert path[1..] == name[1..] + rest && path[0] == name[0];
      SplitName(name[1..], rest);
      assert Split(path[1..])[1..] == after[1..];
      assert [name[0]] + (name[1..] + after[0]) == name + after[0];
    }
  }

  lemma {:induction false} SplitTail(components: seq<Name>)
    requires forall c | c in components :: SLASH !in c
    ensures Split(Tail(components)) == [[]] + components
  {
    hide Split;
    if components != [] {
      var first, others := components[0], components[1..];
      var rest := Tail(others);
      SplitTail(others);
      SplitName(first, rest);
      SplitSlash(first + rest);
      assert Tail(components) == [SLASH] + (first + rest);
      assert ([[]] + others)[0] == [] && ([[]] + others)[1..] == others;
      assert first + [] == first;
      assert components == [first] + others;
    } else {
      SplitEmpty();
      assert [[]] + components == [[]];
    }
  }

  lemma SplitEmpty()
    ensures Split([]) == [[]]
  {
  }

  lemma SplitSlash(path: seq<byte>)
    ensures Split([SLASH] + path) == [[]] + Split(path)
  {
    assert ([SLASH] + path)[1..] == path;
  }

  /** A path determines its components: none is lost, merged or reordered. */
  lemma JoinedSplits(components: seq<Name>)
    requires components != [] && forall c | c in components :: SLASH !in c
    ensures Split(Joined(components)) == [[]] + components
  {
    SplitTail(components);
  }

  // ---------- which names count ----------

  predicate Visible(name: Name) { name != [] && name != [SLASH] }

  /** `retain`: empty names and the name of a root are dropped. */
  function Retained(names: seq<Name>): seq<Name> {
    if names == [] then [] else (if Visible(names[0]) then [names[0]] else []) + Retained(names[1..])
  }

  function Reversed(names: seq<Name>): seq<Name> {
    if names == [] then [] else Reversed(names[1..]) + [names[0]]
  }

  /** The result for names collected leaf first. */
  function PathOf(names: seq<Name>): seq<byte> { Joined(Reversed(Retained(names))) }

  lemma {:induction false} RetainedConcat(a: seq<Name>, b: seq<Name>)
    ensures Retained(a + b) == Retained(a) + Retained(b)
  {
    if a == [] {
      assert a + b == b;
    } else {
      assert (a + b)[1..] == a[1..] + b;
      RetainedConcat(a[1..], b);
    }
  }

  // ---------- the recursive meaning of a mounted path ----------

  datatype Place = Place(dentry: u64, mount: u64)

  datatype Layout = Layout(dentry: DentryOffsets, mount: MountOffsets)

  /** What one place calls for: the end, a crossing to where its mount is
      mounted, or one component and the parent directory. */
  datatype Move = Stop | Cross(to: Place) | Up(name: Name, parent: Place) | Fail

  ghost function MoveAt(g: Space, o: Layout, p: Place): Move
    requires g.Valid()
  {
    var root := Pointer(g, p.mount, o.mount.root);
    if root.Err? then Fail
    else if p.dentry == root.value then
      var parentMount := Pointer(g, p.mount, o.mount.parent);
      if parentMount.Err? then Fail
      else if parentMount.value == p.mount then Stop
      else
        var mountpoint := Pointer(g, p.mount, o.mount.mountpoint);
        if mountpoint.Err? then Fail else Cross(Place(mountpoint.value, parentMount.value))
    else
      var name, parent := NameOf(g, o.dentry, p.dentry), Pointer(g, p.dentry, o.dentry.parent);
      if name.Err? || parent.Err? then Fail else Up(name.value, Place(parent.value, p.mount))
  }

  /** From `p` the root of the mount tree is reached in `n` moves, which name
      `names`, leaf first. */
  ghost predicate Leads(g: Space, o: Layout, p: Place, names: seq<Name>, n: nat)
    requires g.Valid()
    decreases n
  {
    match MoveAt(g, o, p)
    case Fail => false
    case Stop => n == 0 && names == []
    case Cross(q) => n > 0 && Leads(g, o, q, names, n - 1)
    case Up(name, q) => n > 0 && names != [] && names[0] == name && Leads(g, o, q, names[1..], n - 1)
  }

  lemma {:induction false} LeadsOnce(g: Space, o: Layout, p: Place, a: seq<Name>, n: nat, b: seq<Name>, m: nat)
    requires g.Valid() && Leads(g, o, p, a, n) && Leads(g, o, p, b, m)
    ensures n == m && a == b
    decreases n
  {
    hide MoveAt;
    match MoveAt(g, o, p)
    case Stop =>
    case Cross(q) => LeadsOnce(g, o, q, a, n - 1, b, m - 1);
    case Up(name, q) =>
      LeadsOnce(g, o, q, a[1..], n - 1, b[1..], m - 1);
      assert a == [name] + a[1..] && b == [name] + b[1..];
  }

  lemma LengthIsFixed(g: Space, o: Layout, p: Place, a: seq<Name>, n: nat, b: seq<Name>, m: nat)
    requires g.Valid() && Leads(g, o, p, a, n) && n != m
    ensures !Leads(g, o, p, b, m)
  {
    hide Leads;
    if Leads(g, o, p, b, m) { LeadsOnce(g, o, p, a, n, b, m); }
  }

  /** `y` is reached from `x` in `d` moves naming `names`. */
  ghost predicate Reaches(g: Space, o: Layout, x: Place, names: seq<Name>, d: nat, y: Place)
    requires g.Valid()
    decreases d
  {
    if d == 0 then names == [] && x == y
    else
      match MoveAt(g, o, x)
      case Cross(q) => Reaches(g, o, q, names, d - 1, y)
      case Up(name, q) => names != [] && names[0] == name && Reaches(g, o, q, names[1..], d - 1, y)
      case _ => false
  }

  lemma {:induction false} ReachesStep(g: Space, o: Layout, x: Place, names: seq<Name>, d: nat, y: Place)
    requires g.Valid() && Reaches(g, o, x, names, d, y)
    ensures match MoveAt(g, o, y)
      case Cross(q) => Reaches(g, o, x, names, d + 1, q)
      case Up(name, q) => Reaches(g, o, x, names + [name], d + 1, q)
      case _ => true
    decreases d
  {
    hide MoveAt;
    if d == 0 {
      if MoveAt(g, o, y).Up? { assert ([] + [MoveAt(g, o, y).name])[1..] == []; }
    } else {
      match MoveAt(g, o, x)
      case Cross(q) => ReachesStep(g, o, q, names, d - 1, y);
      case Up(name, q) =>
        ReachesStep(g, o, q, names[1..], d - 1, y);
        if MoveAt(g, o, y).Up? { assert (names + [MoveAt(g, o, y).name])[1..] == names[1..] + [MoveAt(g, o, y).name]; }
    }
  }

  /** The rest of the way after a part of it. */
  lemma {:induction false} LeadsAfter(
    g: Space, o: Layout, x: Place, done: seq<Name>, d: nat, y: Place, names: seq<Name>, n: nat)
    requires g.Valid() && Reaches(g, o, x, done, d, y)
    ensures Leads(g, o, y, names, n) ==> Leads(g, o, x, done + names, n + d)
    ensures Leads(g, o, x, names, n) ==>
      d <= n && done <= names && Leads(g, o, y, names[|done|..], n - d)
    decreases d
  {
    hide MoveAt;
    if d == 0 {
      assert done + names == names;
    } else {
      match MoveAt(g, o, x)
      case Cross(q) =>
        LeadsAfter(g, o, q, done, d - 1, y, names, n);
        if n > 0 { LeadsAfter(g, o, q, done, d - 1, y, names, n - 1); }
      case Up(name, q) =>
        LeadsAfter(g, o, q, done[1..], d - 1, y, names, n);
        assert (done + names)[1..] == done[1..] + names;
        if n > 0 && names != [] { LeadsAfter(g, o, q, done[1..], d - 1, y, names[1..], n - 1); }
        assert done == [name] + done[1..];
        if names != [] && names[0] == name { assert names == [name] + names[1..]; }
    }
  }

  /** A place met again leads nowhere: rejecting it rejects no walk that ends. */
  lemma RevisitLeadsNowhere(g: Space, o: Layout, p: Place, between: seq<Name>, d: nat, names: seq<Name>, n: nat)
    requires g.Valid() && d > 0 && Reaches(g, o, p, between, d, p)
    ensures !Leads(g, o, p, names, n)
  {
    hide Leads, Reaches;
    var longer, m := between + names, n + d;
    if Leads(g, o, p, names, n) {
      LengthIsFixed(g, o, p, names, n, longer, m);
      LeadsAfter(g, o, p, between, d, p, names, n);
      assert false;
    }
  }

  // ---------- the traversal ----------

  ghost predicate Connected(g: Space, o: Layout, x: Place, d: nat, y: Place)
    requires g.Valid()
  {
    exists names :: Reaches(g, o, x, names, d, y)
  }

  /** Every place seen so far was reached from the start and reaches `current`. */
  ghost predicate Trail(g: Space, o: Layout, visited: seq<Place>, current: Place)
    requires g.Valid()
  {
    forall j | 0 <= j < |visited| :: Connected(g, o, visited[j], |visited| - j, current)
  }

  lemma ExtendTrail(g: Space, o: Layout, visited: seq<Place>, current: Place, next: Place)
    requires g.Valid() && Trail(g, o, visited, current)
    requires var move := MoveAt(g, o, current);
      (move.Cross? && move.to == next) || (move.Up? && move.parent == next)
    ensures Trail(g, o, visited + [current], next)
  {
    hide MoveAt;
    var all := visited + [current];
    forall j | 0 <= j < |all| ensures Connected(g, o, all[j], |all| - j, next) {
      if j < |visited| {
        assert Connected(g, o, visited[j], |visited| - j, current);
        var names :| Reaches(g, o, visited[j], names, |visited| - j, current);
        ReachesStep(g, o, visited[j], names, |visited| - j, current);
      } else {
        assert Reaches(g, o, current, [], 0, current);
        ReachesStep(g, o, current, [], 0, current);
      }
    }
  }

  lemma RevisitInTrail(g: Space, o: Layout, visited: seq<Place>, current: Place, names: seq<Name>, n: nat)
    requires g.Valid() && Trail(g, o, visited, current) && current in visited
    ensures !Leads(g, o, current, names, n)
  {
    hide MoveAt, Reaches, Leads;
    var j :| 0 <= j < |visited| && visited[j] == current;
    assert Connected(g, o, visited[j], |visited| - j, current);
    var between :| Reaches(g, o, visited[j], between, |visited| - j, current);
    RevisitLeadsNowhere(g, o, current, between, |visited| - j, names, n);
  }

  ghost predicate InSpace(p: Place) { true }

  /** All places: what bounds the number of moves before one repeats. */
  ghost function AllPlaces(): set<Place> {
    set d: u64, m: u64 | InSpace(Place(d, m)) :: Place(d, m)
  }

  predicate ArgumentsOk(dentry: u64, mount: u64, o: DentryOffsets, limit: nat) {
    dentry != 0 && mount != 0 && limit != 0 && 0 < o.maximumName <= 65_536
  }

  /** No walk from `start` ends with fewer than `limit` names. */
  ghost predicate NoShortWay(g: Space, o: Layout, start: Place, limit: nat)
    requires g.Valid()
  {
    forall names, n | Leads(g, o, start, names, n) :: |names| >= limit
  }

  lemma DeadEnd(g: Space, o: Layout, start: Place, done: seq<Name>, k: nat, current: Place, limit: nat)
    requires g.Valid() && Reaches(g, o, start, done, k, current)
    requires forall names, n :: !Leads(g, o, current, names, n)
    ensures NoShortWay(g, o, start, limit)
  {
    hide Leads, Reaches;
    forall names, n: nat | Leads(g, o, start, names, n) ensures |names| >= limit {
      LeadsAfter(g, o, start, done, k, current, names, n);
    }
  }

  lemma FailIsDeadEnd(g: Space, o: Layout, start: Place, done: seq<Name>, k: nat, current: Place, limit: nat)
    requires g.Valid() && Reaches(g, o, start, done, k, current) && MoveAt(g, o, current).Fail?
    ensures NoShortWay(g, o, start, limit)
  {
    hide MoveAt, Reaches;
    DeadEnd(g, o, start, done, k, current, limit);
  }

  lemma LoopIsDeadEnd(
    g: Space, o: Layout, start: Place, done: seq<Name>, k: nat, visited: seq<Place>, current: Place, limit: nat)
    requires g.Valid() && Reaches(g, o, start, done, k, current)
    requires Trail(g, o, visited, current) && current in visited
    ensures NoShortWay(g, o, start, limit)
  {
    hide MoveAt, Reaches, Leads, Trail;
    forall names, n: nat ensures !Leads(g, o, current, names, n) {
      RevisitInTrail(g, o, visited, current, names, n);
    }
    DeadEnd(g, o, start, done, k, current, limit);
  }

  lemma LimitIsReached(g: Space, o: Layout, start: Place, done: seq<Name>, k: nat, current: Place, limit: nat)
    requires g.Valid() && Reaches(g, o, start, done, k, current)
    requires MoveAt(g, o, current).Up? || MoveAt(g, o, current).Fail?
    requires |done| + 1 >= limit
    ensures NoShortWay(g, o, start, limit)
  {
    hide MoveAt, Reaches;
    forall names, n: nat | Leads(g, o, start, names, n) ensures |names| >= limit {
      LeadsAfter(g, o, start, done, k, current, names, n);
    }
  }

  lemma UpOrFail(g: Space, o: Layout, p: Place)
    requires g.Valid() && Pointer(g, p.mount, o.mount.root).Ok? && Pointer(g, p.mount, o.mount.root).value != p.dentry
    ensures var name, parent := NameOf(g, o.dentry, p.dentry), Pointer(g, p.dentry, o.dentry.parent);
      MoveAt(g, o, p) ==
        if name.Err? || parent.Err? then Fail else Up(name.value, Place(parent.value, p.mount))
  {
  }

  /** The loop of `mounted_path`: the names on the way up, leaf first. */
  method MountedNames(reader: Reader, dentry: u64, mount: u64, o: Layout, limit: nat)
    returns (r: Result<seq<Name>>, ghost n: nat)
    requires reader.Valid()
    modifies reader.session.translations
    ensures reader.Valid() && reader.Sees() == old(reader.Sees()) && reader.Sees().Valid()
    ensures r.Ok? ==>
      && ArgumentsOk(dentry, mount, o.dentry, limit)
      && Leads(reader.Sees(), o, Place(dentry, mount), r.value, n) && |r.value| < limit
    ensures r.Err? && ArgumentsOk(dentry, mount, o.dentry, limit) ==>
      NoShortWay(reader.Sees(), o, Place(dentry, mount), limit)
  {
    hide Space.U64, Space.Bytes, NameOf, Pointer, Reader.Valid, Leads, Trail, NoShortWay;
    n := 0;
    ghost var g := reader.Sees();
    assert g.Valid() by { LinuxLists.SeesValid(reader); }
    if !ArgumentsOk(dentry, mount, o.dentry, limit) { return Err(BAD_ARGUMENTS), n; }
    ghost var start, visited: seq<Place> := Place(dentry, mount), [];
    var current, seen: set<Place>, components: seq<Name> := Place(dentry, mount), {}, [];
    NothingVisited(g, o, current);
    while true
      invariant reader.Valid() && reader.Sees() == g
      invariant Reaches(g, o, start, components, n, current)
      invariant seen == (set p | p in visited) && Trail(g, o, visited, current)
      invariant components == [] || |components| < limit
      decreases AllPlaces() - seen
    {
      ghost var before := seen;
      if current in seen {
        LoopIsDeadEnd(g, o, start, components, n, visited, current, limit);
        return Err(LOOPED), n;
      }
      seen := LinuxLists.Including(seen, current);
      assert current in AllPlaces() by { assert InSpace(Place(current.dentry, current.mount)); }
      ReachesStep(g, o, start, components, n, current);
      var mountRoot := ReadPointer(reader, current.mount, o.mount.root);
      if mountRoot.Err? { FailIsDeadEnd(g, o, start, components, n, current, limit); return Err(mountRoot.error), n; }
      if current.dentry == mountRoot.value {
        var parentMount := ReadPointer(reader, current.mount, o.mount.parent);
        if parentMount.Err? { FailIsDeadEnd(g, o, start, components, n, current, limit); return Err(parentMount.error), n; }
        if parentMount.value == current.mount { break; }
        var mountpoint := ReadPointer(reader, current.mount, o.mount.mountpoint);
        if mountpoint.Err? { FailIsDeadEnd(g, o, start, components, n, current, limit); return Err(mountpoint.error), n; }
        var next := Place(mountpoint.value, parentMount.value);
        ExtendTrail(g, o, visited, current, next);
        visited := visited + [current];
        current := next;
        n := n + 1;
        continue;
      }
      UpOrFail(g, o, current);
      var name := ReadName(reader, o.dentry, current.dentry);
      if name.Err? { FailIsDeadEnd(g, o, start, components, n, current, limit); return Err(name.error), n; }
      if |components| + 1 >= limit {
        LimitIsReached(g, o, start, components, n, current, limit);
        return Err(TOO_LONG), n;
      }
      components := components + [name.value];
      var parent := ReadPointer(reader, current.dentry, o.dentry.parent);
      if parent.Err? {
        FailIsDeadEnd(g, o, start, components[..|components| - 1], n, current, limit);
        return Err(parent.error), n;
      }
      var next := Place(parent.value, current.mount);
      ExtendTrail(g, o, visited, current, next);
      visited := visited + [current];
      current := next;
      n := n + 1;
    }
    StopLeads(g, o, start, components, n, current);
    r := Ok(components);
  }

  /** `mounted_path`: whenever the recursive walk ends with fewer names than the
      limit, the path it names; otherwise an error. */
  method MountedPath(reader: Reader, dentry: u64, mount: u64, o: Layout, limit: nat)
    returns (r: Result<seq<byte>>, ghost names: seq<Name>, ghost n: nat)
    requires reader.Valid()
    modifies reader.session.translations
    ensures reader.Valid() && reader.Sees() == old(reader.Sees()) && reader.Sees().Valid()
    ensures r.Ok? ==>
      && ArgumentsOk(dentry, mount, o.dentry, limit)
      && Leads(reader.Sees(), o, Place(dentry, mount), names, n) && |names| < limit
      && r.value == PathOf(names)
    ensures r.Err? && ArgumentsOk(dentry, mount, o.dentry, limit) ==>
      NoShortWay(reader.Sees(), o, Place(dentry, mount), limit)
    ensures IsMountedPath(reader.Sees(), o, dentry, mount, limit, r)
  {
    hide Space.U64, Space.Bytes, NameOf, Pointer, Leads, NoShortWay, Reader.Valid, Reader.Sees;
    names := [];
    var collected;
    collected, n := MountedNames(reader, dentry, mount, o, limit);
    if collected.Err? { return Err(collected.error), names, n; }
    names := collected.value;
    label Collected:
    var path := JoinAbsolutePath(Reversed(Retained(collected.value)));
    StillSees@Collected(reader);
    r := Ok(path);
  }

  lemma NothingVisited(g: Space, o: Layout, p: Place)
    requires g.Valid()
    ensures Reaches(g, o, p, [], 0, p) && Trail(g, o, [], p)
  {
  }

  lemma StopLeads(g: Space, o: Layout, start: Place, done: seq<Name>, n: nat, current: Place)
    requires g.Valid() && Reaches(g, o, start, done, n, current) && MoveAt(g, o, current).Stop?
    ensures Leads(g, o, start, done, n)
  {
    hide MoveAt;
    LeadsAfter(g, o, start, done, n, current, [], 0);
    assert done + [] == done;
  }

  // ---------- paths without mounts ----------

  datatype Ascent = Root(name: Name) | Step(name: Name, parent: u64) | Broken

  ghost function AscentAt(g: Space, o: DentryOffsets, d: u64): Ascent
    requires g.Valid()
  {
    var name, parent := NameOf(g, o, d), Pointer(g, d, o.parent);
    if name.Err? || parent.Err? then Broken
    else if parent.value == d then Root(name.value)
    else Step(name.value, parent.value)
  }

  /** The names from `d` up to a dentry that is its own parent, that one's too. */
  ghost predicate Ascends(g: Space, o: DentryOffsets, d: u64, names: seq<Name>)
    requires g.Valid()
    decreases |names|
  {
    names != [] &&
    match AscentAt(g, o, d)
    case Broken => false
    case Root(name) => names == [name]
    case Step(name, parent) => names[0] == name && Ascends(g, o, parent, names[1..])
  }

  /** `y` is the ancestor of `x` after exactly `names`. */
  ghost predicate Climbs(g: Space, o: DentryOffsets, x: u64, names: seq<Name>, y: u64)
    requires g.Valid()
    decreases |names|
  {
    if names == [] then x == y
    else
      match AscentAt(g, o, x)
      case Step(name, parent) => names[0] == name && Climbs(g, o, parent, names[1..], y)
      case _ => false
  }

  /** One ascent at most, and so one list of names. */
  lemma {:induction false} AscendsOnce(g: Space, o: DentryOffsets, d: u64, a: seq<Name>, b: seq<Name>)
    requires g.Valid() && Ascends(g, o, d, a) && Ascends(g, o, d, b)
    ensures a == b
    decreases |a|
  {
    hide AscentAt;
    if AscentAt(g, o, d).Step? {
      AscendsOnce(g, o, AscentAt(g, o, d).parent, a[1..], b[1..]);
      assert a == [a[0]] + a[1..] && b == [b[0]] + b[1..];
    }
  }

  lemma {:induction false} ClimbsStep(g: Space, o: DentryOffsets, x: u64, names: seq<Name>, y: u64)
    requires g.Valid() && Climbs(g, o, x, names, y) && AscentAt(g, o, y).Step?
    ensures Climbs(g, o, x, names + [AscentAt(g, o, y).name], AscentAt(g, o, y).parent)
    decreases |names|
  {
    hide AscentAt;
    var name := AscentAt(g, o, y).name;
    if names == [] {
      var one: seq<Name> := [name];
      assert names + [name] == one && one[1..] == [];
    } else {
      ClimbsStep(g, o, AscentAt(g, o, x).parent, names[1..], y);
      assert (names + [name])[1..] == names[1..] + [name];
    }
  }

  lemma {:induction false} AscendsAfter(g: Space, o: DentryOffsets, x: u64, done: seq<Name>, y: u64, names: seq<Name>)
    requires g.Valid() && Climbs(g, o, x, done, y)
    ensures Ascends(g, o, y, names) ==> Ascends(g, o, x, done + names)
    ensures Ascends(g, o, x, names) ==> done <= names && Ascends(g, o, y, names[|done|..])
    decreases |done|
  {
    hide AscentAt;
    if done == [] {
      assert done + names == names;
    } else {
      var name, parent := AscentAt(g, o, x).name, AscentAt(g, o, x).parent;
      AscendsAfter(g, o, parent, done[1..], y, names);
      assert (done + names)[1..] == done[1..] + names;
      if names != [] { AscendsAfter(g, o, parent, done[1..], y, names[1..]); }
      assert done == [name] + done[1..];
      if names != [] && names[0] == name { assert names == [name] + names[1..]; }
    }
  }

  ghost predicate Lineage(g: Space, o: DentryOffsets, visited: seq<u64>, current: u64)
    requires g.Valid()
  {
    forall j | 0 <= j < |visited| :: Descends(g, o, visited[j], |visited| - j, current)
  }

  ghost predicate Descends(g: Space, o: DentryOffsets, x: u64, d: nat, y: u64)
    requires g.Valid()
  {
    exists names :: |names| == d && Climbs(g, o, x, names, y)
  }

  lemma ExtendLineage(g: Space, o: DentryOffsets, visited: seq<u64>, current: u64)
    requires g.Valid() && Lineage(g, o, visited, current) && AscentAt(g, o, current).Step?
    ensures Lineage(g, o, visited + [current], AscentAt(g, o, current).parent)
  {
    hide AscentAt, Climbs;
    var all, next := visited + [current], AscentAt(g, o, current).parent;
    forall j | 0 <= j < |all| ensures Descends(g, o, all[j], |all| - j, next) {
      if j < |visited| {
        assert Descends(g, o, visited[j], |visited| - j, current);
        var names :| |names| == |visited| - j && Climbs(g, o, visited[j], names, current);
        ClimbsStep(g, o, visited[j], names, current);
        assert |names + [AscentAt(g, o, current).name]| == |all| - j;
      } else {
        ClimbsNothing(g, o, current);
        ClimbsStep(g, o, current, [], current);
        assert |[] + [AscentAt(g, o, current).name]| == 1;
      }
    }
  }

  lemma ClimbsNothing(g: Space, o: DentryOffsets, x: u64)
    requires g.Valid()
    ensures Climbs(g, o, x, [], x) && Lineage(g, o, [], x)
  {
  }

  lemma RevisitNeverAscends(g: Space, o: DentryOffsets, visited: seq<u64>, current: u64, names: seq<Name>)
    requires g.Valid() && Lineage(g, o, visited, current) && current in visited
    ensures !Ascends(g, o, current, names)
  {
    hide AscentAt, Climbs, Ascends;
    var j :| 0 <= j < |visited| && visited[j] == current;
    assert Descends(g, o, visited[j], |visited| - j, current);
    var between :| |between| == |visited| - j && Climbs(g, o, current, between, current);
    if Ascends(g, o, current, names) {
      AscendsAfter(g, o, current, between, current, names);
      AscendsOnce(g, o, current, names, between + names);
      assert false;
    }
  }

  /** The limit looks at the names kept before the root is reached. */
  predicate WithinLimit(names: seq<Name>, limit: nat) {
    |names| <= 1 || |Retained(names[..|names| - 1])| < limit
  }

  ghost predicate NoShortAscent(g: Space, o: DentryOffsets, d: u64, limit: nat)
    requires g.Valid()
  {
    forall names | Ascends(g, o, d, names) :: !WithinLimit(names, limit)
  }

  lemma NoAscent(g: Space, o: DentryOffsets, start: u64, done: seq<Name>, current: u64, limit: nat)
    requires g.Valid() && Climbs(g, o, start, done, current)
    requires forall names :: !Ascends(g, o, current, names)
    ensures NoShortAscent(g, o, start, limit)
  {
    hide Ascends, Climbs;
    forall names | Ascends(g, o, start, names) ensures !WithinLimit(names, limit) {
      AscendsAfter(g, o, start, done, current, names);
    }
  }

  lemma BrokenEnds(g: Space, o: DentryOffsets, start: u64, done: seq<Name>, current: u64, limit: nat)
    requires g.Valid() && Climbs(g, o, start, done, current) && AscentAt(g, o, current).Broken?
    ensures NoShortAscent(g, o, start, limit)
  {
    hide AscentAt, Climbs;
    NoAscent(g, o, start, done, current, limit);
  }

  lemma LoopEnds(g: Space, o: DentryOffsets, start: u64, done: seq<Name>, visited: seq<u64>, current: u64, limit: nat)
    requires g.Valid() && Climbs(g, o, start, done, current) && Lineage(g, o, visited, current) && current in visited
    ensures NoShortAscent(g, o, start, limit)
  {
    hide AscentAt, Climbs, Ascends, Lineage;
    forall names ensures !Ascends(g, o, current, names) { RevisitNeverAscends(g, o, visited, current, names); }
    NoAscent(g, o, start, done, current, limit);
  }

  lemma LimitEnds(g: Space, o: DentryOffsets, start: u64, done: seq<Name>, current: u64, limit: nat)
    requires g.Valid() && Climbs(g, o, start, done, current) && done != [] && |Retained(done)| >= limit
    ensures NoShortAscent(g, o, start, limit)
  {
    hide AscentAt, Climbs;
    forall names | Ascends(g, o, start, names) ensures !WithinLimit(names, limit) {
      AscendsAfter(g, o, start, done, current, names);
      var rest := names[|done|..];
      assert rest != [] && names[..|names| - 1] == done + rest[..|rest| - 1];
      RetainedConcat(done, rest[..|rest| - 1]);
    }
  }

  /** The loop of `dentry_path`: the names kept on the way up, leaf first. */
  method DentryNames(reader: Reader, dentry: u64, o: DentryOffsets, limit: nat)
    returns (r: Result<seq<Name>>, ghost names: seq<Name>)
    requires reader.Valid()
    modifies reader.session.translations
    ensures reader.Valid() && reader.Sees() == old(reader.Sees()) && reader.Sees().Valid()
    ensures r.Ok? ==>
      && dentry != 0 && limit != 0 && 0 < o.maximumName <= 65_536
      && Ascends(reader.Sees(), o, dentry, names) && WithinLimit(names, limit) && r.value == Retained(names)
    ensures r.Err? && dentry != 0 && limit != 0 && 0 < o.maximumName <= 65_536 ==>
      NoShortAscent(reader.Sees(), o, dentry, limit)
  {
    hide Space.U64, Space.Bytes, NameOf, Pointer, Reader.Valid, Ascends, Climbs, Lineage, NoShortAscent;
    names := [];
    ghost var g := reader.Sees();
    assert g.Valid() by { LinuxLists.SeesValid(reader); }
    if dentry == 0 || limit == 0 || o.maximumName == 0 || o.maximumName > 65_536 { return Err(BAD_ARGUMENTS), names; }
    ghost var visited: seq<u64> := [];
    var current: u64, seen: set<u64>, components: seq<Name> := dentry, {}, [];
    ClimbsNothing(g, o, dentry);
    while true
      invariant reader.Valid() && reader.Sees() == g
      invariant Climbs(g, o, dentry, names, current) && components == Retained(names)
      invariant names == [] || |components| < limit
      invariant seen == (set x | x in visited) && Lineage(g, o, visited, current)
      decreases AllAddresses() - seen
    {
      if current in seen {
        LoopEnds(g, o, dentry, names, visited, current, limit);
        return Err(LOOPED), names;
      }
      seen := LinuxLists.Including(seen, current);
      InAllAddresses(current);
      var name := ReadName(reader, o, current);
      if name.Err? { BrokenEnds(g, o, dentry, names, current, limit); return Err(name.error), names; }
      RetainedConcat(names, [name.value]);
      if Visible(name.value) { components := components + [name.value]; }
      var parent := ReadPointer(reader, current, o.parent);
      if parent.Err? { BrokenEnds(g, o, dentry, names, current, limit); return Err(parent.error), names; }
      if parent.value == current {
        RootAscends(g, o, dentry, names, current);
        assert (names + [name.value])[..|names|] == names;
        names := names + [name.value];
        return Ok(components), names;
      }
      ClimbsStep(g, o, dentry, names, current);
      ExtendLineage(g, o, visited, current);
      names := names + [name.value];
      visited := visited + [current];
      if |components| >= limit {
        LimitEnds(g, o, dentry, names, parent.value, limit);
        return Err(TOO_LONG), names;
      }
      current := parent.value;
    }
  }

  ghost predicate IsAddress(a: nat) { a < U64_LIMIT }

  ghost function AllAddresses(): set<u64> {
    set a: u64 | IsAddress(a)
  }

  lemma InAllAddresses(a: u64)
    ensures a in AllAddresses()
  {
    assert IsAddress(a);
  }

  lemma RootAscends(g: Space, o: DentryOffsets, start: u64, done: seq<Name>, current: u64)
    requires g.Valid() && Climbs(g, o, start, done, current) && AscentAt(g, o, current).Root?
    ensures Ascends(g, o, start, done + [AscentAt(g, o, current).name])
  {
    hide AscentAt, Climbs;
    AscendsAfter(g, o, start, done, current, [AscentAt(g, o, current).name]);
  }

  method DentryPath(reader: Reader, dentry: u64, o: DentryOffsets, limit: nat)
    returns (r: Result<seq<byte>>, ghost names: seq<Name>)
    requires reader.Valid()
    modifies reader.session.translations
    ensures reader.Valid() && reader.Sees() == old(reader.Sees()) && reader.Sees().Valid()
    ensures r.Ok? ==>
      && dentry != 0 && limit != 0 && 0 < o.maximumName <= 65_536
      && Ascends(reader.Sees(), o, dentry, names) && WithinLimit(names, limit) && r.value == PathOf(names)
    ensures r.Err? && dentry != 0 && limit != 0 && 0 < o.maximumName <= 65_536 ==>
      NoShortAscent(reader.Sees(), o, dentry, limit)
    ensures IsDentryPath(reader.Sees(), o, dentry, limit, r)
  {
    hide Space.U64, Space.Bytes, NameOf, Pointer, Ascends, NoShortAscent, Reader.Valid, Reader.Sees;
    var kept;
    kept, names := DentryNames(reader, dentry, o, limit);
    if kept.Err? { return Err(kept.error), names; }
    label Collected:
    var path := JoinAbsolutePath(Reversed(kept.value));
    StillSees@Collected(reader);
    r := Ok(path);
  }

  // ---------- one mount ----------

  /** What `mounted_path` answers. */
  ghost predicate IsMountedPath(g: Space, o: Layout, dentry: u64, mount: u64, limit: nat, r: Result<seq<byte>>)
    requires g.Valid()
  {
    && (r.Ok? ==>
         && ArgumentsOk(dentry, mount, o.dentry, limit)
         && exists names, n: nat :: Leads(g, o, Place(dentry, mount), names, n) && |names| < limit && r.value == PathOf(names))
    && (r.Err? && ArgumentsOk(dentry, mount, o.dentry, limit) ==> NoShortWay(g, o, Place(dentry, mount), limit))
  }

  /** What `dentry_path` answers. */
  ghost predicate IsDentryPath(g: Space, o: DentryOffsets, dentry: u64, limit: nat, r: Result<seq<byte>>)
    requires g.Valid()
  {
    var argumentsOk := dentry != 0 && limit != 0 && 0 < o.maximumName <= 65_536;
    && (r.Ok? ==>
         argumentsOk && exists names :: Ascends(g, o, dentry, names) && WithinLimit(names, limit) && r.value == PathOf(names))
    && (r.Err? && argumentsOk ==> NoShortAscent(g, o, dentry, limit))
  }

  /** A mount that is its own parent, whose root dentry is its own parent and has no
      visible name. */
  ghost predicate OneMount(g: Space, o: Layout, mount: u64, root: u64, rootName: Name)
    requires g.Valid()
  {
    && Pointer(g, mount, o.mount.parent) == Ok(mount) && Pointer(g, mount, o.mount.root) == Ok(root)
    && AscentAt(g, o.dentry, root) == Root(rootName) && !Visible(rootName)
  }

  /** On such a mount the mounted walk and the climb to the root dentry are one. */
  lemma {:induction false} WalkIsClimb(
    g: Space, o: Layout, d: u64, mount: u64, root: u64, rootName: Name, names: seq<Name>, n: nat)
    requires g.Valid() && OneMount(g, o, mount, root, rootName)
    ensures Leads(g, o, Place(d, mount), names, n) <==> Climbs(g, o.dentry, d, names, root) && n == |names|
    decreases |names|, n
  {
    hide Pointer, NameOf;
    if d != root && names != [] {
      var up := MoveAt(g, o, Place(d, mount));
      if up.Up? && names[0] == up.name && n > 0 {
        WalkIsClimb(g, o, up.parent.dentry, mount, root, rootName, names[1..], n - 1);
        if up.parent.dentry == d && Leads(g, o, Place(d, mount), names, n) {
          LengthIsFixed(g, o, Place(d, mount), names, n, names[1..], n - 1);
          assert false;
        }
      }
    }
  }

  lemma NamelessRoot(names: seq<Name>, rootName: Name, limit: nat)
    requires !Visible(rootName)
    ensures PathOf(names + [rootName]) == PathOf(names)
    ensures |names| < limit ==> WithinLimit(names + [rootName], limit)
  {
    RetainedConcat(names, [rootName]);
    assert Retained(names) + [] == Retained(names);
    assert (names + [rootName])[..|names|] == names;
    RetainedShorter(names);
  }

  /** On one mount both functions give the same path: `mounted_path` succeeds exactly
      when `dentry_path` does after a climb that ends at the mount's root with fewer
      names than the limit, and then with the same bytes. */
  lemma OneMountIsDentryPath(
    g: Space, o: Layout, d: u64, mount: u64, root: u64, rootName: Name, limit: nat,
    mounted: Result<seq<byte>>, plain: Result<seq<byte>>)
    requires g.Valid() && OneMount(g, o, mount, root, rootName) && mount != 0
    requires IsMountedPath(g, o, d, mount, limit, mounted) && IsDentryPath(g, o.dentry, d, limit, plain)
    ensures mounted.Ok? <==> plain.Ok? && ShortClimb(g, o.dentry, d, root, limit)
    ensures mounted.Ok? ==> plain.Ok? && plain.value == mounted.value
  {
    hide OneMount, Leads, Climbs, Ascends, PathOf, WithinLimit;
    if mounted.Ok? {
      var names, n: nat :| Leads(g, o, Place(d, mount), names, n) && |names| < limit && mounted.value == PathOf(names);
      WalkIsClimb(g, o, d, mount, root, rootName, names, n);
      ClimbIsAscent(g, o, d, mount, root, rootName, names);
      NamelessRoot(names, rootName, limit);
      if plain.Ok? {
        var all :| Ascends(g, o.dentry, d, all) && WithinLimit(all, limit) && plain.value == PathOf(all);
        AscendsOnce(g, o.dentry, d, all, names + [rootName]);
      }
    } else if plain.Ok? && ShortClimb(g, o.dentry, d, root, limit) {
      var names :| Climbs(g, o.dentry, d, names, root) && |names| < limit;
      WalkIsClimb(g, o, d, mount, root, rootName, names, |names|);
      assert false;
    }
  }

  ghost predicate ShortClimb(g: Space, o: DentryOffsets, d: u64, root: u64, limit: nat)
    requires g.Valid()
  {
    exists names :: Climbs(g, o, d, names, root) && |names| < limit
  }

  lemma ClimbIsAscent(g: Space, o: Layout, d: u64, mount: u64, root: u64, rootName: Name, names: seq<Name>)
    requires g.Valid() && OneMount(g, o, mount, root, rootName) && Climbs(g, o.dentry, d, names, root)
    ensures !Visible(rootName) && Ascends(g, o.dentry, d, names + [rootName])
  {
    hide Climbs, Pointer, NameOf;
    AscendsAfter(g, o.dentry, d, names, root, [rootName]);
  }

  lemma {:induction false} RetainedShorter(names: seq<Name>)
    ensures |Retained(names)| <= |names|
  {
    if names != [] { RetainedShorter(names[1..]); }
  }
}

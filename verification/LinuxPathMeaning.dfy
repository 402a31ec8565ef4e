/** What the two path functions of vmi-os-linux answer, said of guest memory and of
    the bytes of the answer: which words are read, in which order the names come out
    and which of them are kept. */
module LinuxPathMeaning {
  import opened Words
  import opened VmiTypes
  import opened Guest
  import opened LinuxPaths

  // ---------- what memory holds ----------

  /** The word at `base + offset` is `v`, which is not null. */
  ghost predicate Points(g: Space, base: u64, offset: u64, v: u64)
    requires g.Valid()
  {
    v != 0 && base + offset < U64_LIMIT && g.U64(base + offset) == Ok(v)
  }

  /** The string at `dentry + name` has the length and bytes of `name`. */
  ghost predicate Named(g: Space, o: DentryOffsets, dentry: u64, name: Name)
    requires g.Valid()
  {
    var q := dentry + o.name;
    && q + o.qstrLength < U64_LIMIT && q + o.qstrName < U64_LIMIT
    && g.U32(q + o.qstrLength) == Ok(|name|) && |name| <= o.maximumName
    && g.U64(q + o.qstrName).Ok?
    && (name != [] ==> g.U64(q + o.qstrName).value != 0 && g.Bytes(g.U64(q + o.qstrName).value, |name|) == Ok(name))
  }

  /** `p` is the root of a mount that is its own parent. */
  ghost predicate AtTop(g: Space, o: Layout, p: Place)
    requires g.Valid()
  {
    Points(g, p.mount, o.mount.root, p.dentry) && Points(g, p.mount, o.mount.parent, p.mount)
  }

  /** `p` is the root of a mount that is mounted at `q`. */
  ghost predicate MountedAt(g: Space, o: Layout, p: Place, q: Place)
    requires g.Valid()
  {
    && Points(g, p.mount, o.mount.root, p.dentry) && q.mount != p.mount
    && Points(g, p.mount, o.mount.parent, q.mount) && Points(g, p.mount, o.mount.mountpoint, q.dentry)
  }

  /** `p` is not the root of its mount, and is called `name` in `q`. */
  ghost predicate CalledIn(g: Space, o: Layout, p: Place, name: Name, q: Place)
    requires g.Valid()
  {
    && (exists root: u64 :: Points(g, p.mount, o.mount.root, root) && root != p.dentry)
    && q.mount == p.mount && Points(g, p.dentry, o.dentry.parent, q.dentry)
    && Named(g, o.dentry, p.dentry, name)
  }

  lemma PointerPoints(g: Space, base: u64, offset: u64, v: u64)
    requires g.Valid()
    ensures Pointer(g, base, offset) == Ok(v) <==> Points(g, base, offset, v)
  {
    hide Space.U64, Space.Bytes;
  }

  lemma NameIsNamed(g: Space, o: DentryOffsets, dentry: u64, name: Name)
    requires g.Valid()
    ensures NameOf(g, o, dentry) == Ok(name) <==> Named(g, o, dentry, name)
  {
    hide Space.U64, Space.U32, Space.Bytes;
  }

  /** The moves of the walk are these three situations. */
  lemma MovesExactly(g: Space, o: Layout, p: Place, name: Name, q: Place)
    requires g.Valid()
    ensures MoveAt(g, o, p) == Stop <==> AtTop(g, o, p)
    ensures MoveAt(g, o, p) == Cross(q) <==> MountedAt(g, o, p, q)
    ensures MoveAt(g, o, p) == Up(name, q) <==> CalledIn(g, o, p, name, q)
  {
    hide Points, Pointer, NameOf, Named;
    forall root: u64 { PointerPoints(g, p.mount, o.mount.root, root); }
    forall parent: u64 { PointerPoints(g, p.mount, o.mount.parent, parent); }
    forall point: u64 { PointerPoints(g, p.mount, o.mount.mountpoint, point); }
    forall parent: u64 { PointerPoints(g, p.dentry, o.dentry.parent, parent); }
    NameIsNamed(g, o.dentry, p.dentry, name);
    var root := Pointer(g, p.mount, o.mount.root);
    if root.Ok? { assert Points(g, p.mount, o.mount.root, root.value); }
  }

  // ---------- one component more ----------

  /** The path of what is called `name` in the directory with path `parent`; names
      that are empty or a slash add nothing. */
  function Below(parent: seq<byte>, name: Name): seq<byte> {
    if name == [] || name == [0x2f] then parent
    else (if parent == [0x2f] then [] else parent) + [0x2f] + name
  }

  lemma {:induction false} ReversedPush(names: seq<Name>, last: Name)
    ensures Reversed([last] + names) == Reversed(names) + [last]
  {
    assert ([last] + names)[1..] == names;
  }

  lemma {:induction false} ReversedLength(names: seq<Name>)
    ensures |Reversed(names)| == |names|
  {
    if names != [] { ReversedLength(names[1..]); }
  }

  lemma {:induction false} RetainedVisible(names: seq<Name>)
    ensures forall i | 0 <= i < |Retained(names)| :: Visible(Retained(names)[i])
  {
    if names != [] { RetainedVisible(names[1..]); }
  }

  lemma {:induction false} ReversedMembers(names: seq<Name>)
    ensures forall x :: x in Reversed(names) <==> x in names
  {
    if names != [] {
      ReversedMembers(names[1..]);
      assert names == [names[0]] + names[1..];
    }
  }

  /** Only a path without components is a single slash. */
  lemma RootPath(names: seq<Name>)
    ensures PathOf(names) == [0x2f] <==> Retained(names) == []
  {
    var kept := Retained(names);
    ReversedLength(kept);
    if kept != [] {
      var components := Reversed(kept);
      RetainedVisible(names);
      ReversedMembers(kept);
      assert components[0] in kept;
      assert |Tail(components)| >= 1 + |components[0]| >= 2;
    }
  }

  lemma PathIsBelow(name: Name, names: seq<Name>)
    ensures PathOf([name] + names) == Below(PathOf(names), name)
    ensures PathOf([]) == [0x2f]
  {
    assert ([name] + names)[1..] == names;
    if Visible(name) {
      RootPath(names);
      ReversedPush(Retained(names), name);
      TailPush(Reversed(Retained(names)), name);
      ReversedLength(Retained(names));
    } else {
      assert [] + Retained(names) == Retained(names);
    }
  }

  // ---------- mounted paths ----------

  /** `path` is the path of `p`, found in `n` moves of which `c` name a component. */
  ghost predicate HasPath(g: Space, o: Layout, p: Place, path: seq<byte>, c: nat, n: nat)
    requires g.Valid()
    decreases n
  {
    || (AtTop(g, o, p) && path == [0x2f] && c == 0 && n == 0)
    || (n > 0 && exists q :: MountedAt(g, o, p, q) && HasPath(g, o, q, path, c, n - 1))
    || (n > 0 && c > 0 && exists name, q, parent ::
          CalledIn(g, o, p, name, q) && HasPath(g, o, q, parent, c - 1, n - 1) && path == Below(parent, name))
  }

  lemma {:induction false} LeadsHasPath(g: Space, o: Layout, p: Place, names: seq<Name>, n: nat)
    requires g.Valid() && Leads(g, o, p, names, n)
    ensures HasPath(g, o, p, PathOf(names), |names|, n)
    decreases n
  {
    hide MoveAt, AtTop, MountedAt, CalledIn, PathOf, Below;
    match MoveAt(g, o, p)
    case Stop =>
      MovesExactly(g, o, p, [], p);
      PathIsBelow([], []);
    case Cross(q) =>
      MovesExactly(g, o, p, [], q);
      LeadsHasPath(g, o, q, names, n - 1);
    case Up(name, q) =>
      MovesExactly(g, o, p, name, q);
      LeadsHasPath(g, o, q, names[1..], n - 1);
      PathIsBelow(name, names[1..]);
      assert names == [name] + names[1..];
  }

  lemma {:induction false} HasPathLeads(g: Space, o: Layout, p: Place, path: seq<byte>, c: nat, n: nat)
    returns (names: seq<Name>)
    requires g.Valid() && HasPath(g, o, p, path, c, n)
    ensures Leads(g, o, p, names, n) && |names| == c && path == PathOf(names)
    decreases n
  {
    hide MoveAt, AtTop, MountedAt, CalledIn, PathOf, Below;
    if AtTop(g, o, p) && path == [0x2f] && c == 0 && n == 0 {
      MovesExactly(g, o, p, [], p);
      PathIsBelow([], []);
      names := [];
    } else if q :| n > 0 && MountedAt(g, o, p, q) && HasPath(g, o, q, path, c, n - 1) {
      MovesExactly(g, o, p, [], q);
      names := HasPathLeads(g, o, q, path, c, n - 1);
    } else {
      var name, q, parent :|
        CalledIn(g, o, p, name, q) && HasPath(g, o, q, parent, c - 1, n - 1) && path == Below(parent, name);
      MovesExactly(g, o, p, name, q);
      var rest := HasPathLeads(g, o, q, parent, c - 1, n - 1);
      names := [name] + rest;
      assert names[1..] == rest;
      PathIsBelow(name, rest);
    }
  }

  /** `mounted_path` returns a path if and only if its arguments are valid and that is
      the path of the place, with fewer components named than the limit. */
  lemma MountedPathExact(
    g: Space, o: Layout, dentry: u64, mount: u64, limit: nat, r: Result<seq<byte>>, path: seq<byte>)
    requires g.Valid() && IsMountedPath(g, o, dentry, mount, limit, r)
    ensures r == Ok(path) <==>
      && dentry != 0 && mount != 0 && limit != 0 && 0 < o.dentry.maximumName <= 65_536
      && exists c: nat, n: nat :: HasPath(g, o, Place(dentry, mount), path, c, n) && c < limit
  {
    hide MoveAt, Leads, HasPath, PathOf;
    var p := Place(dentry, mount);
    if r == Ok(path) {
      var names, n: nat :| Leads(g, o, p, names, n) && |names| < limit && path == PathOf(names);
      LeadsHasPath(g, o, p, names, n);
    }
    if ArgumentsOk(dentry, mount, o.dentry, limit) && exists c: nat, n: nat :: HasPath(g, o, p, path, c, n) && c < limit {
      var c: nat, n: nat :| HasPath(g, o, p, path, c, n) && c < limit;
      var names := HasPathLeads(g, o, p, path, c, n);
      assert r.Ok?;
      var names', n': nat :| Leads(g, o, p, names', n') && |names'| < limit && r.value == PathOf(names');
      LeadsOnce(g, o, p, names, n, names', n');
    }
  }

  // ---------- paths without mounts ----------

  /** `path` is the path of `d`, found in `n` steps to a dentry that is its own parent;
      `kept` of the names on the way there, its own not among them, are components. */
  ghost predicate HasDentryPath(g: Space, o: DentryOffsets, d: u64, path: seq<byte>, kept: nat, n: nat)
    requires g.Valid()
    decreases n
  {
    exists name, up: u64 :: Named(g, o, d, name) && Points(g, d, o.parent, up) &&
      if up == d then n == 0 && kept == 0 && path == Below([0x2f], name)
      else
        var k: nat := if name == [] || name == [0x2f] then 0 else 1;
        n > 0 && kept >= k && exists parent ::
          HasDentryPath(g, o, up, parent, kept - k, n - 1) && path == Below(parent, name)
  }

  lemma AscentIs(g: Space, o: DentryOffsets, d: u64, name: Name, up: u64)
    requires g.Valid()
    ensures Named(g, o, d, name) && Points(g, d, o.parent, up) <==>
      AscentAt(g, o, d) == if up == d then Root(name) else Step(name, up)
  {
    hide Points, Pointer, NameOf, Named;
    PointerPoints(g, d, o.parent, up);
    NameIsNamed(g, o, d, name);
  }

  lemma {:induction false} AscendsHasPath(g: Space, o: DentryOffsets, d: u64, names: seq<Name>)
    requires g.Valid() && Ascends(g, o, d, names)
    ensures HasDentryPath(g, o, d, PathOf(names), |Retained(names[..|names| - 1])|, |names| - 1)
    decreases |names|
  {
    hide AscentAt, Named, Points, PathOf, Below;
    var rest := names[1..];
    assert names == [names[0]] + rest;
    PathIsBelow(names[0], rest);
    match AscentAt(g, o, d)
    case Root(name) =>
      AscentIs(g, o, d, name, d);
      assert names[..0] == [];
    case Step(name, up) =>
      AscentNotOwn(g, o, d);
      AscentIs(g, o, d, name, up);
      AscendsHasPath(g, o, up, rest);
      assert names[..|names| - 1] == [name] + rest[..|rest| - 1];
      assert ([name] + rest[..|rest| - 1])[1..] == rest[..|rest| - 1];
  }

  lemma AscentNotOwn(g: Space, o: DentryOffsets, d: u64)
    requires g.Valid() && AscentAt(g, o, d).Step?
    ensures AscentAt(g, o, d).parent != d
  {
    hide Pointer, NameOf;
  }

  lemma {:induction false} HasPathAscends(g: Space, o: DentryOffsets, d: u64, path: seq<byte>, kept: nat, n: nat)
    returns (names: seq<Name>)
    requires g.Valid() && HasDentryPath(g, o, d, path, kept, n)
    ensures Ascends(g, o, d, names) && |names| == n + 1 && path == PathOf(names)
    ensures kept == |Retained(names[..n])|
    decreases n
  {
    hide AscentAt, Named, Points, PathOf, Below;
    var name, up: u64 :| Named(g, o, d, name) && Points(g, d, o.parent, up) &&
      if up == d then n == 0 && kept == 0 && path == Below([0x2f], name)
      else
        var k: nat := if name == [] || name == [0x2f] then 0 else 1;
        n > 0 && kept >= k && exists parent ::
          HasDentryPath(g, o, up, parent, kept - k, n - 1) && path == Below(parent, name);
    AscentIs(g, o, d, name, up);
    if up == d {
      names := [name];
      PathIsBelow(name, []);
      assert [name] + [] == names && names[..0] == [];
    } else {
      var k: nat := if name == [] || name == [0x2f] then 0 else 1;
      var parent :| HasDentryPath(g, o, up, parent, kept - k, n - 1) && path == Below(parent, name);
      var rest := HasPathAscends(g, o, up, parent, kept - k, n - 1);
      names := [name] + rest;
      assert names[1..] == rest && names[..n][1..] == rest[..n - 1] && names[..n][0] == name;
      PathIsBelow(name, rest);
    }
  }

  /** `dentry_path` returns a path if and only if its arguments are valid and that is
      the path of the dentry, which is its own parent or has fewer components below its
      topmost ancestor than the limit. */
  lemma DentryPathExact(g: Space, o: DentryOffsets, dentry: u64, limit: nat, r: Result<seq<byte>>, path: seq<byte>)
    requires g.Valid() && IsDentryPath(g, o, dentry, limit, r)
    ensures r == Ok(path) <==>
      && dentry != 0 && limit != 0 && 0 < o.maximumName <= 65_536
      && exists kept: nat, n: nat :: HasDentryPath(g, o, dentry, path, kept, n) && (n == 0 || kept < limit)
  {
    hide AscentAt, Ascends, HasDentryPath, PathOf, Retained;
    if r == Ok(path) {
      var names :| Ascends(g, o, dentry, names) && WithinLimit(names, limit) && path == PathOf(names);
      AscendsSome(g, o, dentry, names);
      AscendsHasPath(g, o, dentry, names);
    }
    if dentry != 0 && limit != 0 && 0 < o.maximumName <= 65_536
      && exists kept: nat, n: nat :: HasDentryPath(g, o, dentry, path, kept, n) && (n == 0 || kept < limit)
    {
      var kept: nat, n: nat :| HasDentryPath(g, o, dentry, path, kept, n) && (n == 0 || kept < limit);
      var names := HasPathAscends(g, o, dentry, path, kept, n);
      assert WithinLimit(names, limit) && r.Ok?;
      var names' :| Ascends(g, o, dentry, names') && WithinLimit(names', limit) && r.value == PathOf(names');
      AscendsOnce(g, o, dentry, names, names');
    }
  }

  lemma AscendsSome(g: Space, o: DentryOffsets, d: u64, names: seq<Name>)
    requires g.Valid() && Ascends(g, o, d, names)
    ensures names != []
  {
    hide AscentAt;
  }

  // ---------- the names of an answer ----------

  /** The indices of the names that are neither empty nor a slash, last to first. */
  ghost predicate VisibleDown(names: seq<Name>, kept: seq<nat>) {
    && (forall k | 0 <= k < |kept| :: kept[k] < |names|)
    && (forall i: nat :: i in kept <==> i < |names| && names[i] != [] && names[i] != [0x2f])
    && (forall j, k | 0 <= j < k < |kept| :: kept[j] > kept[k])
  }

  function Picked(names: seq<Name>, kept: seq<nat>): (r: seq<Name>)
    requires forall k | 0 <= k < |kept| :: kept[k] < |names|
    ensures |r| == |kept| && forall k | 0 <= k < |kept| :: r[k] == names[kept[k]]
  {
    seq(|kept|, k requires 0 <= k < |kept| => names[kept[k]])
  }

  /** The same indices in a list that is one longer at the front. */
  function Raised(kept: seq<nat>): (r: seq<nat>)
    ensures |r| == |kept| && forall k | 0 <= k < |kept| :: r[k] == kept[k] + 1
  {
    seq(|kept|, k requires 0 <= k < |kept| => kept[k] + 1)
  }

  lemma InRaised(kept: seq<nat>, i: nat)
    ensures i in Raised(kept) <==> i > 0 && i - 1 in kept
  {
    if i in Raised(kept) {
      var k :| 0 <= k < |kept| && Raised(kept)[k] == i;
      assert kept[k] == i - 1;
    }
    if i > 0 && i - 1 in kept {
      var k :| 0 <= k < |kept| && kept[k] == i - 1;
      assert Raised(kept)[k] == i;
    }
  }

  lemma DownNext(names: seq<Name>, kept: seq<nat>)
    requires names != [] && VisibleDown(names[1..], kept)
    ensures VisibleDown(names, Raised(kept) + if Visible(names[0]) then [0] else [])
    ensures Picked(names, Raised(kept)) == Picked(names[1..], kept)
  {
    var all: seq<nat> := Raised(kept) + if Visible(names[0]) then [0] else [];
    forall i: nat ensures i in all <==> i < |names| && names[i] != [] && names[i] != [0x2f] {
      InRaised(kept, i);
      assert i > 0 ==> (i - 1 in kept <==> i < |names| && Visible(names[1..][i - 1]));
    }
  }

  lemma {:induction false} KeptLastToFirst(names: seq<Name>) returns (kept: seq<nat>)
    ensures VisibleDown(names, kept) && Reversed(Retained(names)) == Picked(names, kept)
  {
    if names == [] {
      kept := [];
    } else {
      var before := KeptLastToFirst(names[1..]);
      kept := KeptNext(names, before);
    }
  }

  lemma KeptNext(names: seq<Name>, before: seq<nat>) returns (kept: seq<nat>)
    requires names != [] && VisibleDown(names[1..], before)
    requires Reversed(Retained(names[1..])) == Picked(names[1..], before)
    ensures VisibleDown(names, kept) && Reversed(Retained(names)) == Picked(names, kept)
  {
    hide Reversed, VisibleDown, Visible;
    DownNext(names, before);
    assert forall k | 0 <= k < |before| :: Raised(before)[k] < |names| by { KeptWithin(names, before); }
    if Visible(names[0]) {
      kept := Raised(before) + [0];
      ReversedPush(Retained(names[1..]), names[0]);
      assert Picked(names, kept) == Picked(names, Raised(before)) + [names[0]];
    } else {
      kept := Raised(before);
      assert Raised(before) + [] == Raised(before);
      assert [] + Retained(names[1..]) == Retained(names[1..]);
    }
  }

  lemma KeptWithin(names: seq<Name>, before: seq<nat>)
    requires names != [] && VisibleDown(names[1..], before)
    ensures forall k | 0 <= k < |before| :: Raised(before)[k] < |names|
  {
  }

  lemma FirstIn(s: seq<nat>)
    ensures s != [] ==> s[0] in s
  {
  }

  lemma {:induction false} DownOnce(a: seq<nat>, b: seq<nat>)
    requires forall i :: i in a <==> i in b
    requires forall j, k | 0 <= j < k < |a| :: a[j] > a[k]
    requires forall j, k | 0 <= j < k < |b| :: b[j] > b[k]
    ensures a == b
  {
    FirstIn(a);
    FirstIn(b);
    if a != [] {
      var x :| 0 <= x < |b| && b[x] == a[0];
      var y :| 0 <= y < |a| && a[y] == b[0];
      assert a[0] == b[0];
      forall i ensures i in a[1..] <==> i in b[1..] {
        assert a == [a[0]] + a[1..] && b == [b[0]] + b[1..];
        assert i in a <==> i == a[0] || i in a[1..];
        assert i in b <==> i == b[0] || i in b[1..];
        if i in a[1..] { var k :| 0 <= k < |a| - 1 && a[1..][k] == i; assert a[0] > a[k + 1]; }
        if i in b[1..] { var k :| 0 <= k < |b| - 1 && b[1..][k] == i; assert b[0] > b[k + 1]; }
      }
      DownOnce(a[1..], b[1..]);
      assert a == [a[0]] + a[1..] && b == [b[0]] + b[1..];
    }
  }

  /** An answer joins the names met on the way up that are neither empty nor a slash,
      last met first: component `k` is `names[kept[k]]`.  Splitting it at its slashes
      gives them back, if none contains a slash. */
  lemma AnswerSplits(names: seq<Name>, kept: seq<nat>)
    requires VisibleDown(names, kept)
    ensures PathOf(names) == Joined(Picked(names, kept))
    ensures (forall name | name in names :: 0x2f !in name || name == [0x2f]) ==>
      Split(PathOf(names)) == [[]] + if kept == [] then [[]] else Picked(names, kept)
  {
    hide Split;
    var found := KeptLastToFirst(names);
    DownOnce(kept, found);
    if forall name | name in names :: 0x2f !in name || name == [0x2f] { PickedSplits(names, kept); }
  }

  lemma PickedSplits(names: seq<Name>, kept: seq<nat>)
    requires VisibleDown(names, kept) && forall name | name in names :: 0x2f !in name || name == [0x2f]
    ensures Split(Joined(Picked(names, kept))) == [[]] + if kept == [] then [[]] else Picked(names, kept)
  {
    hide Split;
    var components := Picked(names, kept);
    if kept == [] {
      assert components == [];
      SplitEmpty();
      SplitSlash([]);
      assert [SLASH] + [] == [SLASH];
    } else {
      forall c | c in components ensures SLASH !in c {
        var k :| 0 <= k < |kept| && components[k] == c;
        assert kept[k] in kept && names[kept[k]] in names;
      }
      JoinedSplits(components);
    }
  }
}

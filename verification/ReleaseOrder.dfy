/** `publication_order` of scripts/verify-package-metadata.py: packages in layers,
    each after its workspace dependencies. */
module ReleaseOrder {

  type Name = string

  datatype Package = Package(name: Name, dependencies: set<Name>)

  /** An order, or the packages that a cycle keeps from being published. */
  datatype Plan = Order(names: seq<Name>) | Cycle(stuck: set<Name>)

  function Names(packages: seq<Package>): set<Name> { set p | p in packages :: p.name }

  /** The dictionary keeps the last package of a name; dependencies outside the
      workspace do not count. */
  function Dependencies(packages: seq<Package>, names: set<Name>): map<Name, set<Name>> {
    if packages == [] then map[]
    else
      var last := packages[|packages| - 1];
      Dependencies(packages[..|packages| - 1], names)[last.name := last.dependencies * names]
  }

  lemma {:induction false} DependenciesKeys(packages: seq<Package>, names: set<Name>)
    ensures Dependencies(packages, names).Keys == Names(packages)
    ensures forall n | n in Dependencies(packages, names) :: Dependencies(packages, names)[n] <= names
  {
    if packages != [] {
      var rest, last := packages[..|packages| - 1], packages[|packages| - 1];
      DependenciesKeys(rest, names);
      assert packages == rest + [last];
      assert Names(packages) == Names(rest) + {last.name};
    }
  }

  // ---------- what the packages declare ----------

  /** Entry `i` is the one that counts for its name: the last. */
  predicate Counts(packages: seq<Package>, i: nat) {
    i < |packages| && forall j | i < j < |packages| :: packages[j].name != packages[i].name
  }

  /** Some package is called `n`. */
  predicate Named(packages: seq<Package>, n: Name) {
    exists i | 0 <= i < |packages| :: packages[i].name == n
  }

  /** The package called `a` declares a dependency on the package called `b`. */
  predicate Needs(packages: seq<Package>, a: Name, b: Name) {
    Named(packages, b) &&
    exists i | 0 <= i < |packages| :: Counts(packages, i) && packages[i].name == a && b in packages[i].dependencies
  }

  lemma NamesExact(packages: seq<Package>, n: Name)
    ensures n in Names(packages) <==> Named(packages, n)
  {
  }

  /** The dictionary has exactly these. */
  lemma DependenciesExact(packages: seq<Package>, a: Name, b: Name)
    ensures a in Dependencies(packages, Names(packages)) <==> Named(packages, a)
    ensures a in Dependencies(packages, Names(packages)) && b in Dependencies(packages, Names(packages))[a] <==>
      Needs(packages, a, b)
  {
    DependenciesKeys(packages, Names(packages));
    NamesExact(packages, a);
    NamesExact(packages, b);
    DependenciesCount(packages, Names(packages), a, b);
  }

  lemma {:induction false} DependenciesCount(packages: seq<Package>, names: set<Name>, a: Name, b: Name)
    ensures a in Dependencies(packages, names) && b in Dependencies(packages, names)[a] <==>
      b in names &&
      exists i | 0 <= i < |packages| :: Counts(packages, i) && packages[i].name == a && b in packages[i].dependencies
  {
    if packages != [] {
      var rest, n := packages[..|packages| - 1], |packages| - 1;
      DependenciesCount(rest, names, a, b);
      assert Counts(packages, n);
      forall i | 0 <= i < n ensures Counts(packages, i) <==> Counts(rest, i) && packages[i].name != packages[n].name {
        assert forall j | 0 <= j < n :: rest[j] == packages[j];
        if Counts(rest, i) && packages[i].name != packages[n].name {
          forall j | i < j < |packages| ensures packages[j].name != packages[i].name {
            if j < n { assert rest[j].name != rest[i].name; }
          }
        }
        if Counts(packages, i) {
          forall j | i < j < n ensures rest[j].name != rest[i].name { assert packages[j].name != packages[i].name; }
        }
      }
    }
  }

  // ---------- the order on names ----------

  predicate Before(a: Name, b: Name) {
    if b == [] then false else if a == [] then true else a[0] < b[0] || (a[0] == b[0] && Before(a[1..], b[1..]))
  }

  /** Dictionary order: at the first place where they differ `a` has the smaller
      character or has ended. */
  lemma {:induction false} BeforeExact(a: Name, b: Name)
    ensures Before(a, b) <==>
      exists k: nat :: k <= |a| && k < |b| && a[..k] == b[..k] && (k == |a| || a[k] < b[k])
  {
    if a != [] && b != [] {
      BeforeExact(a[1..], b[1..]);
      if Before(a, b) {
        if a[0] < b[0] {
          assert a[..0] == b[..0];
        } else {
          var k: nat :| k <= |a[1..]| && k < |b[1..]| && a[1..][..k] == b[1..][..k] && (k == |a[1..]| || a[1..][k] < b[1..][k]);
          assert a[..k + 1] == [a[0]] + a[1..][..k] && b[..k + 1] == [b[0]] + b[1..][..k];
        }
      }
      if k: nat :| k <= |a| && k < |b| && a[..k] == b[..k] && (k == |a| || a[k] < b[k]) {
        if k > 0 {
          assert a[..k][0] == b[..k][0];
          assert a[1..][..k - 1] == a[..k][1..] && b[1..][..k - 1] == b[..k][1..];
        }
      }
    } else if b != [] {
      assert a[..0] == b[..0];
    }
  }

  lemma {:induction false} BeforeTotal(a: Name, b: Name)
    ensures a != b ==> Before(a, b) != Before(b, a)
    ensures !Before(a, a)
  {
    if a != [] { BeforeTotal(a[1..], a[1..]); }
    if a != [] && b != [] && a[0] == b[0] {
      BeforeTotal(a[1..], b[1..]);
      if a[1..] == b[1..] { assert a == [a[0]] + a[1..] && b == [b[0]] + b[1..]; }
    }
  }

  lemma {:induction false} BeforeTransitive(a: Name, b: Name, c: Name)
    requires Before(a, b) && Before(b, c)
    ensures Before(a, c)
  {
    if a != [] && a[0] == b[0] && b[0] == c[0] { BeforeTransitive(a[1..], b[1..], c[1..]); }
  }

  predicate Sorted(s: seq<Name>) { forall i, j | 0 <= i < j < |s| :: Before(s[i], s[j]) }

  function Insert(x: Name, s: seq<Name>): seq<Name> {
    if s == [] || Before(x, s[0]) then [x] + s else [s[0]] + Insert(x, s[1..])
  }

  lemma {:induction false} InsertMembers(x: Name, s: seq<Name>, y: Name)
    ensures y in Insert(x, s) <==> y == x || y in s
  {
    if s != [] && !Before(x, s[0]) {
      InsertMembers(x, s[1..], y);
      assert s == [s[0]] + s[1..];
    }
  }

  lemma {:induction false} InsertSorted(x: Name, s: seq<Name>)
    requires Sorted(s) && x !in s
    ensures Sorted(Insert(x, s))
  {
    if s == [] {
    } else if Before(x, s[0]) {
      forall j | 0 <= j < |s| ensures Before(x, s[j]) {
        if j > 0 { BeforeTransitive(x, s[0], s[j]); }
      }
    } else {
      BeforeTotal(x, s[0]);
      InsertSorted(x, s[1..]);
      var rest := Insert(x, s[1..]);
      forall j | 0 <= j < |rest| ensures Before(s[0], rest[j]) {
        InsertMembers(x, s[1..], rest[j]);
      }
    }
  }

  /** `sorted` on a set of names. */
  method SortedNames(names: set<Name>) returns (s: seq<Name>)
    ensures Sorted(s) && forall n :: n in s <==> n in names
  {
    s := [];
    var rest := names;
    while rest != {}
      invariant rest <= names && Sorted(s)
      invariant forall n :: n in s <==> n in names && n !in rest
      decreases rest
    {
      var n :| n in rest;
      InsertSorted(n, s);
      forall m { InsertMembers(n, s, m); }
      s := Insert(n, s);
      rest := rest - {n};
    }
  }

  // ---------- what an order must be ----------

  predicate Distinct(s: seq<Name>) { forall i, j | 0 <= i < j < |s| :: s[i] != s[j] }

  /** Every package comes after all it depends on. */
  predicate DependenciesFirst(order: seq<Name>, dependencies: map<Name, set<Name>>)
  {
    forall i, d | 0 <= i < |order| && order[i] in dependencies && d in dependencies[order[i]] :: d in order[..i]
  }

  ghost predicate IsOrder(order: seq<Name>, names: set<Name>, dependencies: map<Name, set<Name>>) {
    && (forall n :: n in order <==> n in names)
    && Distinct(order) && DependenciesFirst(order, dependencies)
  }

  /** A non-empty set in which everyone depends on somebody in it. */
  predicate Entangled(stuck: set<Name>, dependencies: map<Name, set<Name>>) {
    stuck != {} && forall n | n in stuck :: n in dependencies && dependencies[n] * stuck != {}
  }

  /** `path` follows dependencies. */
  predicate IsPath(path: seq<Name>, dependencies: map<Name, set<Name>>) {
    forall i | 0 <= i < |path| - 1 :: path[i] in dependencies && path[i + 1] in dependencies[path[i]]
  }

  /** A package that reaches itself by following dependencies. */
  ghost predicate HasCycle(dependencies: map<Name, set<Name>>) {
    exists path :: IsCycle(path, dependencies)
  }

  predicate IsCycle(path: seq<Name>, dependencies: map<Name, set<Name>>) {
    |path| > 1 && path[0] == path[|path| - 1] && IsPath(path, dependencies)
  }

  // ---------- entangled packages are on a cycle ----------

  /** Following dependencies inside an entangled set, longer than it is large. */
  lemma {:induction false} LongPath(stuck: set<Name>, dependencies: map<Name, set<Name>>, n: nat) returns (path: seq<Name>)
    requires Entangled(stuck, dependencies)
    ensures |path| == n + 1 && IsPath(path, dependencies) && forall p | p in path :: p in stuck
  {
    if n == 0 {
      var first :| first in stuck;
      path := [first];
    } else {
      var shorter := LongPath(stuck, dependencies, n - 1);
      var next :| next in dependencies[shorter[n - 1]] * stuck;
      path := shorter + [next];
    }
  }

  lemma {:induction false} DistinctFits(s: seq<Name>, names: set<Name>)
    requires Distinct(s) && forall n | n in s :: n in names
    ensures |s| <= |names|
  {
    if s != [] {
      var last, rest := s[|s| - 1], s[..|s| - 1];
      forall n | n in rest ensures n in names - {last} {
        var i :| 0 <= i < |rest| && rest[i] == n;
        assert s[i] != s[|s| - 1];
      }
      DistinctFits(rest, names - {last});
    }
  }

  lemma EntangledHasCycle(stuck: set<Name>, dependencies: map<Name, set<Name>>)
    requires Entangled(stuck, dependencies)
    ensures HasCycle(dependencies)
  {
    var path := LongPath(stuck, dependencies, |stuck|);
    if Distinct(path) {
      DistinctFits(path, stuck);
      assert false;
    }
    var i, j :| 0 <= i < j < |path| && path[i] == path[j];
    var loop := path[i..j + 1];
    assert IsCycle(loop, dependencies) by {
      forall k | 0 <= k < |loop| - 1 ensures loop[k] in dependencies && loop[k + 1] in dependencies[loop[k]] {
        assert loop[k] == path[i + k] && loop[k + 1] == path[i + k + 1];
      }
    }
  }

  function Position(order: seq<Name>, n: Name): (i: nat)
    requires n in order
    ensures i < |order| && order[i] == n
  {
    if order[0] == n then 0 else 1 + Position(order[1..], n)
  }

  lemma DependencyIsEarlier(order: seq<Name>, names: set<Name>, dependencies: map<Name, set<Name>>, a: Name, b: Name)
    requires IsOrder(order, names, dependencies) && a in order && a in dependencies && b in dependencies[a]
    ensures b in order && Position(order, b) < Position(order, a)
  {
    var i := Position(order, a);
    assert b in order[..i];
    var k :| 0 <= k < i && order[..i][k] == b;
    assert order[k] == b;
    if Position(order, b) != k {
      assert Distinct(order);
      var p := Position(order, b);
      if p < k { assert false; }
      if k < p { assert false; }
    }
  }

  lemma {:induction false} PathGoesBack(
    path: seq<Name>, order: seq<Name>, names: set<Name>, dependencies: map<Name, set<Name>>)
    requires IsOrder(order, names, dependencies) && dependencies.Keys == names
    requires |path| > 1 && IsPath(path, dependencies)
    ensures path[0] in order && path[|path| - 1] in order
    ensures Position(order, path[|path| - 1]) < Position(order, path[0])
  {
    assert path[0] in names;
    DependencyIsEarlier(order, names, dependencies, path[0], path[1]);
    if |path| > 2 {
      forall i | 0 <= i < |path[1..]| - 1
        ensures path[1..][i] in dependencies && path[1..][i + 1] in dependencies[path[1..][i]]
      {
        assert path[1..][i] == path[i + 1] && path[1..][i + 1] == path[i + 2];
      }
      PathGoesBack(path[1..], order, names, dependencies);
    }
  }

  /** Packages on a cycle have no order. */
  lemma CycleHasNoOrder(order: seq<Name>, names: set<Name>, dependencies: map<Name, set<Name>>)
    requires HasCycle(dependencies) && dependencies.Keys == names
    ensures !IsOrder(order, names, dependencies)
  {
    var path :| IsCycle(path, dependencies);
    if IsOrder(order, names, dependencies) {
      PathGoesBack(path, order, names, dependencies);
      assert false;
    }
  }

  // ---------- the algorithm ----------

  /** The packages that wait for none of the remaining ones. */
  function ReadyIn(remaining: set<Name>, dependencies: map<Name, set<Name>>): set<Name>
    requires remaining <= dependencies.Keys
  {
    set n | n in remaining && dependencies[n] * remaining == {}
  }

  lemma LayerKeeps(
    order: seq<Name>, ready: seq<Name>, names: set<Name>, remaining: set<Name>, dependencies: map<Name, set<Name>>)
    requires dependencies.Keys == names && remaining <= names
    requires forall n | n in names :: dependencies[n] <= names
    requires IsOrder(order, names - remaining, dependencies) && Sorted(ready)
    requires forall n :: n in ready <==> n in ReadyIn(remaining, dependencies)
    ensures IsOrder(order + ready, names - (remaining - set n | n in ready), dependencies)
  {
    var all := order + ready;
    forall i, j | 0 <= i < j < |all| ensures all[i] != all[j] {
      if i >= |order| {
        BeforeTotal(all[i], all[j]);
        assert Before(ready[i - |order|], ready[j - |order|]);
      } else if j < |order| {
        assert order[i] != order[j];
      } else {
        assert order[i] in order && ready[j - |order|] in ready;
      }
    }
    forall i, d | 0 <= i < |all| && all[i] in dependencies && d in dependencies[all[i]] ensures d in all[..i] {
      if i < |order| {
        assert d in order[..i] && order[..i] == all[..i];
      } else {
        assert ready[i - |order|] in ready;
        assert d in dependencies[all[i]] * remaining <==> d in remaining;
        assert d in order && order <= all[..i];
      }
    }
  }

  function Members(s: seq<Name>): set<Name> { set n | n in s }

  /** Layer after layer: all that are ready, sorted, then the rest. */
  ghost predicate Layered(order: seq<Name>, remaining: set<Name>, dependencies: map<Name, set<Name>>)
    requires remaining <= dependencies.Keys
    decreases remaining
  {
    var ready := ReadyIn(remaining, dependencies);
    if remaining == {} then order == []
    else
      && ready != {} && |ready| <= |order|
      && Sorted(order[..|ready|]) && Members(order[..|ready|]) == ready
      && Layered(order[|ready|..], remaining - ready, dependencies)
  }

  lemma {:induction false} SortedOnce(a: seq<Name>, b: seq<Name>)
    requires Sorted(a) && Sorted(b) && Members(a) == Members(b)
    ensures a == b
  {
    NoMembers(a);
    NoMembers(b);
    if a != [] && b != [] {
      FirstIsLeast(a, b);
      assert a == [a[0]] + a[1..] && b == [b[0]] + b[1..];
      TailMembers(a);
      TailMembers(b);
      SortedOnce(a[1..], b[1..]);
    }
  }

  lemma NoMembers(s: seq<Name>)
    ensures s != [] ==> Members(s) != {}
  {
    if s != [] { assert s[0] in Members(s); }
  }

  lemma TailMembers(s: seq<Name>)
    requires Sorted(s) && s != []
    ensures Sorted(s[1..]) && Members(s[1..]) == Members(s) - {s[0]}
  {
    assert s == [s[0]] + s[1..];
    forall n | n in s[1..] ensures n != s[0] {
      var i :| 0 <= i < |s| - 1 && s[1..][i] == n;
      assert Before(s[0], s[i + 1]);
      BeforeTotal(s[0], s[0]);
    }
  }

  lemma FirstIsLeast(a: seq<Name>, b: seq<Name>)
    requires Sorted(a) && Sorted(b) && Members(a) == Members(b) && a != [] && b != []
    ensures a[0] == b[0]
  {
    assert a[0] in Members(a) && b[0] in Members(b);
    var i :| 0 <= i < |b| && b[i] == a[0];
    var j :| 0 <= j < |a| && a[j] == b[0];
    if i > 0 && j > 0 {
      assert Before(b[0], b[i]) && Before(a[0], a[j]);
      BeforeTotal(a[0], b[0]);
      assert false;
    }
  }

  /** The layered order is one order: the plan is deterministic. */
  lemma {:induction false} LayeredOnce(a: seq<Name>, b: seq<Name>, remaining: set<Name>, dependencies: map<Name, set<Name>>)
    requires remaining <= dependencies.Keys
    requires Layered(a, remaining, dependencies) && Layered(b, remaining, dependencies)
    ensures a == b
    decreases remaining
  {
    hide Sorted;
    if remaining != {} {
      var ready := ReadyIn(remaining, dependencies);
      var k := |ready|;
      SortedOnce(a[..k], b[..k]);
      LayeredOnce(a[k..], b[k..], remaining - ready, dependencies);
      assert a == a[..k] + a[k..] && b == b[..k] + b[k..];
    }
  }

  lemma {:induction false} SortedCount(s: seq<Name>)
    requires Sorted(s)
    ensures |Members(s)| == |s|
  {
    if s != [] {
      TailMembers(s);
      SortedCount(s[1..]);
      assert s[0] in Members(s);
    }
  }

  /** `order` is the layers already taken when `remaining` are left. */
  ghost predicate Begins(order: seq<Name>, remaining: set<Name>, names: set<Name>, dependencies: map<Name, set<Name>>)
    requires remaining <= names <= dependencies.Keys
  {
    forall rest | Layered(rest, remaining, dependencies) :: Layered(order + rest, names, dependencies)
  }

  lemma LayerBegins(
    order: seq<Name>, ready: seq<Name>, remaining: set<Name>, names: set<Name>, dependencies: map<Name, set<Name>>)
    requires remaining <= names <= dependencies.Keys && Begins(order, remaining, names, dependencies)
    requires ready != [] && Sorted(ready) && Members(ready) == ReadyIn(remaining, dependencies)
    ensures Begins(order + ready, remaining - Members(ready), names, dependencies)
  {
    hide Sorted, ReadyIn;
    SortedCount(ready);
    forall rest | Layered(rest, remaining - Members(ready), dependencies)
      ensures Layered(order + ready + rest, names, dependencies)
    {
      var more := ready + rest;
      assert more[..|ready|] == ready && more[|ready|..] == rest;
      assert ready[0] in Members(ready);
      ReadyRemain(remaining, dependencies);
      assert Layered(more, remaining, dependencies);
      assert order + more == order + ready + rest;
    }
  }

  lemma ReadyRemain(remaining: set<Name>, dependencies: map<Name, set<Name>>)
    requires remaining <= dependencies.Keys
    ensures ReadyIn(remaining, dependencies) <= remaining
  {
  }

  /** The largest set of packages that hold one another up. */
  ghost predicate GreatestEntangled(stuck: set<Name>, dependencies: map<Name, set<Name>>) {
    Entangled(stuck, dependencies) && AllEntangledWithin(stuck, dependencies)
  }

  ghost predicate AllEntangledWithin(names: set<Name>, dependencies: map<Name, set<Name>>) {
    forall e | Entangled(e, dependencies) :: e <= names
  }

  lemma EntangledNeverReady(remaining: set<Name>, dependencies: map<Name, set<Name>>)
    requires remaining <= dependencies.Keys && AllEntangledWithin(remaining, dependencies)
    ensures AllEntangledWithin(remaining - ReadyIn(remaining, dependencies), dependencies)
  {
    forall e | Entangled(e, dependencies) ensures e <= remaining - ReadyIn(remaining, dependencies) {
      forall n | n in e ensures n !in ReadyIn(remaining, dependencies) {
        var d :| d in dependencies[n] * e;
        assert d in dependencies[n] * remaining;
      }
    }
  }

  /** What the release script promises: the layered order if there is no cycle, and
      otherwise all the packages that hold one another up. */
  ghost predicate IsPlan(plan: Plan, packages: seq<Package>) {
    var names := Names(packages);
    var dependencies := Dependencies(packages, names);
    && names <= dependencies.Keys
    && (plan.Cycle? <==> HasCycle(dependencies))
    && match plan
       case Order(order) => IsOrder(order, names, dependencies) && Layered(order, names, dependencies)
       case Cycle(stuck) => GreatestEntangled(stuck, dependencies)
  }

  /** The same packages always give the same plan. */
  lemma OnePlan(a: Plan, b: Plan, packages: seq<Package>)
    requires IsPlan(a, packages) && IsPlan(b, packages)
    ensures a == b
  {
    hide HasCycle, Layered, IsOrder, Entangled;
    var names := Names(packages);
    if a.Order? { LayeredOnce(a.names, b.names, names, Dependencies(packages, names)); }
  }

  // ---------- the plan in terms of the packages ----------

  /** Following declared dependencies comes back to where it started. */
  predicate Circle(packages: seq<Package>, path: seq<Name>) {
    && |path| > 1 && path[0] == path[|path| - 1]
    && forall i | 0 <= i < |path| - 1 :: Needs(packages, path[i], path[i + 1])
  }

  /** An order names every package once, and whatever a package needs stands before it;
      there is none exactly when some declared dependencies form a circle, and then the
      report is the largest set of packages each of which needs another of the set. */
  ghost predicate Publishes(plan: Plan, packages: seq<Package>) {
    && (plan.Cycle? <==> exists path :: Circle(packages, path))
    && match plan
       case Order(order) =>
         && (forall n :: n in order <==> Named(packages, n))
         && (forall i, j | 0 <= i < j < |order| :: order[i] != order[j])
         && (forall i, b | 0 <= i < |order| && Needs(packages, order[i], b) :: b in order[..i])
       case Cycle(stuck) =>
         && stuck != {} && HoldsUp(packages, stuck)
         && forall e: set<Name> | e != {} && HoldsUp(packages, e) :: e <= stuck
  }

  ghost predicate HoldsUp(packages: seq<Package>, stuck: set<Name>) {
    forall a | a in stuck :: exists b :: b in stuck && Needs(packages, a, b)
  }

  lemma CircleExact(packages: seq<Package>, path: seq<Name>)
    ensures Circle(packages, path) <==> IsCycle(path, Dependencies(packages, Names(packages)))
  {
    hide Dependencies, Needs, Names;
    var D := Dependencies(packages, Names(packages));
    if Circle(packages, path) {
      forall i | 0 <= i < |path| - 1 ensures path[i] in D && path[i + 1] in D[path[i]] {
        assert Needs(packages, path[i], path[i + 1]);
        DependenciesExact(packages, path[i], path[i + 1]);
      }
    }
    if IsCycle(path, D) {
      forall i | 0 <= i < |path| - 1 ensures Needs(packages, path[i], path[i + 1]) {
        DependenciesExact(packages, path[i], path[i + 1]);
      }
    }
  }

  lemma HoldsUpExact(packages: seq<Package>, stuck: set<Name>)
    ensures stuck != {} && HoldsUp(packages, stuck) <==> Entangled(stuck, Dependencies(packages, Names(packages)))
  {
    hide Dependencies, Needs, Names;
    var D := Dependencies(packages, Names(packages));
    if HoldsUp(packages, stuck) {
      forall a | a in stuck ensures a in D && D[a] * stuck != {} {
        var b :| b in stuck && Needs(packages, a, b);
        DependenciesExact(packages, a, b);
        assert b in D[a] * stuck;
      }
    }
    if Entangled(stuck, D) {
      forall a | a in stuck ensures exists b :: b in stuck && Needs(packages, a, b) {
        var b :| b in D[a] * stuck;
        DependenciesExact(packages, a, b);
      }
    }
  }

  /** A plan by the dictionary is a plan by what the packages declare. */
  lemma PlanPublishes(plan: Plan, packages: seq<Package>)
    requires IsPlan(plan, packages)
    ensures Publishes(plan, packages)
  {
    hide Dependencies, Needs, Layered, HasCycle, Circle, Entangled, HoldsUp, Names, Named;
    assert plan.Cycle? <==> exists path :: Circle(packages, path) by {
      forall path { CircleExact(packages, path); }
      CycleIsPath(Dependencies(packages, Names(packages)));
    }
    match plan
    case Order(order) =>
      forall n ensures n in order <==> Named(packages, n) { NamesExact(packages, n); }
      forall i, b | 0 <= i < |order| && Needs(packages, order[i], b) ensures b in order[..i] {
        DependenciesExact(packages, order[i], b);
      }
    case Cycle(stuck) =>
      HoldsUpExact(packages, stuck);
      forall e: set<Name> | e != {} && HoldsUp(packages, e) ensures e <= stuck { HoldsUpExact(packages, e); }
      assert stuck != {} by { EntangledSome(stuck, Dependencies(packages, Names(packages))); }
  }

  lemma CycleIsPath(dependencies: map<Name, set<Name>>)
    ensures HasCycle(dependencies) <==> exists path :: IsCycle(path, dependencies)
  {
  }

  lemma EntangledSome(stuck: set<Name>, dependencies: map<Name, set<Name>>)
    requires Entangled(stuck, dependencies)
    ensures stuck != {}
  {
  }

  method PublicationOrder(packages: seq<Package>) returns (plan: Plan)
    ensures IsPlan(plan, packages)
    ensures Publishes(plan, packages)
  {
    hide IsOrder, HasCycle, Entangled, Dependencies, ReadyIn, Sorted, Begins, AllEntangledWithin, Layered, Publishes;
    var names := Names(packages);
    var dependencies := Dependencies(packages, names);
    DependenciesKeys(packages, names);
    var order: seq<Name>, remaining := [], names;
    EmptyOrder(names, dependencies);
    while remaining != {}
      invariant remaining <= names && IsOrder(order, names - remaining, dependencies)
      invariant Begins(order, remaining, names, dependencies) && AllEntangledWithin(remaining, dependencies)
      decreases remaining
    {
      var ready := SortedNames(ReadyIn(remaining, dependencies));
      if ready == [] {
        NothingReady(ready, remaining, dependencies);
        EntangledHasCycle(remaining, dependencies);
        plan := Cycle(remaining);
        PlanPublishes(plan, packages);
        return;
      }
      LayerKeeps(order, ready, names, remaining, dependencies);
      assert Members(ready) == ReadyIn(remaining, dependencies);
      LayerBegins(order, ready, remaining, names, dependencies);
      EntangledNeverReady(remaining, dependencies);
      order := order + ready;
      LayerShrinks(ready, remaining, dependencies);
      remaining := remaining - set n | n in ready;
    }
    assert names - remaining == names;
    if HasCycle(dependencies) { CycleHasNoOrder(order, names, dependencies); }
    AllLayers(order, names, dependencies);
    plan := Order(order);
    PlanPublishes(plan, packages);
  }

  lemma AllLayers(order: seq<Name>, names: set<Name>, dependencies: map<Name, set<Name>>)
    requires names <= dependencies.Keys && Begins(order, {}, names, dependencies)
    ensures Layered(order, names, dependencies)
  {
    assert Layered([], {}, dependencies);
    assert order + [] == order;
  }

  lemma EmptyOrder(names: set<Name>, dependencies: map<Name, set<Name>>)
    requires names == dependencies.Keys
    ensures IsOrder([], names - names, dependencies)
    ensures Begins([], names, names, dependencies) && AllEntangledWithin(names, dependencies)
  {
    forall rest | Layered(rest, names, dependencies) ensures Layered([] + rest, names, dependencies) {
      assert [] + rest == rest;
    }
  }

  lemma LayerShrinks(ready: seq<Name>, remaining: set<Name>, dependencies: map<Name, set<Name>>)
    requires ready != [] && remaining <= dependencies.Keys
    requires forall n :: n in ready <==> n in ReadyIn(remaining, dependencies)
    ensures (remaining - set n | n in ready) < remaining
  {
    assert ready[0] in ready;
  }

  lemma NothingReady(ready: seq<Name>, remaining: set<Name>, dependencies: map<Name, set<Name>>)
    requires remaining != {} && remaining <= dependencies.Keys && ready == []
    requires forall n :: n in ready <==> n in ReadyIn(remaining, dependencies)
    ensures Entangled(remaining, dependencies)
  {
    forall n | n in remaining ensures dependencies[n] * remaining != {} {
      assert n !in ready && n !in ReadyIn(remaining, dependencies);
    }
  }
}

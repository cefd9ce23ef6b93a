/** The start-up order of `LifecycleManager`: a depth-first topological sort that
    visits the services in ascending priority and raises on a circular dependency.

    `Dfs` and `DfsAll` are the recursion of the nested `visit` closure as functions
    of its three pieces of state; `OrderResolver` runs it on mutable fields. The main
    results are `ResolveMeaning` (an order exactly for the acyclic graphs, and then a
    topological sort of everything registered), `OrderFollowsRoutes` (which order exactly),
    `RankInversionsAreForced` and `StartsInRegistrationOrder`. */
module ServiceGraph {

  // Lower values start first.
  datatype Priority = Critical | Essential | Normal | Optional
  {
    function Value(): nat {
      match this
      case Critical => 0
      case Essential => 10
      case Normal => 20
      case Optional => 30
    }

    /** The order of starting in which the priorities are documented. */
    predicate Ahead(other: Priority) {
      match this
      case Critical => other != Critical
      case Essential => other.Normal? || other.Optional?
      case Normal => other.Optional?
      case Optional => false
    }
  }

  datatype Service = Service(name: string, priority: Priority, dependencies: seq<string>)

  type Registry = map<string, Service>

  // ---------- The dependency graph over registered services ----------

  ghost predicate Edge(g: Registry, a: string, b: string) {
    a in g && b in g && b in g[a].dependencies
  }

  ghost predicate IsPath(g: Registry, p: seq<string>) {
    |p| >= 2 && forall i | 0 <= i < |p| - 1 :: Edge(g, p[i], p[i + 1])
  }

  ghost predicate Connects(g: Registry, p: seq<string>, a: string, b: string) {
    IsPath(g, p) && p[0] == a && p[|p| - 1] == b
  }

  /** `b` is a proper transitive dependency of `a`. */
  ghost predicate Reaches(g: Registry, a: string, b: string) {
    exists p :: Connects(g, p, a, b)
  }

  /** A circular dependency; a service that names itself is one. */
  ghost predicate Cyclic(g: Registry) {
    exists n :: Reaches(g, n, n)
  }

  lemma EdgeReaches(g: Registry, a: string, b: string)
    requires Edge(g, a, b)
    ensures Reaches(g, a, b)
  {
    assert Connects(g, [a, b], a, b);
  }

  lemma ReachesThenEdge(g: Registry, a: string, b: string, c: string)
    requires Reaches(g, a, b) && Edge(g, b, c)
    ensures Reaches(g, a, c)
  {
    var p :| Connects(g, p, a, b);
    assert Connects(g, p + [c], a, c);
  }

  lemma EdgeThenReaches(g: Registry, a: string, b: string, c: string)
    requires Edge(g, a, b) && Reaches(g, b, c)
    ensures Reaches(g, a, c)
  {
    var p :| Connects(g, p, b, c);
    assert Connects(g, [a] + p, a, c);
  }

  // ---------- The depth-first search ----------

  datatype Outcome = Order(names: seq<string>) | Circular(at: string)

  /** One call of the nested `visit`: `open` is the set of services on the recursion
      stack, `order` the services already finished. */
  function Dfs(g: Registry, name: string, open: set<string>, order: seq<string>): Outcome
    requires name in g
    decreases g.Keys - open, 0
  {
    if name in open then
      Circular(name)
    else if name in order then
      Order(order)
    else
      match DfsAll(g, g[name].dependencies, open + {name}, order)
      case Circular(at) => Circular(at)
      case Order(names) => Order(names + [name])
  }

  /** Visits a list of services in turn, skipping names that are not registered. */
  function DfsAll(g: Registry, names: seq<string>, open: set<string>, order: seq<string>): Outcome
    decreases g.Keys - open, |names|
  {
    if names == [] then
      Order(order)
    else if names[0] !in g then
      DfsAll(g, names[1..], open, order)
    else
      match Dfs(g, names[0], open, order)
      case Circular(at) => Circular(at)
      case Order(done) => DfsAll(g, names[1..], open, done)
  }

  // ---------- Stable sort by priority ----------

  function InsertByPriority(g: Registry, name: string, sorted: seq<string>): seq<string>
    requires name in g && forall n <- sorted :: n in g
  {
    if sorted == [] || g[sorted[|sorted| - 1]].priority.Value() <= g[name].priority.Value() then
      sorted + [name]
    else
      InsertByPriority(g, name, sorted[..|sorted| - 1]) + [sorted[|sorted| - 1]]
  }

  function SortByPriority(g: Registry, names: seq<string>): (sorted: seq<string>)
    requires forall n <- names :: n in g
    ensures multiset(sorted) == multiset(names)
    ensures forall n <- sorted :: n in g
  {
    if names == [] then
      []
    else
      var last := names[|names| - 1];
      assert names == names[..|names| - 1] + [last];
      var rest := SortByPriority(g, names[..|names| - 1]);
      InsertKeeps(g, last, rest);
      InsertByPriority(g, last, rest)
  }

  lemma {:induction false} InsertKeeps(g: Registry, name: string, sorted: seq<string>)
    requires name in g && forall n <- sorted :: n in g
    ensures multiset(InsertByPriority(g, name, sorted)) == multiset(sorted) + multiset{name}
    ensures forall n <- InsertByPriority(g, name, sorted) :: n in g
  {
    var r := InsertByPriority(g, name, sorted);
    if sorted != [] && !(g[sorted[|sorted| - 1]].priority.Value() <= g[name].priority.Value()) {
      InsertKeeps(g, name, sorted[..|sorted| - 1]);
      assert sorted == sorted[..|sorted| - 1] + [sorted[|sorted| - 1]];
    }
    forall n | n in r ensures n in g {
      assert n in multiset(r);
      assert n in multiset(sorted) + multiset{name};
    }
  }

  ghost predicate Ascending(g: Registry, names: seq<string>)
    requires forall n <- names :: n in g
  {
    forall i, j | 0 <= i < j < |names| :: g[names[i]].priority.Value() <= g[names[j]].priority.Value()
  }

  /** The services of one priority, in the order of the list. */
  function OfPriority(g: Registry, names: seq<string>, p: Priority): seq<string>
    requires forall n <- names :: n in g
  {
    if names == [] then []
    else
      var rest := OfPriority(g, names[..|names| - 1], p);
      if g[names[|names| - 1]].priority == p then rest + [names[|names| - 1]] else rest
  }

  lemma InsertAtMost(g: Registry, name: string, sorted: seq<string>, top: nat)
    requires name in g && g[name].priority.Value() <= top
    requires forall n <- sorted :: n in g && g[n].priority.Value() <= top
    ensures forall n <- InsertByPriority(g, name, sorted) :: n in g && g[n].priority.Value() <= top
  {
    InsertKeeps(g, name, sorted);
    var r := InsertByPriority(g, name, sorted);
    forall n <- r ensures n in g && g[n].priority.Value() <= top {
      assert n in multiset(r);
      assert n in multiset(sorted) + multiset{name};
    }
  }

  lemma {:induction false} InsertAscends(g: Registry, name: string, sorted: seq<string>)
    requires name in g && (forall n <- sorted :: n in g) && Ascending(g, sorted)
    ensures forall n <- InsertByPriority(g, name, sorted) :: n in g
    ensures Ascending(g, InsertByPriority(g, name, sorted))
  {
    if sorted != [] && !(g[sorted[|sorted| - 1]].priority.Value() <= g[name].priority.Value()) {
      var init, last := sorted[..|sorted| - 1], sorted[|sorted| - 1];
      InsertAscends(g, name, init);
      InsertAtMost(g, name, init, g[last].priority.Value());
      var r := InsertByPriority(g, name, init);
      assert forall i | 0 <= i < |r| :: r[i] in r;
    }
  }

  lemma OfPrioritySnoc(g: Registry, names: seq<string>, name: string, p: Priority)
    requires name in g && forall n <- names :: n in g
    ensures OfPriority(g, names + [name], p)
         == OfPriority(g, names, p) + (if g[name].priority == p then [name] else [])
  {
    assert (names + [name])[..|names|] == names;
  }

  lemma {:induction false} InsertIsLast(g: Registry, name: string, sorted: seq<string>, p: Priority)
    requires name in g && (forall n <- sorted :: n in g)
    ensures forall n <- InsertByPriority(g, name, sorted) :: n in g
    ensures OfPriority(g, InsertByPriority(g, name, sorted), p)
         == OfPriority(g, sorted, p) + (if g[name].priority == p then [name] else [])
  {
    InsertKeeps(g, name, sorted);
    if sorted == [] || g[sorted[|sorted| - 1]].priority.Value() <= g[name].priority.Value() {
      OfPrioritySnoc(g, sorted, name, p);
    } else {
      var init, last := sorted[..|sorted| - 1], sorted[|sorted| - 1];
      InsertKeeps(g, name, init);
      InsertIsLast(g, name, init, p);
      OfPrioritySnoc(g, InsertByPriority(g, name, init), last, p);
    }
  }

  /** `sorted(..., key=priority)`: ascending by priority, and services of equal
      priority stay in registration order. */
  lemma {:induction false} SortIsStable(g: Registry, names: seq<string>, p: Priority)
    requires forall n <- names :: n in g
    ensures Ascending(g, SortByPriority(g, names))
    ensures OfPriority(g, SortByPriority(g, names), p) == OfPriority(g, names, p)
  {
    if names != [] {
      var init := names[..|names| - 1];
      SortIsStable(g, init, p);
      InsertAscends(g, names[|names| - 1], SortByPriority(g, init));
      InsertIsLast(g, names[|names| - 1], SortByPriority(g, init), p);
    }
  }

  lemma SortedNames(g: Registry, names: seq<string>)
    requires forall n :: n in names <==> n in g
    ensures forall n :: n in SortByPriority(g, names) <==> n in g
  {
    var sorted := SortByPriority(g, names);
    forall n | n in g ensures n in sorted {
      assert n in multiset(names);
      assert n in multiset(sorted);
    }
  }

  // ---------- The start-up order ----------

  /** `_resolve_startup_order` for services registered in the order `names`. */
  function Resolve(g: Registry, names: seq<string>): Outcome
    requires forall n <- names :: n in g
  {
    DfsAll(g, SortByPriority(g, names), {}, [])
  }

  ghost predicate Distinct(s: seq<string>) {
    forall i, j | 0 <= i < j < |s| :: s[i] != s[j]
  }

  /** No name twice, all registered, and every registered dependency strictly earlier. */
  ghost predicate Topological(g: Registry, order: seq<string>) {
    && Distinct(order)
    && (forall n <- order :: n in g)
    && (forall i, d | 0 <= i < |order| && Edge(g, order[i], d) :: d in order[..i])
  }

  /** `x` is one of the roots or a transitive dependency of one. */
  ghost predicate Below(g: Registry, roots: seq<string>, x: string) {
    exists r <- roots :: r == x || Reaches(g, r, x)
  }

  lemma BelowRoot(g: Registry, roots: seq<string>, r: string, x: string)
    requires r in roots && (r == x || Reaches(g, r, x))
    ensures Below(g, roots, x)
  {
  }

  lemma BelowMore(g: Registry, some: seq<string>, all: seq<string>, x: string)
    requires Below(g, some, x) && forall r <- some :: r in all
    ensures Below(g, all, x)
  {
    var r :| r in some && (r == x || Reaches(g, r, x));
    assert r in all;
  }

  /** What a search step may do to a finished prefix: extend it by services outside
      `open` that are among the `roots` or below them. */
  ghost predicate Extends(g: Registry, roots: seq<string>, open: set<string>, before: seq<string>, after: seq<string>) {
    && before <= after
    && Topological(g, after)
    && forall x | |before| <= x < |after| :: after[x] !in open && Below(g, roots, after[x])
  }

  lemma {:induction false} DfsSound(g: Registry, name: string, open: set<string>, order: seq<string>)
    requires name in g && Topological(g, order)
    ensures var r := Dfs(g, name, open, order);
            r.Order? ==> Extends(g, [name], open, order, r.names) && name in r.names
    decreases g.Keys - open, 0
  {
    if name !in open && name !in order {
      var deps := g[name].dependencies;
      DfsAllSound(g, deps, open + {name}, order);
      var inner := DfsAll(g, deps, open + {name}, order);
      if inner.Order? {
        var after := inner.names + [name];
        forall x | 0 <= x < |inner.names| ensures inner.names[x] != name {
          if x < |order| { assert inner.names[x] == order[x]; }
        }
        forall i, d | 0 <= i < |after| && Edge(g, after[i], d) ensures d in after[..i] {
          assert after[..i] == inner.names[..i];
          if i == |inner.names| { assert inner.names[..i] == inner.names; }
        }
        forall x | |order| <= x < |after| ensures after[x] !in open && Below(g, [name], after[x]) {
          if x < |inner.names| {
            assert Below(g, deps, inner.names[x]);
            var r :| r in deps && (r == after[x] || Reaches(g, r, after[x]));
            assert r in g by { if r != after[x] { var p :| Connects(g, p, r, after[x]); assert Edge(g, p[0], p[1]); } }
            assert Edge(g, name, r);
            if r == after[x] { EdgeReaches(g, name, r); } else { EdgeThenReaches(g, name, r, after[x]); }
          } else {
            assert after[x] == name;
          }
          BelowRoot(g, [name], name, after[x]);
        }
      }
    }
  }

  lemma {:induction false} DfsAllSound(g: Registry, names: seq<string>, open: set<string>, order: seq<string>)
    requires Topological(g, order)
    ensures var r := DfsAll(g, names, open, order);
            r.Order? ==> Extends(g, names, open, order, r.names) && forall n <- names :: n in g ==> n in r.names
    decreases g.Keys - open, |names|
  {
    if names != [] {
      var rest := names[1..];
      if names[0] !in g {
        DfsAllSound(g, rest, open, order);
        var r := DfsAll(g, rest, open, order);
        if r.Order? {
          forall x | |order| <= x < |r.names| ensures Below(g, names, r.names[x]) {
            BelowMore(g, rest, names, r.names[x]);
          }
        }
      } else {
        DfsSound(g, names[0], open, order);
        var first := Dfs(g, names[0], open, order);
        if first.Order? {
          DfsAllSound(g, rest, open, first.names);
          var r := DfsAll(g, rest, open, first.names);
          if r.Order? {
            forall x | |order| <= x < |r.names| ensures r.names[x] !in open && Below(g, names, r.names[x]) {
              if x < |first.names| {
                assert r.names[x] == first.names[x];
                BelowMore(g, [names[0]], names, r.names[x]);
              } else {
                BelowMore(g, rest, names, r.names[x]);
              }
            }
          }
        }
      }
    }
  }

  /** The search only raises at a service that lies on a cycle. */
  lemma {:induction false} DfsCircular(g: Registry, name: string, open: set<string>, order: seq<string>)
    requires name in g && forall v <- open :: Reaches(g, v, name)
    ensures var r := Dfs(g, name, open, order); r.Circular? ==> Reaches(g, r.at, r.at)
    decreases g.Keys - open, 0
  {
    if name !in open && name !in order {
      forall v <- open + {name}, d <- g[name].dependencies | d in g ensures Reaches(g, v, d) {
        assert Edge(g, name, d);
        if v == name { EdgeReaches(g, name, d); } else { ReachesThenEdge(g, v, name, d); }
      }
      DfsAllCircular(g, g[name].dependencies, open + {name}, order);
    }
  }

  lemma {:induction false} DfsAllCircular(g: Registry, names: seq<string>, open: set<string>, order: seq<string>)
    requires forall v <- open, d <- names | d in g :: Reaches(g, v, d)
    ensures var r := DfsAll(g, names, open, order); r.Circular? ==> Reaches(g, r.at, r.at)
    decreases g.Keys - open, |names|
  {
    if names != [] {
      if names[0] !in g {
        DfsAllCircular(g, names[1..], open, order);
      } else {
        DfsCircular(g, names[0], open, order);
        var first := Dfs(g, names[0], open, order);
        if first.Order? { DfsAllCircular(g, names[1..], open, first.names); }
      }
    }
  }

  /** Along a path the position in a complete topological order strictly decreases. */
  lemma {:induction false} PathDescends(g: Registry, order: seq<string>, p: seq<string>, i: nat)
    requires Topological(g, order) && (forall n <- g.Keys :: n in order) && IsPath(g, p)
    requires i < |order| && order[i] == p[0]
    ensures exists j | 0 <= j < i :: order[j] == p[|p| - 1]
    decreases |p|
  {
    assert Edge(g, p[0], p[1]);
    assert p[1] in order[..i];
    var k :| 0 <= k < i && order[k] == p[1];
    if |p| > 2 {
      assert forall x | 0 <= x < |p[1..]| - 1 :: Edge(g, p[1..][x], p[1..][x + 1]) by {
        forall x | 0 <= x < |p[1..]| - 1 ensures Edge(g, p[1..][x], p[1..][x + 1]) {
          assert Edge(g, p[x + 1], p[x + 2]);
        }
      }
      PathDescends(g, order, p[1..], k);
    }
  }

  /** `_resolve_startup_order` raises exactly when the dependencies over registered
      services have a cycle, and names a service on one; otherwise it returns every
      registered service once, each after its registered dependencies. */
  lemma ResolveMeaning(g: Registry, names: seq<string>)
    requires forall n :: n in names <==> n in g
    ensures var r := Resolve(g, names);
      && (r.Circular? <==> Cyclic(g))
      && (r.Circular? ==> Reaches(g, r.at, r.at))
      && (r.Order? ==> Topological(g, r.names) && forall n :: n in r.names <==> n in g)
  {
    var sorted := SortByPriority(g, names);
    DfsAllSound(g, sorted, {}, []);
    DfsAllCircular(g, sorted, {}, []);
    var r := Resolve(g, names);
    SortedNames(g, names);
    if r.Order? {
      if Cyclic(g) {
        var n :| Reaches(g, n, n);
        var p :| Connects(g, p, n, n);
        assert Edge(g, p[0], p[1]);
        var i :| 0 <= i < |r.names| && r.names[i] == n;
        PathDescends(g, r.names, p, i);
        assert false;
      }
    }
  }

  // ---------- Priorities ----------

  /** `x` entered the order in the round of root `i`: it is that root or below it, and
      every earlier root was already finished. */
  ghost predicate EnteredIn(g: Registry, roots: seq<string>, order: seq<string>, x: nat, i: nat)
    requires x < |order| && i < |roots|
  {
    && (roots[i] == order[x] || Reaches(g, roots[i], order[x]))
    && forall k | 0 <= k < i :: roots[k] in order[..x]
  }

  ghost predicate Entered(g: Registry, roots: seq<string>, order: seq<string>, x: nat, j: nat)
    requires x < |order| && j <= |roots|
  {
    exists i | 0 <= i < j :: EnteredIn(g, roots, order, x, i)
  }

  ghost predicate Rounds(g: Registry, roots: seq<string>, j: nat, order: seq<string>)
    requires j <= |roots|
  {
    && (forall k | 0 <= k < j :: roots[k] in order)
    && forall x | 0 <= x < |order| :: Entered(g, roots, order, x, j)
  }

  lemma {:induction false} RoundsComplete(g: Registry, roots: seq<string>, j: nat, order: seq<string>)
    requires j <= |roots| && (forall n <- roots :: n in g)
    requires Topological(g, order) && Rounds(g, roots, j, order)
    ensures var r := DfsAll(g, roots[j..], {}, order); r.Order? ==> Rounds(g, roots, |roots|, r.names)
    decreases |roots| - j
  {
    if j < |roots| {
      DfsSound(g, roots[j], {}, order);
      var first := Dfs(g, roots[j], {}, order);
      assert roots[j..][1..] == roots[j + 1..];
      if first.Order? {
        var after := first.names;
        var next := j + 1;
        forall x | 0 <= x < |after| ensures Entered(g, roots, after, x, next) {
          if x < |order| {
            assert after[..x] == order[..x] && after[x] == order[x];
            assert Entered(g, roots, order, x, j);
            var i :| 0 <= i < j && EnteredIn(g, roots, order, x, i);
            assert EnteredIn(g, roots, after, x, i);
          } else {
            assert Below(g, [roots[j]], after[x]);
            forall k | 0 <= k < j ensures roots[k] in after[..x] {
              assert order == after[..x][..|order|];
            }
            assert EnteredIn(g, roots, after, x, j);
          }
        }
        RoundsComplete(g, roots, next, after);
      }
    }
  }

  lemma InvertedPair(g: Registry, roots: seq<string>, order: seq<string>, x: nat, y: nat)
    requires (forall n <- roots :: n in g) && Ascending(g, roots)
    requires Topological(g, order) && Rounds(g, roots, |roots|, order)
    requires x < y < |order| && order[y] in roots
    requires g[order[x]].priority.Value() > g[order[y]].priority.Value()
    ensures exists n :: n in g && g[n].priority.Value() <= g[order[y]].priority.Value() && Reaches(g, n, order[x])
  {
    assert Entered(g, roots, order, x, |roots|);
    var i :| 0 <= i < |roots| && EnteredIn(g, roots, order, x, i);
    var b :| 0 <= b < |roots| && roots[b] == order[y];
    if b < i {
      assert false;
    }
    assert roots[i] in g && Reaches(g, roots[i], order[x]);
  }

  /** A service ahead of one with a smaller priority value is there because some service
      of at most that smaller value transitively depends on it. */
  lemma InversionsAreForced(g: Registry, names: seq<string>, x: nat, y: nat)
    requires forall n :: n in names <==> n in g
    requires Resolve(g, names).Order? && x < y < |Resolve(g, names).names|
    requires var order := Resolve(g, names).names;
      order[x] in g && order[y] in g && g[order[x]].priority.Value() > g[order[y]].priority.Value()
    ensures var order := Resolve(g, names).names;
      exists n :: n in g && g[n].priority.Value() <= g[order[y]].priority.Value() && Reaches(g, n, order[x])
  {
    var roots := SortByPriority(g, names);
    ResolveMeaning(g, names);
    SortIsStable(g, names, Critical);
    SortedNames(g, names);
    assert roots[0..] == roots;
    RoundsComplete(g, roots, 0, []);
    InvertedPair(g, roots, Resolve(g, names).names, x, y);
  }

  /** When no service depends on one with a larger priority value, the order ascends
      by priority. */
  lemma AscendsWhenUnforced(g: Registry, names: seq<string>)
    requires forall n :: n in names <==> n in g
    requires forall a, b | Edge(g, a, b) :: g[b].priority.Value() <= g[a].priority.Value()
    requires Resolve(g, names).Order?
    ensures (forall n <- Resolve(g, names).names :: n in g) && Ascending(g, Resolve(g, names).names)
  {
    ResolveMeaning(g, names);
    var order := Resolve(g, names).names;
    forall x, y | 0 <= x < y < |order|
      ensures g[order[x]].priority.Value() <= g[order[y]].priority.Value()
    {
      if g[order[x]].priority.Value() > g[order[y]].priority.Value() {
        InversionsAreForced(g, names, x, y);
        var n :| n in g && g[n].priority.Value() <= g[order[y]].priority.Value() && Reaches(g, n, order[x]);
        var p :| Connects(g, p, n, order[x]);
        PriorityFalls(g, p);
        assert false;
      }
    }
  }

  lemma {:induction false} PriorityFalls(g: Registry, p: seq<string>)
    requires forall a, b | Edge(g, a, b) :: g[b].priority.Value() <= g[a].priority.Value()
    requires IsPath(g, p)
    ensures p[0] in g && p[|p| - 1] in g && g[p[|p| - 1]].priority.Value() <= g[p[0]].priority.Value()
  {
    assert Edge(g, p[0], p[1]);
    if |p| > 2 {
      forall x | 0 <= x < |p[1..]| - 1 ensures Edge(g, p[1..][x], p[1..][x + 1]) {
        assert Edge(g, p[x + 1], p[x + 2]);
      }
      PriorityFalls(g, p[1..]);
    }
  }

  // ---------- The exact order ----------

  ghost predicate Precedes(names: seq<string>, a: string, b: string) {
    exists i, j | 0 <= i < j < |names| :: names[i] == a && names[j] == b
  }

  /** `a` ranks before `b`: by priority, and by registration among equals. */
  ghost predicate RanksBefore(g: Registry, names: seq<string>, a: string, b: string) {
    && a in g && b in g
    && var p, q := g[a].priority, g[b].priority;
       p.Ahead(q) || (p == q && Precedes(names, a, b))
  }

  ghost predicate InRankOrder(g: Registry, names: seq<string>, s: seq<string>) {
    forall i, j | 0 <= i < j < |s| :: RanksBefore(g, names, s[i], s[j])
  }

  /** The registered services in the order of their rank. */
  ghost predicate Ranked(g: Registry, names: seq<string>, s: seq<string>) {
    InRankOrder(g, names, s) && forall n :: n in s <==> n in names
  }

  lemma RankedAppend(g: Registry, names: seq<string>, s: seq<string>, last: string)
    requires InRankOrder(g, names, s) && forall n <- s :: RanksBefore(g, names, n, last)
    ensures InRankOrder(g, names, s + [last])
  {
  }

  lemma {:induction false} InsertRanks(g: Registry, names: seq<string>, name: string, sorted: seq<string>)
    requires name in g && (forall n <- sorted :: n in g && Precedes(names, n, name)) && InRankOrder(g, names, sorted)
    ensures InRankOrder(g, names, InsertByPriority(g, name, sorted))
  {
    if sorted != [] {
      var init, last := sorted[..|sorted| - 1], sorted[|sorted| - 1];
      forall n <- init ensures RanksBefore(g, names, n, last) {
        var i :| 0 <= i < |init| && sorted[i] == n;
      }
      if g[last].priority.Value() <= g[name].priority.Value() {
        assert forall n <- sorted :: n in init || n == last;
        RankedAppend(g, names, sorted, name);
      } else {
        InsertRanks(g, names, name, init);
        InsertKeeps(g, name, init);
        var r := InsertByPriority(g, name, init);
        forall n <- r ensures RanksBefore(g, names, n, last) {
          assert n in multiset(r);
        }
        RankedAppend(g, names, r, last);
      }
    }
  }

  lemma SortRanksMore(g: Registry, names: seq<string>, more: seq<string>, s: seq<string>)
    requires names <= more && InRankOrder(g, names, s)
    ensures InRankOrder(g, more, s)
  {
    forall i, j | 0 <= i < j < |s| ensures RanksBefore(g, more, s[i], s[j]) {
      assert RanksBefore(g, names, s[i], s[j]);
      if Precedes(names, s[i], s[j]) {
        var k, l :| 0 <= k < l < |names| && names[k] == s[i] && names[l] == s[j];
        assert more[k] == s[i] && more[l] == s[j];
      }
    }
  }

  lemma {:induction false} SortRanks(g: Registry, names: seq<string>)
    requires forall n <- names :: n in g
    ensures InRankOrder(g, names, SortByPriority(g, names))
  {
    if names != [] {
      var init, last := names[..|names| - 1], names[|names| - 1];
      SortRanks(g, init);
      SortRanksMore(g, init, names, SortByPriority(g, init));
      forall n <- SortByPriority(g, init) ensures n in g && Precedes(names, n, last) {
        assert n in multiset(SortByPriority(g, init)) && n in multiset(init);
        var i :| 0 <= i < |init| && names[i] == n;
        assert names[i] == n && names[|names| - 1] == last;
      }
      InsertRanks(g, names, last, SortByPriority(g, init));
    }
  }

  lemma RankIsStrict(g: Registry, names: seq<string>, a: string, b: string)
    requires Distinct(names) && RanksBefore(g, names, a, b)
    ensures !RanksBefore(g, names, b, a)
  {
  }

  lemma RankTransitive(g: Registry, names: seq<string>, a: string, b: string, c: string)
    requires Distinct(names) && RanksBefore(g, names, a, b) && RanksBefore(g, names, b, c)
    ensures RanksBefore(g, names, a, c)
  {
    if Precedes(names, a, b) && Precedes(names, b, c) {
      var i, j :| 0 <= i < j < |names| && names[i] == a && names[j] == b;
      var k, l :| 0 <= k < l < |names| && names[k] == b && names[l] == c;
      assert j == k;
    }
  }

  lemma RankTotal(g: Registry, names: seq<string>, a: string, b: string)
    requires a in names && b in names && a in g && b in g && a != b
    ensures RanksBefore(g, names, a, b) || RanksBefore(g, names, b, a)
  {
    var i :| 0 <= i < |names| && names[i] == a;
    var j :| 0 <= j < |names| && names[j] == b;
  }

  lemma RankedIsDistinct(g: Registry, names: seq<string>, s: seq<string>)
    requires Distinct(names) && InRankOrder(g, names, s)
    ensures Distinct(s)
  {
    forall i, j | 0 <= i < j < |s| ensures s[i] != s[j] {
      RankIsStrict(g, names, s[i], s[j]);
    }
  }

  lemma {:induction false} RankedPrefix(g: Registry, names: seq<string>, s: seq<string>, t: seq<string>, k: nat)
    requires Distinct(names) && Ranked(g, names, s) && Ranked(g, names, t) && k <= |s|
    ensures k <= |t| && s[..k] == t[..k]
  {
    if k > 0 {
      RankedPrefix(g, names, s, t, k - 1);
      RankedIsDistinct(g, names, s);
      RankedIsDistinct(g, names, t);
      assert forall i | 0 <= i < k - 1 :: s[i] == s[..k - 1][i] == t[i];
      assert s[k - 1] in t;
      var j :| 0 <= j < |t| && t[j] == s[k - 1];
      assert t[k - 1] in s;
      var m :| 0 <= m < |s| && s[m] == t[k - 1];
      if k - 1 < j { RankIsStrict(g, names, t[k - 1], t[j]); }
    }
  }

  /** There is one such list, the sorted one. */
  lemma RankedIsSorted(g: Registry, names: seq<string>, s: seq<string>)
    requires Distinct(names) && (forall n <- names :: n in g) && Ranked(g, names, s)
    ensures s == SortByPriority(g, names)
  {
    var sorted := SortByPriority(g, names);
    SortRanks(g, names);
    forall n ensures n in sorted <==> n in names {
      assert n in multiset(sorted) <==> n in multiset(names);
    }
    RankedPrefix(g, names, s, sorted, |s|);
    RankedPrefix(g, names, sorted, s, |sorted|);
    assert s[..|s|] == s && sorted[..|sorted|] == sorted;
  }

  /** A way to `x`: an index into the list that is visited, then one into the dependencies
      of the service it names, and so on. */
  ghost predicate Leads(g: Registry, list: seq<string>, route: seq<nat>, x: string)
    decreases |route|
  {
    && route != [] && route[0] < |list| && list[route[0]] in g
    && if |route| == 1 then list[route[0]] == x else Leads(g, g[list[route[0]]].dependencies, route[1..], x)
  }

  /** At the first index where they differ `p` is smaller, or it goes on where `q` ends. */
  predicate Sooner(p: seq<nat>, q: seq<nat>)
    decreases |p|
  {
    p != [] && (q == [] || p[0] < q[0] || (p[0] == q[0] && Sooner(p[1..], q[1..])))
  }

  /** What is below a finished service is finished. */
  lemma {:induction false} RouteFinished(g: Registry, order: seq<string>, list: seq<string>, route: seq<nat>, x: string)
    requires Topological(g, order) && Leads(g, list, route, x) && list[route[0]] in order
    ensures x in order
    decreases |route|
  {
    if |route| > 1 {
      var n := list[route[0]];
      var deps, i :| deps == g[n].dependencies && 0 <= i < |order| && order[i] == n;
      assert Edge(g, n, deps[route[1]]);
      RouteFinished(g, order, deps, route[1..], x);
    }
  }

  lemma {:induction false} RouteReaches(g: Registry, list: seq<string>, route: seq<nat>, x: string)
    requires Leads(g, list, route, x)
    ensures var r := list[route[0]]; r in g && (r == x || Reaches(g, r, x))
    decreases |route|
  {
    if |route| > 1 {
      var r := list[route[0]];
      var deps := g[r].dependencies;
      RouteReaches(g, deps, route[1..], x);
      assert Edge(g, r, deps[route[1]]);
      if deps[route[1]] == x { EdgeReaches(g, r, x); } else { EdgeThenReaches(g, r, deps[route[1]], x); }
    }
  }

  lemma RouteInto(g: Registry, name: string, route: seq<nat>, x: string)
    requires name in g && Leads(g, g[name].dependencies, route, x)
    ensures Leads(g, [name], [0] + route, x)
  {
    assert ([0] + route)[1..] == route;
  }

  lemma RouteOnward(g: Registry, names: seq<string>, route: seq<nat>, x: string)
    requires names != [] && Leads(g, names[1..], route, x)
    ensures Leads(g, names, [route[0] + 1] + route[1..], x)
  {
    assert ([route[0] + 1] + route[1..])[1..] == route[1..];
  }

  lemma RouteBack(g: Registry, names: seq<string>, route: seq<nat>, x: string)
    requires names != [] && Leads(g, names, route, x) && route[0] > 0
    ensures Leads(g, names[1..], [route[0] - 1] + route[1..], x)
  {
    assert ([route[0] - 1] + route[1..])[1..] == route[1..];
  }

  /** There is a way to every service that a visit finished. */
  lemma {:induction false} DfsRoute(g: Registry, name: string, open: set<string>, order: seq<string>, x: nat)
      returns (p: seq<nat>)
    requires name in g && Topological(g, order)
    requires var r := Dfs(g, name, open, order); r.Order? && |order| <= x < |r.names|
    ensures Leads(g, [name], p, Dfs(g, name, open, order).names[x])
    decreases g.Keys - open, 0
  {
    var deps := g[name].dependencies;
    var inner := DfsAll(g, deps, open + {name}, order);
    if x < |inner.names| {
      p := DfsAllRoute(g, deps, open + {name}, order, x);
      RouteInto(g, name, p, inner.names[x]);
      p := [0] + p;
    } else {
      p := [0];
    }
  }

  lemma {:induction false} DfsAllRoute(g: Registry, names: seq<string>, open: set<string>, order: seq<string>, x: nat)
      returns (p: seq<nat>)
    requires Topological(g, order)
    requires var r := DfsAll(g, names, open, order); r.Order? && |order| <= x < |r.names|
    ensures Leads(g, names, p, DfsAll(g, names, open, order).names[x])
    decreases g.Keys - open, |names|
  {
    if names[0] in g {
      DfsSound(g, names[0], open, order);
      var first := Dfs(g, names[0], open, order);
      DfsAllSound(g, names[1..], open, first.names);
      if x < |first.names| {
        p := DfsRoute(g, names[0], open, order, x);
      } else {
        p := DfsAllRoute(g, names[1..], open, first.names, x);
        RouteOnward(g, names, p, DfsAll(g, names, open, order).names[x]);
        p := [p[0] + 1] + p[1..];
      }
    } else {
      p := DfsAllRoute(g, names[1..], open, order, x);
      RouteOnward(g, names, p, DfsAll(g, names, open, order).names[x]);
      p := [p[0] + 1] + p[1..];
    }
  }

  /** Of two services that a visit finished, the first has a sooner way for every way to
      the second. */
  lemma {:induction false} DfsSooner(g: Registry, name: string, open: set<string>, order: seq<string>, x: nat, y: nat,
        q: seq<nat>) returns (p: seq<nat>)
    requires name in g && Topological(g, order)
    requires var r := Dfs(g, name, open, order);
      r.Order? && |order| <= x < y < |r.names| && Leads(g, [name], q, r.names[y])
    ensures Leads(g, [name], p, Dfs(g, name, open, order).names[x]) && Sooner(p, q)
    decreases g.Keys - open, 0
  {
    var deps := g[name].dependencies;
    var inner := DfsAll(g, deps, open + {name}, order);
    DfsSound(g, name, open, order);
    DfsAllSound(g, deps, open + {name}, order);
    var after := Dfs(g, name, open, order).names;
    assert after == inner.names + [name];
    if |q| == 1 {
      assert y == |inner.names|;
      p := DfsAllRoute(g, deps, open + {name}, order, x);
    } else {
      assert deps[q[1]] in inner.names;
      RouteFinished(g, inner.names, deps, q[1..], after[y]);
      assert y < |inner.names|;
      p := DfsAllSooner(g, deps, open + {name}, order, x, y, q[1..]);
    }
    RouteInto(g, name, p, after[x]);
    p := [0] + p;
  }

  lemma {:induction false} DfsAllSooner(g: Registry, names: seq<string>, open: set<string>, order: seq<string>, x: nat,
        y: nat, q: seq<nat>) returns (p: seq<nat>)
    requires Topological(g, order)
    requires var r := DfsAll(g, names, open, order);
      r.Order? && |order| <= x < y < |r.names| && Leads(g, names, q, r.names[y])
    ensures Leads(g, names, p, DfsAll(g, names, open, order).names[x]) && Sooner(p, q)
    decreases g.Keys - open, |names|
  {
    var all := DfsAll(g, names, open, order).names;
    if names[0] !in g {
      RouteBack(g, names, q, all[y]);
      p := DfsAllSooner(g, names[1..], open, order, x, y, [q[0] - 1] + q[1..]);
      RouteOnward(g, names, p, all[x]);
      p := SoonerOnward(p, q);
    } else {
      DfsSound(g, names[0], open, order);
      var first := Dfs(g, names[0], open, order);
      DfsAllSound(g, names[1..], open, first.names);
      if x < |first.names| {
        if q[0] == 0 {
          RouteFinished(g, first.names, names, q, all[y]);
          p := DfsSooner(g, names[0], open, order, x, y, q);
        } else {
          p := DfsRoute(g, names[0], open, order, x);
        }
      } else {
        if q[0] == 0 { RouteFinished(g, first.names, names, q, all[y]); }
        RouteBack(g, names, q, all[y]);
        p := DfsAllSooner(g, names[1..], open, first.names, x, y, [q[0] - 1] + q[1..]);
        RouteOnward(g, names, p, all[x]);
        p := SoonerOnward(p, q);
      }
    }
  }

  lemma SoonerOnward(p: seq<nat>, q: seq<nat>) returns (next: seq<nat>)
    requires q != [] && q[0] > 0 && Sooner(p, [q[0] - 1] + q[1..])
    ensures next == [p[0] + 1] + p[1..] && Sooner(next, q)
  {
    next := [p[0] + 1] + p[1..];
    assert next[1..] == p[1..] && ([q[0] - 1] + q[1..])[1..] == q[1..];
  }

  /** The order, exactly: with `ranked` the services by rank, a service stands before
      another only if every way from `ranked` to the other has a sooner way to it. So the
      ranks decide, then the order in which each service lists its dependencies. */
  lemma OrderFollowsRoutes(g: Registry, names: seq<string>, ranked: seq<string>, x: nat, y: nat, q: seq<nat>)
      returns (p: seq<nat>)
    requires (forall n :: n in names <==> n in g) && Distinct(names) && Ranked(g, names, ranked)
    requires var r := Resolve(g, names); r.Order? && x < y < |r.names| && Leads(g, ranked, q, r.names[y])
    ensures Leads(g, ranked, p, Resolve(g, names).names[x]) && Sooner(p, q)
  {
    RankedIsSorted(g, names, ranked);
    p := DfsAllSooner(g, ranked, {}, [], x, y, q);
  }

  /** A service ahead of one that ranks before it is there because some service that ranks
      no later than that one transitively depends on it. */
  lemma RankInversionsAreForced(g: Registry, names: seq<string>, x: nat, y: nat)
    requires (forall n :: n in names <==> n in g) && Distinct(names)
    requires var r := Resolve(g, names);
      r.Order? && x < y < |r.names| && RanksBefore(g, names, r.names[y], r.names[x])
    ensures var order := Resolve(g, names).names;
      exists n :: (n == order[y] || RanksBefore(g, names, n, order[y])) && Reaches(g, n, order[x])
  {
    var order, ranked := Resolve(g, names).names, SortByPriority(g, names);
    ResolveMeaning(g, names);
    SortRanks(g, names);
    SortedNames(g, names);
    assert order[y] in ranked;
    var b :| 0 <= b < |ranked| && ranked[b] == order[y];
    var p := OrderFollowsRoutes(g, names, ranked, x, y, [b]);
    RouteReaches(g, ranked, p, order[x]);
    var n := ranked[p[0]];
    assert p[0] < b ==> RanksBefore(g, names, n, order[y]);
    RankIsStrict(g, names, order[y], order[x]);
    assert order[x] != order[y];
  }

  lemma {:induction false} RankFalls(g: Registry, names: seq<string>, p: seq<string>)
    requires Distinct(names) && forall a, b | Edge(g, a, b) :: RanksBefore(g, names, b, a)
    requires IsPath(g, p)
    ensures RanksBefore(g, names, p[|p| - 1], p[0])
  {
    assert Edge(g, p[0], p[1]);
    if |p| > 2 {
      forall x | 0 <= x < |p[1..]| - 1 ensures Edge(g, p[1..][x], p[1..][x + 1]) {
        assert Edge(g, p[x + 1], p[x + 2]);
      }
      RankFalls(g, names, p[1..]);
      RankTransitive(g, names, p[|p| - 1], p[1], p[0]);
    }
  }

  lemma ReachedRanksBefore(g: Registry, names: seq<string>, a: string, b: string)
    requires Distinct(names) && forall a, b | Edge(g, a, b) :: RanksBefore(g, names, b, a)
    requires Reaches(g, a, b)
    ensures RanksBefore(g, names, b, a) && a != b
  {
    var p :| Connects(g, p, a, b);
    RankFalls(g, names, p);
    RankIsStrict(g, names, b, a);
  }

  /** When no service depends on one that ranks after it, there is an order, it is that of
      the ranks, and services of one priority start in the order they were registered. */
  lemma StartsInRegistrationOrder(g: Registry, names: seq<string>, p: Priority)
    requires (forall n :: n in names <==> n in g) && Distinct(names)
    requires forall a, b | Edge(g, a, b) :: RanksBefore(g, names, b, a)
    ensures var r := Resolve(g, names);
      && r.Order? && Ranked(g, names, r.names) && (forall n <- r.names :: n in g)
      && OfPriority(g, r.names, p) == OfPriority(g, names, p)
  {
    ResolveMeaning(g, names);
    if n :| Reaches(g, n, n) { ReachedRanksBefore(g, names, n, n); }
    var order := Resolve(g, names).names;
    forall x, y | 0 <= x < y < |order| ensures RanksBefore(g, names, order[x], order[y]) {
      RankTotal(g, names, order[x], order[y]);
      if RanksBefore(g, names, order[y], order[x]) {
        RankIsStrict(g, names, order[y], order[x]);
        RankInversionsAreForced(g, names, x, y);
        var n :| (n == order[y] || RanksBefore(g, names, n, order[y])) && Reaches(g, n, order[x]);
        ReachedRanksBefore(g, names, n, order[x]);
        if n != order[y] { RankTransitive(g, names, order[x], n, order[y]); }
      }
    }
    RankedIsSorted(g, names, order);
    SortIsStable(g, names, p);
  }

  // ---------- The search on mutable state ----------

  datatype Raised = Nothing | CircularAt(name: string)

  /** The three locals that the nested `visit` closes over. */
  class OrderResolver {
    const services: Registry
    var visited: set<string>
    var tempVisited: set<string>
    var order: seq<string>

    constructor (services: Registry)
      ensures this.services == services
      ensures visited == {} && tempVisited == {} && order == []
    {
      this.services := services;
      visited, tempVisited, order := {}, {}, [];
    }

    ghost predicate Valid()
      reads this
    {
      visited == set n | n in order
    }

    method Visit(service: Service) returns (raised: Raised)
      requires Valid() && service.name in services && services[service.name] == service
      requires forall n <- services :: services[n].name == n
      modifies this
      decreases services.Keys - tempVisited, 0
      ensures match Dfs(services, service.name, old(tempVisited), old(order))
        case Circular(at) => raised == CircularAt(at)
        case Order(names) => raised == Nothing && Valid() && order == names && tempVisited == old(tempVisited)
    {
      if service.name in tempVisited {
        return CircularAt(service.name);
      }
      if service.name in visited {
        return Nothing;
      }
      tempVisited := tempVisited + {service.name};
      label marked:
      ghost var open := tempVisited;
      for i := 0 to |service.dependencies|
        invariant Valid() && tempVisited == open
        invariant DfsAll(services, service.dependencies, open, old(order))
               == DfsAll(services, service.dependencies[i..], open, order)
      {
        var dep := service.dependencies[i];
        assert service.dependencies[i..][1..] == service.dependencies[i + 1..];
        if dep !in services {
          continue;
        }
        raised := Visit(services[dep]);
        if raised.CircularAt? {
          return;
        }
      }
      tempVisited := tempVisited - {service.name};
      visited := visited + {service.name};
      order := order + [service.name];
      return Nothing;
    }
  }

  method ResolveStartupOrder(services: Registry, registered: seq<string>) returns (r: Outcome)
    requires forall n <- registered :: n in services
    requires forall n <- services :: services[n].name == n
    ensures r == Resolve(services, registered)
  {
    var sorted := SortByPriority(services, registered);
    var resolver := new OrderResolver(services);
    for i := 0 to |sorted|
      invariant resolver.Valid() && resolver.tempVisited == {} && resolver.services == services
      invariant fresh(resolver)
      invariant DfsAll(services, sorted, {}, []) == DfsAll(services, sorted[i..], {}, resolver.order)
    {
      assert sorted[i..][1..] == sorted[i + 1..];
      var raised := resolver.Visit(services[sorted[i]]);
      if raised.CircularAt? {
        return Circular(raised.name);
      }
    }
    return Order(resolver.order);
  }
}

/** Route finding between mail servers (`bfs_path`, `dfs_path`,
    `simulate_send`). Adjacency sets are iterated in an order the model
    leaves open: each loop picks any element it has not handled yet. */
module Paths {
  import opened Wrappers
  import opened Network

  /** A non-empty sequence of servers, each connected to the next. */
  predicate IsWalk(g: Graph, p: seq<string>)
  {
    |p| > 0 && p[0] in g.nodes && forall i :: 0 <= i < |p| - 1 ==> p[i + 1] in Nbrs(g, p[i])
  }

  /** p is a walk from s to t. */
  predicate Joins(g: Graph, p: seq<string>, s: string, t: string)
  {
    IsWalk(g, p) && p[0] == s && p[|p| - 1] == t
  }

  ghost predicate Reachable(g: Graph, s: string, t: string)
  {
    exists p :: Joins(g, p, s, t)
  }

  predicate Distinct(p: seq<string>)
  {
    forall i, j :: 0 <= i < j < |p| ==> p[i] != p[j]
  }

  /** Under the graph invariant every server on a walk is known. */
  lemma WalkKnown(g: Graph, p: seq<string>)
    requires Valid(g) && IsWalk(g, p)
    ensures forall i :: 0 <= i < |p| ==> p[i] in g.nodes
  {
    forall i | 0 < i < |p| ensures p[i] in g.nodes {
      assert p[i] in Nbrs(g, p[i - 1]);
    }
  }

  /** A walk that starts inside a set closed under connections stays inside it. */
  lemma {:induction false} StaysInside(g: Graph, inside: set<string>, p: seq<string>)
    requires IsWalk(g, p) && p[0] in inside
    requires forall w :: w in inside ==> Nbrs(g, w) <= inside
    ensures p[|p| - 1] in inside
    decreases |p|
  {
    if |p| > 1 {
      var q := p[..|p| - 1];
      assert IsWalk(g, q);
      StaysInside(g, inside, q);
      assert p[|p| - 1] in Nbrs(g, q[|q| - 1]);
    }
  }

  /** A predecessor map rooted at `start`: every other key was reached over a
      connection from a key whose rank is one less. */
  ghost predicate Chain(g: Graph, prev: map<string, Option<string>>, rank: map<string, nat>, start: string)
  {
    && start in prev && prev[start] == None && rank.Keys == prev.Keys && rank[start] == 0
    && forall v :: v in prev && v != start ==> Linked(g, prev, rank, v)
  }

  ghost predicate Linked(g: Graph, prev: map<string, Option<string>>, rank: map<string, nat>, v: string)
    requires v in prev && rank.Keys == prev.Keys
  {
    prev[v].Some? && prev[v].value in prev && v in Nbrs(g, prev[v].value) && rank[v] == rank[prev[v].value] + 1
  }

  /** Recording u as the predecessor of a server v that no key has as its
      predecessor keeps the map a chain rooted at start. */
  lemma ChainExtend(g: Graph, prev: map<string, Option<string>>, rank: map<string, nat>, start: string, u: string, v: string)
    requires Chain(g, prev, rank, start) && u in prev && v in Nbrs(g, u) && v != start && v != u
    requires forall w :: w in prev && w != start ==> prev[w].Some? && prev[w].value != v
    ensures Chain(g, prev[v := Some(u)], rank[v := rank[u] + 1], start)
  {
    var prev', rank' := prev[v := Some(u)], rank[v := rank[u] + 1];
    forall w | w in prev' && w != start ensures Linked(g, prev', rank', w) {
      if w != v {
        assert Linked(g, prev, rank, w);
      }
    }
  }

  /** The path reconstruction shared by both searches: follow predecessors
      from the goal back to the start, which has none. The result runs from
      start to goal, has one server per rank step, and repeats no server. */
  method Trace(g: Graph, prev: map<string, Option<string>>, ghost rank: map<string, nat>, start: string, goal: string)
    returns (path: seq<string>)
    requires start in g.nodes && Chain(g, prev, rank, start) && goal in prev
    ensures Joins(g, path, start, goal) && |path| == rank[goal] + 1
    ensures Distinct(path)
  {
    path := [];
    var cur: Option<string> := Some(goal);
    while cur.Some?
      invariant cur.Some? ==> cur.value in prev && |path| + rank[cur.value] == rank[goal]
      invariant cur.Some? && path != [] ==> path[0] in Nbrs(g, cur.value)
      invariant cur.None? ==> |path| == rank[goal] + 1 && path[0] == start
      invariant path == [] ==> cur == Some(goal)
      invariant path != [] ==> path[|path| - 1] == goal
      invariant forall i :: 0 <= i < |path| - 1 ==> path[i + 1] in Nbrs(g, path[i])
      invariant forall i :: 0 <= i < |path| ==> path[i] in prev && rank[path[i]] + |path| == rank[goal] + 1 + i
      decreases if cur.Some? then rank[cur.value] + 1 else 0
    {
      var c := cur.value;
      path := [c] + path;
      cur := prev[c];
    }
  }

  /** Server w has been expanded: all its neighbours are discovered, none
      more than one step further from the start. */
  ghost predicate Expanded(g: Graph, dist: map<string, nat>, w: string)
    requires w in dist
  {
    Nbrs(g, w) <= dist.Keys && forall x :: x in Nbrs(g, w) ==> dist[x] <= dist[w] + 1
  }

  /** When every discovered server closer than `level` has been expanded,
      a walk from the start of at most `level` steps ends at a discovered
      server at most that many steps away. */
  lemma {:induction false} WithinLevel(g: Graph, prev: map<string, Option<string>>, dist: map<string, nat>,
                                       done: set<string>, start: string, level: nat, p: seq<string>)
    requires Chain(g, prev, dist, start) && done <= prev.Keys
    requires forall w :: w in prev && dist[w] < level ==> w in done
    requires forall w :: w in done ==> Expanded(g, dist, w)
    requires IsWalk(g, p) && p[0] == start && |p| - 1 <= level
    ensures p[|p| - 1] in prev && dist[p[|p| - 1]] <= |p| - 1
    decreases |p|
  {
    if |p| > 1 {
      var q := p[..|p| - 1];
      assert IsWalk(g, q);
      WithinLevel(g, prev, dist, done, start, level, q);
      var y := q[|q| - 1];
      assert y in done;
      assert p[|p| - 1] in Nbrs(g, y);
    }
  }

  /** The queue holds discovered servers in order of distance, spanning at
      most two consecutive distances. */
  ghost predicate Layered(q: seq<string>, dist: map<string, nat>)
  {
    && (forall i :: 0 <= i < |q| ==> q[i] in dist)
    && (forall i, j :: 0 <= i <= j < |q| ==> dist[q[i]] <= dist[q[j]])
    && (q != [] ==> forall v :: v in dist ==> dist[v] <= dist[q[0]] + 1)
  }

  /** The state of `bfs_path` at the top of its loop: a chain of
      predecessors, every discovered server either expanded or waiting in the
      queue, and the goal not yet expanded. */
  ghost predicate Frontier(g: Graph, start: string, goal: string, q: seq<string>,
                           prev: map<string, Option<string>>, dist: map<string, nat>, done: set<string>)
  {
    && Chain(g, prev, dist, start) && prev.Keys <= g.nodes.Keys
    && Layered(q, dist)
    && (forall v :: v in prev ==> v in done || v in q)
    && done <= prev.Keys && goal !in done
    && (forall w :: w in done ==> Expanded(g, dist, w))
  }

  /** The state of `bfs_path` once the goal has left the queue: every server
      closer than the goal has been expanded. */
  ghost predicate Settled(g: Graph, start: string, goal: string,
                          prev: map<string, Option<string>>, dist: map<string, nat>, done: set<string>)
  {
    && Chain(g, prev, dist, start) && prev.Keys <= g.nodes.Keys && goal in prev && done <= prev.Keys
    && (forall w :: w in done ==> Expanded(g, dist, w))
    && (forall w :: w in prev && dist[w] < dist[goal] ==> w in done)
  }

  /** Taking the goal off the front of the queue settles the search. */
  lemma PopGoal(g: Graph, start: string, goal: string, q: seq<string>,
                prev: map<string, Option<string>>, dist: map<string, nat>, done: set<string>)
    requires Frontier(g, start, goal, q, prev, dist, done) && q != [] && q[0] == goal
    ensures Settled(g, start, goal, prev, dist, done)
  {
  }

  /** The discovered servers after part of an expansion: the old ones keep
      their distance, and `added` lists the new ones, each at distance
      `level` + 1. */
  ghost predicate Grown(prev: map<string, Option<string>>, dist: map<string, nat>,
                        prev': map<string, Option<string>>, dist': map<string, nat>, added: seq<string>, level: nat)
  {
    && dist.Keys == prev.Keys && dist'.Keys == prev'.Keys && prev.Keys <= prev'.Keys
    && (forall w :: w in prev ==> dist'[w] == dist[w])
    && (forall i :: 0 <= i < |added| ==> added[i] in prev' && added[i] !in prev && dist'[added[i]] == level + 1)
    && (forall v :: v in prev' ==> v in prev || v in added)
  }

  lemma GrowStep(prev: map<string, Option<string>>, dist: map<string, nat>,
                 prev': map<string, Option<string>>, dist': map<string, nat>, added: seq<string>, level: nat,
                 u: string, v: string)
    requires Grown(prev, dist, prev', dist', added, level) && v !in prev'
    ensures Grown(prev, dist, prev'[v := Some(u)], dist'[v := level + 1], added + [v], level)
  {
    var added' := added + [v];
    forall i | 0 <= i < |added'| ensures added'[i] in prev'[v := Some(u)] && added'[i] !in prev && dist'[v := level + 1][added'[i]] == level + 1 {
      if i < |added| {
        assert added'[i] == added[i];
      }
    }
    forall x | x in prev'[v := Some(u)] ensures x in prev || x in added' {
      if x != v && x !in prev {
        var i :| 0 <= i < |added| && added[i] == x;
        assert added'[i] == x;
      }
    }
  }

  /** One undiscovered neighbour v of u: record u as its predecessor, one
      step further than u, and queue it. */
  method Discover(g: Graph, start: string, u: string, v: string, ghost level: nat, ghost q: seq<string>,
                  ghost prev: map<string, Option<string>>, ghost dist: map<string, nat>,
                  q': seq<string>, prev': map<string, Option<string>>, ghost dist': map<string, nat>, ghost added: seq<string>)
    returns (q'': seq<string>, prev'': map<string, Option<string>>, ghost dist'': map<string, nat>, ghost added': seq<string>)
    requires v in g.nodes && v in Nbrs(g, u) && v !in prev'
    requires Chain(g, prev', dist', start) && prev'.Keys <= g.nodes.Keys && u in prev' && dist'[u] == level
    requires Grown(prev, dist, prev', dist', added, level) && q' == q + added
    ensures Chain(g, prev'', dist'', start) && prev''.Keys <= g.nodes.Keys
    ensures Grown(prev, dist, prev'', dist'', added', level) && q'' == q + added'
    ensures prev''.Keys == prev'.Keys + {v}
  {
    ChainExtend(g, prev', dist', start, u, v);
    GrowStep(prev, dist, prev', dist', added, level, u, v);
    prev'' := prev'[v := Some(u)];
    dist'' := dist'[v := level + 1];
    q'' := q' + [v];
    added' := added + [v];
  }

  /** The inner loop of `bfs_path`: every neighbour of u that is not yet
      discovered gets u as predecessor, one more step than u, and joins the
      end of the queue. */
  method Expand(g: Graph, start: string, u: string, q: seq<string>,
                prev: map<string, Option<string>>, ghost dist: map<string, nat>)
    returns (q': seq<string>, prev': map<string, Option<string>>, ghost dist': map<string, nat>, ghost added: seq<string>)
    requires Valid(g)
    requires Chain(g, prev, dist, start) && prev.Keys <= g.nodes.Keys && u in prev
    ensures Chain(g, prev', dist', start) && prev'.Keys <= g.nodes.Keys
    ensures Grown(prev, dist, prev', dist', added, dist[u])
    ensures q' == q + added && (prev'.Keys == prev.Keys ==> added == [])
    ensures Nbrs(g, u) <= prev'.Keys
  {
    q', prev', dist', added := q, prev, dist, [];
    var todo := Nbrs(g, u);
    while todo != {}
      invariant todo <= Nbrs(g, u)
      invariant Chain(g, prev', dist', start) && prev'.Keys <= g.nodes.Keys
      invariant Grown(prev, dist, prev', dist', added, dist[u])
      invariant q' == q + added
      invariant Nbrs(g, u) - todo <= prev'.Keys
      decreases todo
    {
      var v :| v in todo;
      if v !in prev' {
        assert v in g.nodes by { assert v in g.adj[u]; }
        q', prev', dist', added := Discover(g, start, u, v, dist[u], q, prev, dist, q', prev', dist', added);
      }
      todo := todo - {v};
    }
    assert added != [] ==> added[0] in prev'.Keys - prev.Keys;
  }

  /** Appending servers one step beyond the front keeps the queue layered. */
  lemma AppendLayer(q: seq<string>, added: seq<string>, dist: map<string, nat>, dist': map<string, nat>, level: nat)
    requires q != [] && Layered(q, dist) && dist[q[0]] == level
    requires forall v :: v in dist ==> v in dist' && dist'[v] == dist[v]
    requires forall i :: 0 <= i < |added| ==> added[i] in dist' && dist'[added[i]] == level + 1
    requires forall v :: v in dist' ==> v in dist || v in added
    ensures Layered(q[1..] + added, dist')
  {
    var q' := q[1..] + added;
    forall i | 0 <= i < |q'| ensures q'[i] in dist' && level <= dist'[q'[i]] <= level + 1 {
      if i < |q| - 1 {
        assert q'[i] == q[i + 1];
      } else {
        assert q'[i] == added[i - (|q| - 1)];
      }
    }
    forall i, j | 0 <= i <= j < |q'| ensures dist'[q'[i]] <= dist'[q'[j]] {
      if j < |q| - 1 {
        assert q'[i] == q[i + 1] && q'[j] == q[j + 1];
      } else {
        assert q'[j] == added[j - (|q| - 1)];
      }
    }
    forall v | v in dist' ensures dist'[v] <= level + 1 {
      if v !in dist {
        var i :| 0 <= i < |added| && added[i] == v;
      }
    }
  }

  /** After expanding the front u, every discovered server is expanded or waiting. */
  lemma StillCovered(q: seq<string>, prev: map<string, Option<string>>, prev': map<string, Option<string>>,
                     done: set<string>, added: seq<string>)
    requires q != [] && forall v :: v in prev ==> v in done || v in q
    requires forall v :: v in prev' ==> v in prev || v in added
    ensures forall v :: v in prev' ==> v in done + {q[0]} || v in q[1..] + added
  {
    var q' := q[1..] + added;
    forall v | v in prev' ensures v in done + {q[0]} || v in q' {
      if v in prev && v !in done && v != q[0] {
        var i :| 0 <= i < |q| && q[i] == v;
        assert q'[i - 1] == v;
      } else if v !in prev {
        var i :| 0 <= i < |added| && added[i] == v;
        assert q'[|q| - 1 + i] == v;
      }
    }
  }

  /** Expanded servers stay expanded as distances are only added, and u
      becomes expanded once its neighbours are discovered at most one step
      further. */
  lemma StillExpanded(g: Graph, u: string, dist: map<string, nat>, dist': map<string, nat>, done: set<string>)
    requires done <= dist.Keys && u in dist'
    requires forall w :: w in done ==> Expanded(g, dist, w)
    requires forall w :: w in dist ==> w in dist' && dist'[w] == dist[w]
    requires Nbrs(g, u) <= dist'.Keys && forall v :: v in dist' ==> dist'[v] <= dist'[u] + 1
    ensures forall w :: w in done + {u} ==> Expanded(g, dist', w)
  {
    forall w | w in done + {u} ensures Expanded(g, dist', w) {
      if w in done {
        assert Expanded(g, dist, w);
      }
    }
  }

  /** Expanding the server at the front of the queue keeps the loop state. */
  lemma ExpandKeeps(g: Graph, start: string, goal: string, q: seq<string>,
                    prev: map<string, Option<string>>, dist: map<string, nat>, done: set<string>,
                    q': seq<string>, prev': map<string, Option<string>>, dist': map<string, nat>, added: seq<string>)
    requires Frontier(g, start, goal, q, prev, dist, done) && q != [] && q[0] != goal
    requires Chain(g, prev', dist', start) && prev'.Keys <= g.nodes.Keys
    requires Grown(prev, dist, prev', dist', added, dist[q[0]])
    requires q' == q[1..] + added
    requires Nbrs(g, q[0]) <= prev'.Keys
    ensures Frontier(g, start, goal, q', prev', dist', done + {q[0]})
  {
    var u := q[0];
    AppendLayer(q, added, dist, dist', dist[u]);
    StillCovered(q, prev, prev', done, added);
    StillExpanded(g, u, dist, dist', done);
  }

  /** Discovering servers shrinks the undiscovered set; discovering none
      leaves a shorter queue. */
  lemma Progress(nodes: set<string>, known: set<string>, known': set<string>, n: nat, n': nat)
    requires known <= known' <= nodes && (known' == known ==> n' < n)
    ensures nodes - known' < nodes - known || (nodes - known' == nodes - known && n' < n)
  {
    if known' != known {
      var x :| x in known' && x !in known;
      assert x in nodes - known;
    }
  }

  /** `bfs_path`: breadth-first search from start, stopping when the goal
      leaves the queue; [] for an unknown endpoint or an unreachable goal,
      otherwise a shortest walk from start to goal. */
  method Bfs(g: Graph, start: string, goal: string) returns (path: seq<string>)
    requires Valid(g)
    ensures start !in g.nodes || goal !in g.nodes ==> path == []
    ensures path != [] ==> Joins(g, path, start, goal) && Distinct(path)
    ensures start in g.nodes && goal in g.nodes ==> (path == [] <==> !Reachable(g, start, goal))
    ensures path != [] ==> forall p :: Joins(g, p, start, goal) ==> |path| <= |p|
    ensures start == goal && start in g.nodes ==> path == [start]
  {
    if start !in g.nodes || goal !in g.nodes {
      return [];
    }
    var q := [start];
    var prev := map[start := None];
    ghost var dist: map<string, nat> := map[start := 0];
    ghost var done: set<string> := {};
    var found := false;
    while q != [] && !found
      invariant !found ==> Frontier(g, start, goal, q, prev, dist, done)
      invariant found ==> Settled(g, start, goal, prev, dist, done)
      invariant found && start == goal ==> dist[goal] == 0
      decreases g.nodes.Keys - prev.Keys, |q|
    {
      var u := q[0];
      if u == goal {
        PopGoal(g, start, goal, q, prev, dist, done);
        found := true;
        q := q[1..];
      } else {
        var q', prev', dist', added := Expand(g, start, u, q[1..], prev, dist);
        ExpandKeeps(g, start, goal, q, prev, dist, done, q', prev', dist', added);
        Progress(g.nodes.Keys, prev.Keys, prev'.Keys, |q|, |q'|);
        q, prev, dist, done := q', prev', dist', done + {u};
      }
    }
    if goal !in prev {
      assert !found;
      forall p | Joins(g, p, start, goal) ensures false {
        StaysInside(g, done, p);
      }
      return [];
    }
    assert found;
    path := Trace(g, prev, dist, start, goal);
    forall p | Joins(g, p, start, goal) ensures |path| <= |p| {
      if |p| - 1 < dist[goal] {
        WithinLevel(g, prev, dist, done, start, dist[goal], p);
      }
    }
  }

  /** One call of the recursive `dfs` helper of `dfs_path`, from server u.
      It reports true as soon as it reaches the goal. When it reports false,
      every server it visited has all its neighbours visited. */
  method Visit(g: Graph, start: string, goal: string, u: string, visited: set<string>,
               parent: map<string, Option<string>>, ghost depth: map<string, nat>)
    returns (found: bool, visited': set<string>, parent': map<string, Option<string>>, ghost depth': map<string, nat>)
    requires Valid(g)
    requires u in g.nodes && u !in visited && visited <= g.nodes.Keys && goal !in visited
    requires u in parent && Chain(g, parent, depth, start)
    requires start in visited || u == start
    requires forall v :: v in parent && v != start ==> parent[v].Some? && parent[v].value in visited + {u}
    ensures visited <= visited' <= g.nodes.Keys
    ensures Chain(g, parent', depth', start) && parent.Keys <= parent'.Keys
    ensures found ==> goal in parent'
    ensures !found ==> u in visited' && goal !in visited' && start in visited'
    ensures !found ==> forall v :: v in parent' && v != start ==> parent'[v].Some? && parent'[v].value in visited'
    ensures !found ==> forall w :: w in visited' && w !in visited ==> Nbrs(g, w) <= visited'
    decreases g.nodes.Keys - visited
  {
    if u == goal {
      return true, visited, parent, depth;
    }
    visited', parent', depth' := visited + {u}, parent, depth;
    var todo := Nbrs(g, u);
    while todo != {}
      invariant todo <= Nbrs(g, u)
      invariant visited + {u} <= visited' <= g.nodes.Keys && goal !in visited' && start in visited'
      invariant u in parent' && Chain(g, parent', depth', start) && parent.Keys <= parent'.Keys
      invariant forall v :: v in parent' && v != start ==> parent'[v].Some? && parent'[v].value in visited'
      invariant forall w :: w in visited' && w !in visited && w != u ==> Nbrs(g, w) <= visited'
      invariant Nbrs(g, u) - todo <= visited'
      decreases todo
    {
      var v :| v in todo;
      todo := todo - {v};
      if v !in visited' {
        ChainExtend(g, parent', depth', start, u, v);
        parent' := parent'[v := Some(u)];
        depth' := depth'[v := depth'[u] + 1];
        var f;
        f, visited', parent', depth' := Visit(g, start, goal, v, visited', parent', depth');
        if f {
          return true, visited', parent', depth';
        }
      }
    }
    return false, visited', parent', depth';
  }

  /** `dfs_path`: depth-first search from start; [] for an unknown endpoint
      or an unreachable goal, otherwise a walk from start to goal that
      repeats no server. */
  method Dfs(g: Graph, start: string, goal: string) returns (path: seq<string>)
    requires Valid(g)
    ensures start !in g.nodes || goal !in g.nodes ==> path == []
    ensures path != [] ==> Joins(g, path, start, goal) && Distinct(path)
    ensures start in g.nodes && goal in g.nodes ==> (path == [] <==> !Reachable(g, start, goal))
    ensures start == goal && start in g.nodes ==> path == [start]
  {
    if start !in g.nodes || goal !in g.nodes {
      return [];
    }
    ghost var depth: map<string, nat> := map[start := 0];
    var found, visited, parent;
    found, visited, parent, depth := Visit(g, start, goal, start, {}, map[start := None], depth);
    if !found {
      forall p | Joins(g, p, start, goal) ensures false {
        StaysInside(g, visited, p);
      }
      return [];
    }
    path := Trace(g, parent, depth, start, goal);
  }

  /** The report of `simulate_send`. */
  datatype Delivery = Delivery(ok: bool, pathIds: seq<string>, pathNames: seq<string>, hops: Option<nat>)

  /** `simulate_send`: depth-first search when the algorithm is "dfs",
      breadth-first otherwise; the report says whether a route exists, gives
      it by id and by server name, and counts its hops. */
  method SimulateSend(g: Graph, origin: string, dest: string, algorithm: string) returns (d: Delivery)
    requires Valid(g)
    ensures d.ok <==> d.pathIds != []
    ensures d.hops == (if d.ok then Some(|d.pathIds| - 1) else None)
    ensures |d.pathNames| == |d.pathIds|
    ensures forall i :: 0 <= i < |d.pathIds| ==> d.pathIds[i] in g.nodes && d.pathNames[i] == g.nodes[d.pathIds[i]].name
    ensures d.ok ==> Joins(g, d.pathIds, origin, dest) && Distinct(d.pathIds)
    ensures d.ok <==> origin in g.nodes && dest in g.nodes && Reachable(g, origin, dest)
    ensures algorithm != "dfs" && d.ok ==> forall p :: Joins(g, p, origin, dest) ==> |d.pathIds| <= |p|
  {
    var path;
    if algorithm == "dfs" {
      path := Dfs(g, origin, dest);
    } else {
      path := Bfs(g, origin, dest);
    }
    if path != [] {
      WalkKnown(g, path);
    }
    var names := seq(|path|, i requires 0 <= i < |path| => g.nodes[path[i]].name);
    d := Delivery(path != [], path, names, if path != [] then Some(|path| - 1) else None);
  }
}

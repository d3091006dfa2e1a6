/** The mail-server graph (class ServidorNetwork): servers by id and, for
    each server id, the set of server ids it has a connection to. */
module Network {
  /** A mail server (class Servidor). */
  datatype Server = Server(id: string, name: string)

  datatype Graph = Graph(nodes: map<string, Server>, adj: map<string, set<string>>)

  /** The servers u connects to; none when u has no adjacency entry. */
  function Nbrs(g: Graph, u: string): set<string>
  {
    if u in g.adj then g.adj[u] else {}
  }

  /** The graph invariant: every server is stored under its own id, and
      every adjacency key and every connection end is a known server. */
  predicate Valid(g: Graph)
  {
    && (forall k :: k in g.nodes ==> g.nodes[k].id == k)
    && (forall a :: a in g.adj ==> a in g.nodes && g.adj[a] <= g.nodes.Keys)
  }

  /** A graph with no servers. */
  function EmptyGraph(): (g: Graph)
    ensures Valid(g)
    ensures forall u :: Nbrs(g, u) == {}
  {
    Graph(map[], map[])
  }

  /** `add_server`: register a server under the fresh id `newId`; its
      adjacency entry is created empty unless one already exists. */
  function AddServer(g: Graph, name: string, newId: string): (r: (Graph, Server))
    ensures r.1 == Server(newId, name) && r.0.nodes == g.nodes[newId := r.1]
    ensures forall u :: Nbrs(r.0, u) == Nbrs(g, u)
    ensures newId in r.0.adj
    ensures Valid(g) ==> Valid(r.0)
    ensures Valid(g) && newId !in g.nodes ==> Nbrs(r.0, newId) == {} && forall k :: k in g.nodes ==> r.0.nodes[k] == g.nodes[k]
  {
    var s := Server(newId, name);
    (Graph(g.nodes[newId := s], if newId in g.adj then g.adj else g.adj[newId := {}]), s)
  }

  /** `adj.setdefault(a, set()).add(b)`. */
  function Link(adj: map<string, set<string>>, a: string, b: string): map<string, set<string>>
  {
    adj[a := (if a in adj then adj[a] else {}) + {b}]
  }

  /** `add_connection`: refuse, changing nothing, when either end is not a
      known server; otherwise add the connection a -> b and, unless
      `directed`, also b -> a. */
  function AddConnection(g: Graph, a: string, b: string, directed: bool): (r: (Graph, bool))
    ensures r.1 <==> a in g.nodes && b in g.nodes
    ensures !r.1 ==> r.0 == g
    ensures r.0.nodes == g.nodes
    ensures r.1 ==> forall u :: (Nbrs(r.0, u) ==
      Nbrs(g, u) + (if u == a then {b} else {}) + (if !directed && u == b then {a} else {}))
    ensures Valid(g) ==> Valid(r.0)
  {
    if a !in g.nodes || b !in g.nodes then (g, false)
    else
      var adj := Link(g.adj, a, b);
      (g.(adj := if directed then adj else Link(adj, b, a)), true)
  }

  /** `list_connections`: one (from, to) pair for every connection, each
      exactly once; the order follows set iteration and is left open. */
  method ListConnections(g: Graph) returns (out: seq<(string, string)>)
    ensures forall p :: p in out <==> p.0 in g.adj && p.1 in g.adj[p.0]
    ensures forall i, j :: 0 <= i < j < |out| ==> out[i] != out[j]
  {
    out := [];
    var keys := g.adj.Keys;
    while keys != {}
      invariant keys <= g.adj.Keys
      invariant forall p :: p in out <==> p.0 in g.adj && p.0 !in keys && p.1 in g.adj[p.0]
      invariant forall i, j :: 0 <= i < j < |out| ==> out[i] != out[j]
      decreases keys
    {
      var a :| a in keys;
      var bs := g.adj[a];
      while bs != {}
        invariant bs <= g.adj[a]
        invariant forall p :: p in out <==>
          p.0 in g.adj && ((p.0 !in keys && p.1 in g.adj[p.0]) || (p.0 == a && p.1 in g.adj[a] && p.1 !in bs))
        invariant forall i, j :: 0 <= i < j < |out| ==> out[i] != out[j]
        decreases bs
      {
        var b :| b in bs;
        out := out + [(a, b)];
        bs := bs - {b};
      }
      keys := keys - {a};
    }
  }
}

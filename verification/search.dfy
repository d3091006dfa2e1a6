/** Message search over the folder tree (`Almacen.buscar_mensajes`). */
module Search {
  import opened Text
  import opened Folders
  import opened MailStore

  /** One search result: the matching message and the path of the folder
      that files it. */
  datatype Hit = Hit(message: Message, path: string)

  /** A message matches when the lower-cased term occurs in its lower-cased
      subject or in its lower-cased sender. */
  predicate Matching(term: string, m: Message)
  {
    Occurs(Lower(term), Lower(m.subject)) || Occurs(Lower(term), Lower(m.sender))
  }

  /** The hits of one folder: its message ids in order, skipping ids the
      message table does not know and messages that do not match. */
  function HitsIn(messages: map<string, Message>, term: string, mids: seq<string>, path: string): seq<Hit>
  {
    if mids == [] then []
    else
      var rest := HitsIn(messages, term, mids[1..], path);
      if mids[0] in messages && Matching(term, messages[mids[0]])
      then [Hit(messages[mids[0]], path)] + rest
      else rest
  }

  /** A message id of `mids` that resolves to a matching message. */
  predicate HitSource(messages: map<string, Message>, term: string, mids: seq<string>, k: int, m: Message)
  {
    0 <= k < |mids| && mids[k] in messages && messages[mids[k]] == m && Matching(term, m)
  }

  /** A folder's hits are exactly its filed, known, matching messages, each
      paired with the folder's path. */
  lemma {:induction false} HitsInMembers(messages: map<string, Message>, term: string, mids: seq<string>, path: string, h: Hit)
    ensures h in HitsIn(messages, term, mids, path) <==>
            h.path == path && exists k :: HitSource(messages, term, mids, k, h.message)
  {
    if mids != [] {
      HitsInMembers(messages, term, mids[1..], path, h);
      if mids[0] in messages && Matching(term, messages[mids[0]]) && h == Hit(messages[mids[0]], path) {
        assert HitSource(messages, term, mids, 0, h.message);
      }
      if h.path == path && (exists k :: HitSource(messages, term, mids, k, h.message)) {
        var k :| HitSource(messages, term, mids, k, h.message);
        if k > 0 {
          assert HitSource(messages, term, mids[1..], k - 1, h.message);
        }
      }
      if exists k :: HitSource(messages, term, mids[1..], k, h.message) {
        var k :| HitSource(messages, term, mids[1..], k, h.message);
        assert HitSource(messages, term, mids, k + 1, h.message);
      }
    }
  }

  /** Every known message of `mids` in order, each with `path`. */
  function KnownIn(messages: map<string, Message>, mids: seq<string>, path: string): seq<Hit>
  {
    if mids == [] then []
    else if mids[0] in messages then [Hit(messages[mids[0]], path)] + KnownIn(messages, mids[1..], path)
    else KnownIn(messages, mids[1..], path)
  }

  /** The empty term matches every message, so a folder's hits are all of its
      known messages in filing order. */
  lemma {:induction false} EmptyTermKeepsAll(messages: map<string, Message>, mids: seq<string>, path: string)
    ensures HitsIn(messages, "", mids, path) == KnownIn(messages, mids, path)
  {
    if mids != [] {
      EmptyTermKeepsAll(messages, mids[1..], path);
      if mids[0] in messages {
        EmptyOccurs(Lower(messages[mids[0]].subject));
      }
    }
  }

  /** The recursive walk of `buscar_mensajes`, below a folder whose ancestors'
      names are `trail`. */
  function Below(messages: map<string, Message>, term: string, f: Folder, trail: seq<string>): seq<Hit>
  {
    HitsIn(messages, term, f.messages, JoinPath(trail + [f.name]))
      + BelowAll(messages, term, f.children, trail + [f.name])
  }

  function BelowAll(messages: map<string, Message>, term: string, cs: seq<Folder>, trail: seq<string>): seq<Hit>
  {
    if cs == [] then [] else Below(messages, term, cs[0], trail) + BelowAll(messages, term, cs[1..], trail)
  }

  /** `buscar_mensajes`. */
  function FindMessages(s: Store, term: string): seq<Hit>
  {
    Below(s.messages, term, s.root, [])
  }

  /** Reference definition: folder by folder in listing order, each folder's
      hits with the path the listing gives it. */
  function Scan(messages: map<string, Message>, term: string, hs: seq<Header>, routes: seq<Route>): seq<Hit>
    requires |hs| == |routes|
  {
    if hs == [] then []
    else HitsIn(messages, term, hs[0].messages, routes[0].path) + Scan(messages, term, hs[1..], routes[1..])
  }

  lemma {:induction false} ScanConcat(messages: map<string, Message>, term: string,
                                      a: seq<Header>, b: seq<Header>, ra: seq<Route>, rb: seq<Route>)
    requires |a| == |ra| && |b| == |rb|
    ensures Scan(messages, term, a + b, ra + rb) == Scan(messages, term, a, ra) + Scan(messages, term, b, rb)
  {
    if a != [] {
      assert (a + b)[1..] == a[1..] + b;
      assert (ra + rb)[1..] == ra[1..] + rb;
      ScanConcat(messages, term, a[1..], b, ra[1..], rb);
    } else {
      assert a + b == b && ra + rb == rb;
    }
  }

  lemma {:induction false} BelowIsScan(messages: map<string, Message>, term: string, f: Folder, trail: seq<string>)
    ensures |Heads(f)| == |Listing(f, trail)|
    ensures Below(messages, term, f, trail) == Scan(messages, term, Heads(f), Listing(f, trail))
    decreases f, 1
  {
    ListingShape(f, trail);
    var t := trail + [f.name];
    BelowAllIsScan(messages, term, f.children, t);
    assert Heads(f)[1..] == HeadsAll(f.children);
    assert Listing(f, trail)[1..] == ListingAll(f.children, t);
  }

  lemma {:induction false} BelowAllIsScan(messages: map<string, Message>, term: string, cs: seq<Folder>, trail: seq<string>)
    ensures |HeadsAll(cs)| == |ListingAll(cs, trail)|
    ensures BelowAll(messages, term, cs, trail) == Scan(messages, term, HeadsAll(cs), ListingAll(cs, trail))
    decreases cs, 0
  {
    ListingShapeAll(cs, trail);
    if cs != [] {
      BelowIsScan(messages, term, cs[0], trail);
      BelowAllIsScan(messages, term, cs[1..], trail);
      HeadsAllCons(cs[0], cs[1..]);
      assert [cs[0]] + cs[1..] == cs;
      ScanConcat(messages, term, Heads(cs[0]), HeadsAll(cs[1..]), Listing(cs[0], trail), ListingAll(cs[1..], trail));
    }
  }

  /** Search visits the folders in listing order and labels each folder's
      hits with that folder's listed path. */
  lemma FindIsScan(s: Store, term: string)
    ensures |Heads(s.root)| == |ListPaths(s)|
    ensures FindMessages(s, term) == Scan(s.messages, term, Heads(s.root), ListPaths(s))
  {
    BelowIsScan(s.messages, term, s.root, []);
  }

  /** Hits of the reference scan are exactly the hits of some folder. */
  lemma {:induction false} ScanMembers(messages: map<string, Message>, term: string, hs: seq<Header>, routes: seq<Route>, h: Hit)
    requires |hs| == |routes|
    ensures h in Scan(messages, term, hs, routes) <==>
            exists j :: 0 <= j < |hs| && h in HitsIn(messages, term, hs[j].messages, routes[j].path)
  {
    if hs != [] {
      ScanMembers(messages, term, hs[1..], routes[1..], h);
      if exists j :: 0 <= j < |hs| && h in HitsIn(messages, term, hs[j].messages, routes[j].path) {
        var j :| 0 <= j < |hs| && h in HitsIn(messages, term, hs[j].messages, routes[j].path);
        if j > 0 {
          assert hs[1..][j - 1] == hs[j] && routes[1..][j - 1] == routes[j];
        }
      }
      if exists j :: 0 <= j < |hs[1..]| && h in HitsIn(messages, term, hs[1..][j].messages, routes[1..][j].path) {
        var j :| 0 <= j < |hs[1..]| && h in HitsIn(messages, term, hs[1..][j].messages, routes[1..][j].path);
        assert hs[1..][j] == hs[j + 1] && routes[1..][j] == routes[j + 1];
      }
    }
  }

  /** Folder j files a known, matching message `m` and `path` is its listed path. */
  ghost predicate FiledHit(s: Store, term: string, j: int, h: Hit)
    requires |Heads(s.root)| == |ListPaths(s)|
  {
    0 <= j < |Heads(s.root)| && h.path == ListPaths(s)[j].path
    && exists k :: HitSource(s.messages, term, Heads(s.root)[j].messages, k, h.message)
  }

  /** A hit is in the search result exactly when some folder files that
      known, matching message and the hit carries the folder's listed path. */
  lemma FindMembers(s: Store, term: string, h: Hit)
    ensures |Heads(s.root)| == |ListPaths(s)|
    ensures h in FindMessages(s, term) <==> exists j :: FiledHit(s, term, j, h)
  {
    FindIsScan(s, term);
    var hs := Heads(s.root);
    var routes := ListPaths(s);
    ScanMembers(s.messages, term, hs, routes, h);
    forall j | 0 <= j < |hs|
      ensures h in HitsIn(s.messages, term, hs[j].messages, routes[j].path) <==> FiledHit(s, term, j, h)
    {
      HitsInMembers(s.messages, term, hs[j].messages, routes[j].path, h);
    }
  }
}

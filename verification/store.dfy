/** The message store (class Almacen): every message by id, plus the folder
    tree that files message ids. Each mutation here is the in-memory part of a
    source operation; writing the store to disk afterwards is not modelled. */
module MailStore {
  import opened Wrappers
  import opened Text
  import opened Folders

  /** A mail message (class Mensaje). */
  datatype Message = Message(id: string, sender: string, recipient: string, subject: string, body: string)

  datatype Store = Store(messages: map<string, Message>, root: Folder)

  /** The store before anything is loaded: no messages, one root folder named "Inbox". */
  function Empty(rootId: string): Store
  {
    Store(map[], Folder(rootId, "Inbox", [], []))
  }

  /** Every id filed in the folder is a known message. */
  predicate Resolved(h: Header, messages: map<string, Message>)
  {
    forall mid :: mid in h.messages ==> mid in messages
  }

  /** The store invariant: every id filed in any folder names a stored message. */
  predicate Filed(s: Store)
  {
    var hs := Heads(s.root);
    forall j :: 0 <= j < |hs| ==> Resolved(hs[j], s.messages)
  }

  /** Pre-order position of the folder a message is filed into by
      `agregar_mensaje`: the root when no folder id is given or the id names
      no folder, otherwise the first folder with that id. */
  function Target(root: Folder, folderId: Option<string>): (t: nat)
    ensures t < |Heads(root)|
    ensures folderId.None? || FirstIndex(Heads(root), ById(folderId.value)).None? ==> t == 0
    ensures folderId.Some? && FirstIndex(Heads(root), ById(folderId.value)).Some? ==>
      Heads(root)[t].id == folderId.value && NoneBefore(Heads(root), ById(folderId.value), t)
  {
    match folderId
    case None => 0
    case Some(id) =>
      FirstIndexSpec(Heads(root), ById(id));
      FirstIndex(Heads(root), ById(id)).GetOr(0)
  }

  /** `agregar_mensaje`: store the message under its id and append its id to the
      end of the target folder's list; no other folder changes. */
  function AddMessage(s: Store, m: Message, folderId: Option<string>): (r: Store)
    ensures r.messages == s.messages[m.id := m]
    ensures var t := Target(s.root, folderId);
      Heads(r.root) == Heads(s.root)[t := Heads(s.root)[t].(messages := Heads(s.root)[t].messages + [m.id])]
  {
    var t := Target(s.root, folderId);
    Relabel(s.root, t, Append(m.id));
    HeadAt(s.root, t);
    Store(s.messages[m.id := m], UpdateAt(s.root, t, Append(m.id)))
  }

  /** `_remover_mensaje_de_carpeta`: remove the id from the first folder (in
      pre-order) whose list holds it, checking a folder's own list before its
      sub-folders; report whether anything was removed. */
  function Detach(f: Folder, mid: string): (r: (Folder, bool))
    ensures r.1 <==> FirstIndex(Heads(f), Holding(mid)).Some?
    ensures r.1 ==> r.0 == UpdateAt(f, FirstIndex(Heads(f), Holding(mid)).value, Remove(mid))
    ensures !r.1 ==> r.0 == f
  {
    FirstIndexConcat([Head(f)], HeadsAll(f.children), Holding(mid));
    if mid in f.messages then
      (f.(messages := RemoveFirst(f.messages, mid)), true)
    else
      var (cs, found) := DetachAll(f.children, mid);
      (f.(children := cs), found)
  }

  function DetachAll(cs: seq<Folder>, mid: string): (r: (seq<Folder>, bool))
    ensures r.1 <==> FirstIndex(HeadsAll(cs), Holding(mid)).Some?
    ensures r.1 ==> r.0 == UpdateAtAll(cs, FirstIndex(HeadsAll(cs), Holding(mid)).value, Remove(mid))
    ensures !r.1 ==> r.0 == cs
  {
    if cs == [] then ([], false)
    else
      FirstIndexConcat(Heads(cs[0]), HeadsAll(cs[1..]), Holding(mid));
      var (c, found) := Detach(cs[0], mid);
      if found then ([c] + cs[1..], true)
      else
        var (rest, foundLater) := DetachAll(cs[1..], mid);
        ([c] + rest, foundLater)
  }

  /** How many times the id is filed, over all folders. */
  function Occurrences(hs: seq<Header>, mid: string): nat
  {
    if hs == [] then 0 else multiset(hs[0].messages)[mid] + Occurrences(hs[1..], mid)
  }

  /** Replacing one folder's header changes the count by the difference of the two lists' counts. */
  lemma {:induction false} OccurrencesUpdate(hs: seq<Header>, i: nat, h: Header, mid: string)
    requires i < |hs|
    ensures Occurrences(hs[i := h], mid) + multiset(hs[i].messages)[mid] ==
            Occurrences(hs, mid) + multiset(h.messages)[mid]
  {
    if i == 0 {
      assert hs[i := h][1..] == hs[1..];
    } else {
      assert hs[i := h][1..] == hs[1..][i - 1 := h];
      OccurrencesUpdate(hs[1..], i - 1, h, mid);
    }
  }

  /** Removing the id from its first holder leaves every id where it was:
      the tree after `_remover_mensaje_de_carpeta` has the same folders, ids
      and names, and only the holder's list loses its first copy of the id. */
  lemma DetachHeads(root: Folder, mid: string)
    ensures var hs := Heads(root); var h := FirstIndex(hs, Holding(mid));
      h.Some? ==> Heads(Detach(root, mid).0) == hs[h.value := hs[h.value].(messages := RemoveFirst(hs[h.value].messages, mid))]
    ensures FirstIndex(Heads(root), Holding(mid)).None? ==> Detach(root, mid).0 == root
  {
    var hs := Heads(root);
    var h := FirstIndex(hs, Holding(mid));
    if h.Some? {
      Relabel(root, h.value, Remove(mid));
      HeadAt(root, h.value);
    }
  }

  /** `mover_mensaje`. The source first removes the id from wherever it is
      filed, then looks the destination up; only when both succeed is the id
      appended to the destination. The removal is not undone when the
      destination does not exist, so a failed move can still unfile the id. */
  function Move(s: Store, mid: string, dest: string): (r: (Store, bool))
    ensures r.0.messages == s.messages
    ensures r.1 <==> FirstIndex(Heads(s.root), Holding(mid)).Some? && FirstIndex(Heads(s.root), ById(dest)).Some?
  {
    var (root1, found) := Detach(s.root, mid);
    DetachHeads(s.root, mid);
    FirstIndexAgree(Heads(s.root), Heads(root1), ById(dest));
    var d := FirstIndex(Heads(root1), ById(dest));
    if d.Some? && found then (s.(root := UpdateAt(root1, d.value, Append(mid))), true)
    else (s.(root := root1), false)
  }

  /** The headers after relocating the first copy of an id from folder h to
      the end of folder d's list. */
  function Relocated(hs: seq<Header>, h: nat, d: nat, mid: string): seq<Header>
    requires h < |hs| && d < |hs|
  {
    var detached := hs[h := hs[h].(messages := RemoveFirst(hs[h].messages, mid))];
    detached[d := detached[d].(messages := detached[d].messages + [mid])]
  }

  /** Relocating a filed id keeps its number of filed copies and puts it last
      in the destination's list. */
  lemma RelocatedCount(hs: seq<Header>, h: nat, d: nat, mid: string)
    requires h < |hs| && d < |hs| && mid in hs[h].messages
    ensures Occurrences(Relocated(hs, h, d, mid), mid) == Occurrences(hs, mid)
    ensures var ms := Relocated(hs, h, d, mid)[d].messages; |ms| > 0 && ms[|ms| - 1] == mid
  {
    var detached := hs[h := hs[h].(messages := RemoveFirst(hs[h].messages, mid))];
    RemoveFirstMultiset(hs[h].messages, mid);
    OccurrencesUpdate(hs, h, detached[h], mid);
    OccurrencesUpdate(detached, d, detached[d].(messages := detached[d].messages + [mid]), mid);
  }

  /** A successful move removes the id's first copy and appends it to the end
      of the destination's list; no folder other than the old holder and the
      destination changes. */
  lemma MoveRelocates(s: Store, mid: string, dest: string)
    requires Move(s, mid, dest).1
    ensures var hs := Heads(s.root);
      Heads(Move(s, mid, dest).0.root) ==
        Relocated(hs, FirstIndex(hs, Holding(mid)).value, FirstIndex(hs, ById(dest)).value, mid)
  {
    var hs := Heads(s.root);
    var (root1, _) := Detach(s.root, mid);
    DetachHeads(s.root, mid);
    FirstIndexAgree(hs, Heads(root1), ById(dest));
    var d := FirstIndex(hs, ById(dest)).value;
    Relabel(root1, d, Append(mid));
    HeadAt(root1, d);
  }

  /** After a successful move the id is filed as often as before, and the
      destination (the first folder with the destination id) ends with it. */
  lemma MoveKeepsCount(s: Store, mid: string, dest: string)
    requires Move(s, mid, dest).1
    ensures Occurrences(Heads(Move(s, mid, dest).0.root), mid) == Occurrences(Heads(s.root), mid)
    ensures |Heads(Move(s, mid, dest).0.root)| == |Heads(s.root)|
    ensures var hs' := Heads(Move(s, mid, dest).0.root); var d := FirstIndex(Heads(s.root), ById(dest)).value;
      hs'[d].id == dest && |hs'[d].messages| > 0 && hs'[d].messages[|hs'[d].messages| - 1] == mid
  {
    var hs := Heads(s.root);
    FirstIndexSpec(hs, Holding(mid));
    FirstIndexSpec(hs, ById(dest));
    MoveRelocates(s, mid, dest);
    RelocatedCount(hs, FirstIndex(hs, Holding(mid)).value, FirstIndex(hs, ById(dest)).value, mid);
  }

  /** The quirk of `mover_mensaje`: with an unknown destination the move
      reports failure, yet the id has already lost one filed copy. */
  lemma MoveToUnknownUnfiles(s: Store, mid: string, dest: string)
    requires FirstIndex(Heads(s.root), Holding(mid)).Some?
    requires FirstIndex(Heads(s.root), ById(dest)).None?
    ensures !Move(s, mid, dest).1
    ensures Occurrences(Heads(Move(s, mid, dest).0.root), mid) + 1 == Occurrences(Heads(s.root), mid)
    ensures var hs := Heads(s.root); var h := FirstIndex(hs, Holding(mid)).value;
      Heads(Move(s, mid, dest).0.root) == hs[h := hs[h].(messages := RemoveFirst(hs[h].messages, mid))]
  {
    var hs := Heads(s.root);
    var h := FirstIndex(hs, Holding(mid)).value;
    FirstIndexSpec(hs, Holding(mid));
    DetachHeads(s.root, mid);
    RemoveFirstMultiset(hs[h].messages, mid);
    OccurrencesUpdate(hs, h, hs[h].(messages := RemoveFirst(hs[h].messages, mid)), mid);
  }

  /** A move of an id that is filed nowhere changes nothing and fails. */
  lemma MoveUnfiledIsNoop(s: Store, mid: string, dest: string)
    requires FirstIndex(Heads(s.root), Holding(mid)).None?
    ensures Move(s, mid, dest) == (s, false)
  {
    DetachHeads(s.root, mid);
  }

  /** `mover_mensaje` with the destination looked up before anything is
      removed: a move that reports failure leaves the store as it was, and a
      successful one is exactly the source's move. */
  function MoveValidated(s: Store, mid: string, dest: string): (r: (Store, bool))
    ensures !r.1 ==> r.0 == s
    ensures r.1 <==> Move(s, mid, dest).1
    ensures r.1 ==> r == Move(s, mid, dest)
  {
    if FirstIndex(Heads(s.root), ById(dest)).None? then (s, false)
    else if FirstIndex(Heads(s.root), Holding(mid)).None? then
      MoveUnfiledIsNoop(s, mid, dest);
      (s, false)
    else Move(s, mid, dest)
  }

  /** `carpeta_de_mensaje`: the first folder in pre-order whose list holds the
      id, or None when no folder holds it. */
  function OwnerOf(s: Store, mid: string): (r: Option<Folder>)
    ensures r.None? <==> forall j :: 0 <= j < |Heads(s.root)| ==> mid !in Heads(s.root)[j].messages
    ensures r.Some? ==> mid in r.value.messages
    ensures r.Some? ==> FirstIndex(Heads(s.root), Holding(mid)).Some?
    ensures r.Some? ==> var i := FirstIndex(Heads(s.root), Holding(mid)).value;
      r.value == At(s.root, i) && forall j :: 0 <= j < i ==> mid !in Heads(s.root)[j].messages
  {
    var r := Find(s.root, Holding(mid));
    FirstIndexSpec(Heads(s.root), Holding(mid));
    assert NoneBefore(Heads(s.root), Holding(mid), |Heads(s.root)|) <==>
      forall j :: 0 <= j < |Heads(s.root)| ==> mid !in Heads(s.root)[j].messages;
    if r.Some? then
      HeadAt(s.root, FirstIndex(Heads(s.root), Holding(mid)).value);
      r
    else r
  }

  /** One entry of `listar_carpetas_con_ruta`: a folder id and its readable path. */
  datatype Route = Route(id: string, path: string)

  /** The listing below a folder whose ancestors' names are `trail`: the folder's
      own entry, then its sub-folders' listings left to right. */
  function Listing(f: Folder, trail: seq<string>): seq<Route>
  {
    [Route(f.id, JoinPath(trail + [f.name]))] + ListingAll(f.children, trail + [f.name])
  }

  function ListingAll(cs: seq<Folder>, trail: seq<string>): seq<Route>
  {
    if cs == [] then [] else Listing(cs[0], trail) + ListingAll(cs[1..], trail)
  }

  /** The listing has one entry per folder, in pre-order, with that folder's id. */
  lemma {:induction false} ListingShape(f: Folder, trail: seq<string>)
    ensures |Listing(f, trail)| == |Heads(f)|
    ensures forall j :: 0 <= j < |Heads(f)| ==> Listing(f, trail)[j].id == Heads(f)[j].id
    decreases f, 1
  {
    ListingShapeAll(f.children, trail + [f.name]);
  }

  lemma {:induction false} ListingShapeAll(cs: seq<Folder>, trail: seq<string>)
    ensures |ListingAll(cs, trail)| == |HeadsAll(cs)|
    ensures forall j :: 0 <= j < |HeadsAll(cs)| ==> ListingAll(cs, trail)[j].id == HeadsAll(cs)[j].id
    decreases cs, 0
  {
    if cs != [] {
      ListingShape(cs[0], trail);
      ListingShapeAll(cs[1..], trail);
    }
  }

  /** Entry j of a listing names the folder at position j under a folder p
      listed before it, and its path is p's path, a separator and its name. */
  predicate ListedUnder(f: Folder, routes: seq<Route>, j: nat, p: nat)
    requires j < |Heads(f)| && j < |routes| && p < |Heads(f)| && p < |routes|
  {
    At(f, j) in At(f, p).children && routes[j].path == routes[p].path + "/" + At(f, j).name
  }

  /** Some entry listed before entry j is the one j is listed under. */
  predicate HasParent(f: Folder, routes: seq<Route>, j: nat)
    requires j < |Heads(f)| && j < |routes|
  {
    exists p :: 0 <= p < j && ListedUnder(f, routes, j, p)
  }

  predicate ListedUnderAll(cs: seq<Folder>, routes: seq<Route>, j: nat, p: nat)
    requires j < |HeadsAll(cs)| && j < |routes| && p < |HeadsAll(cs)| && p < |routes|
  {
    AtAll(cs, j) in AtAll(cs, p).children && routes[j].path == routes[p].path + "/" + AtAll(cs, j).name
  }

  /** The root of a listing has its trail and name as path; every other entry
      sits under an earlier entry, its parent. */
  lemma {:induction false} ListingPaths(f: Folder, trail: seq<string>, j: nat)
    requires j < |Heads(f)|
    ensures |Listing(f, trail)| == |Heads(f)|
    ensures j == 0 ==> Listing(f, trail)[0].path == JoinPath(trail + [f.name])
    ensures j > 0 ==> exists p :: 0 <= p < j && ListedUnder(f, Listing(f, trail), j, p)
    decreases f, 1
  {
    ListingShape(f, trail);
    if j > 0 {
      var t := trail + [f.name];
      var routes := Listing(f, trail);
      var cs := f.children;
      ListingPathsAll(cs, t, j - 1);
      assert routes[j] == ListingAll(cs, t)[j - 1];
      if AtAll(cs, j - 1) in cs && ListingAll(cs, t)[j - 1].path == JoinPath(t + [AtAll(cs, j - 1).name]) {
        JoinSnoc(t, AtAll(cs, j - 1).name);
        assert ListedUnder(f, routes, j, 0);
      } else {
        var p :| 0 <= p < j - 1 && ListedUnderAll(cs, ListingAll(cs, t), j - 1, p);
        assert routes[p + 1] == ListingAll(cs, t)[p];
        assert ListedUnder(f, routes, j, p + 1);
      }
    }
  }

  lemma {:induction false} ListingPathsAll(cs: seq<Folder>, trail: seq<string>, j: nat)
    requires j < |HeadsAll(cs)|
    ensures |ListingAll(cs, trail)| == |HeadsAll(cs)|
    ensures || (AtAll(cs, j) in cs && ListingAll(cs, trail)[j].path == JoinPath(trail + [AtAll(cs, j).name]))
            || (exists p :: 0 <= p < j && ListedUnderAll(cs, ListingAll(cs, trail), j, p))
    decreases cs, 0
  {
    ListingShapeAll(cs, trail);
    ListingShape(cs[0], trail);
    var n := |Heads(cs[0])|;
    var routes := ListingAll(cs, trail);
    if j < n {
      assert routes[j] == Listing(cs[0], trail)[j];
      ListingPaths(cs[0], trail, j);
      if j > 0 {
        var p :| 0 <= p < j && ListedUnder(cs[0], Listing(cs[0], trail), j, p);
        assert routes[p] == Listing(cs[0], trail)[p];
        assert ListedUnderAll(cs, routes, j, p);
      }
    } else {
      ListingPathsAll(cs[1..], trail, j - n);
      ListingShapeAll(cs[1..], trail);
      assert routes[j] == ListingAll(cs[1..], trail)[j - n];
      if !(AtAll(cs[1..], j - n) in cs[1..] && routes[j].path == JoinPath(trail + [AtAll(cs, j).name])) {
        var p :| 0 <= p < j - n && ListedUnderAll(cs[1..], ListingAll(cs[1..], trail), j - n, p);
        assert routes[p + n] == ListingAll(cs[1..], trail)[p];
        assert ListedUnderAll(cs, routes, j, p + n);
      }
    }
  }

  /** The names on the way from f down to the folder at pre-order position j,
      f's own name first and that folder's name last. */
  function NamesTo(f: Folder, j: nat): (r: seq<string>)
    requires j < |Heads(f)|
    ensures |r| > 0 && r[0] == f.name && r[|r| - 1] == At(f, j).name
    decreases f, 1
  {
    if j == 0 then [f.name] else [f.name] + NamesToAll(f.children, j - 1)
  }

  function NamesToAll(cs: seq<Folder>, j: nat): (r: seq<string>)
    requires j < |HeadsAll(cs)|
    ensures |r| > 0 && r[|r| - 1] == AtAll(cs, j).name
    decreases cs, 0
  {
    var n := |Heads(cs[0])|;
    if j < n then NamesTo(cs[0], j) else NamesToAll(cs[1..], j - n)
  }

  /** Entry j of a listing carries the path of the folder at position j:
      the trail followed by the names from the listed folder down to it. */
  lemma {:induction false} ListingPathAt(f: Folder, trail: seq<string>, j: nat)
    requires j < |Heads(f)|
    ensures |Listing(f, trail)| == |Heads(f)|
    ensures Listing(f, trail)[j].path == JoinPath(trail + NamesTo(f, j))
    decreases f, 1
  {
    ListingShape(f, trail);
    var t := trail + [f.name];
    if j > 0 {
      ListingPathAllAt(f.children, t, j - 1);
      assert Listing(f, trail)[j] == ListingAll(f.children, t)[j - 1];
      assert trail + NamesTo(f, j) == t + NamesToAll(f.children, j - 1);
    }
  }

  lemma {:induction false} ListingPathAllAt(cs: seq<Folder>, trail: seq<string>, j: nat)
    requires j < |HeadsAll(cs)|
    ensures |ListingAll(cs, trail)| == |HeadsAll(cs)|
    ensures ListingAll(cs, trail)[j].path == JoinPath(trail + NamesToAll(cs, j))
    decreases cs, 0
  {
    ListingShapeAll(cs, trail);
    ListingShape(cs[0], trail);
    var n := |Heads(cs[0])|;
    if j < n {
      ListingPathAt(cs[0], trail, j);
      assert ListingAll(cs, trail)[j] == Listing(cs[0], trail)[j];
    } else {
      ListingPathAllAt(cs[1..], trail, j - n);
      assert ListingAll(cs, trail)[j] == ListingAll(cs[1..], trail)[j - n];
    }
  }

  /** `listar_carpetas_con_ruta`. */
  function ListPaths(s: Store): seq<Route>
  {
    Listing(s.root, [])
  }

  /** The listing has one entry per folder in pre-order carrying the folder's
      id; the root's path is its own name, and every other folder's path is its
      parent's path followed by "/" and its own name. The last clause fixes
      each path from the tree alone. The parent clause before it is implied
      by that, but it is kept because it is the recursion's own step: the
      source hands every sub-folder its parent's trail plus the parent's name. */
  lemma ListPathsSpec(s: Store)
    ensures |ListPaths(s)| == |Heads(s.root)|
    ensures forall j :: 0 <= j < |Heads(s.root)| ==> ListPaths(s)[j].id == Heads(s.root)[j].id
    ensures ListPaths(s)[0].path == s.root.name
    ensures forall j :: 0 < j < |Heads(s.root)| ==> HasParent(s.root, ListPaths(s), j)
    ensures forall j :: 0 <= j < |Heads(s.root)| ==> ListPaths(s)[j].path == JoinPath(NamesTo(s.root, j))
  {
    ListingShape(s.root, []);
    ListingPaths(s.root, [], 0);
    assert [] + [s.root.name] == [s.root.name];
    forall j | 0 < j < |Heads(s.root)|
      ensures HasParent(s.root, ListPaths(s), j)
    {
      ListingPaths(s.root, [], j);
    }
    forall j | 0 <= j < |Heads(s.root)|
      ensures ListPaths(s)[j].path == JoinPath(NamesTo(s.root, j))
    {
      ListingPathAt(s.root, [], j);
      assert [] + NamesTo(s.root, j) == NamesTo(s.root, j);
    }
  }

  /** Pre-order position of the folder `crear_carpeta` attaches a new folder
      to: the root when the parent id is missing or empty or names no folder,
      otherwise the first folder with that id. */
  function ParentSlot(root: Folder, parentId: Option<string>): (t: nat)
    ensures t < |Heads(root)|
    ensures parentId.None? || parentId.value == "" || FirstIndex(Heads(root), ById(parentId.value)).None? ==> t == 0
    ensures parentId.Some? && parentId.value != "" && FirstIndex(Heads(root), ById(parentId.value)).Some? ==>
      Heads(root)[t].id == parentId.value && NoneBefore(Heads(root), ById(parentId.value), t)
  {
    if parentId.None? || parentId.value == "" then 0 else Target(root, parentId)
  }

  /** A new, empty folder. */
  function Leaf(id: string, name: string): Folder
  {
    Folder(id, name, [], [])
  }

  /** The store part of `crear_carpeta`: a missing or empty name changes
      nothing; otherwise a new empty folder with the fresh id becomes the last
      sub-folder of the parent. */
  function CreateFolder(s: Store, name: Option<string>, parentId: Option<string>, freshId: string): (r: Store)
    ensures r.messages == s.messages
    ensures name.None? || name.value == "" ==> r == s
  {
    if name.None? || name.value == "" then s
    else s.(root := UpdateAt(s.root, ParentSlot(s.root, parentId), Adopt(Leaf(freshId, name.value))))
  }

  /** The parent gains the new folder as its last sub-folder. */
  lemma CreateFolderAttaches(s: Store, name: Option<string>, parentId: Option<string>, freshId: string)
    requires name.Some? && name.value != ""
    ensures var t := ParentSlot(s.root, parentId);
      t < |Heads(CreateFolder(s, name, parentId, freshId).root)| &&
      At(CreateFolder(s, name, parentId, freshId).root, t) ==
        At(s.root, t).(children := At(s.root, t).children + [Leaf(freshId, name.value)])
  {
    EditedAt(s.root, ParentSlot(s.root, parentId), Adopt(Leaf(freshId, name.value)));
  }

  /** In pre-order the new folder comes right after the parent's existing
      subtree; the parent's sub-folder count grows by one and every other
      folder keeps its place and contents. */
  lemma CreateFolderHeads(s: Store, name: Option<string>, parentId: Option<string>, freshId: string)
    requires name.Some? && name.value != ""
    ensures var hs := Heads(s.root); var t := ParentSlot(s.root, parentId); var n := |Heads(At(s.root, t))|;
      t + n <= |hs| &&
      Heads(CreateFolder(s, name, parentId, freshId).root) ==
        hs[..t + n][t := hs[t].(arity := hs[t].arity + 1)] + [Header(freshId, name.value, [], 0)] + hs[t + n..]
  {
    var leaf := Leaf(freshId, name.value);
    AdoptHeads(s.root, ParentSlot(s.root, parentId), leaf);
    assert Heads(leaf) == [Header(freshId, name.value, [], 0)];
  }

  /** When no folder had the fresh id, looking it up afterwards finds exactly
      the new, empty folder. */
  lemma CreateFolderFindsNew(s: Store, name: Option<string>, parentId: Option<string>, freshId: string)
    requires name.Some? && name.value != ""
    requires FirstIndex(Heads(s.root), ById(freshId)).None?
    ensures Find(CreateFolder(s, name, parentId, freshId).root, ById(freshId)) == Some(Leaf(freshId, name.value))
  {
    var hs := Heads(s.root);
    var t := ParentSlot(s.root, parentId);
    var n := |Heads(At(s.root, t))|;
    var r := CreateFolder(s, name, parentId, freshId).root;
    CreateFolderHeads(s, name, parentId, freshId);
    var hs' := Heads(r);
    var k := t + n;
    assert hs'[k] == Header(freshId, name.value, [], 0);
    forall j | 0 <= j < k
      ensures hs'[j].id == hs[j].id
    {
      assert hs'[j] == hs[..k][t := hs[t].(arity := hs[t].arity + 1)][j];
    }
    FirstIndexSpec(hs, ById(freshId));
    FirstIndexIs(hs', ById(freshId), k);
    HeadAt(r, k);
  }

  /** The empty store files nothing, so it satisfies the store invariant. */
  lemma EmptyFiled(rootId: string)
    ensures Filed(Empty(rootId))
  {
    assert Heads(Empty(rootId).root) == [Head(Empty(rootId).root)];
  }

  /** Adding a message keeps every filed id resolvable. */
  lemma AddMessageKeepsFiled(s: Store, m: Message, folderId: Option<string>)
    requires Filed(s)
    ensures Filed(AddMessage(s, m, folderId))
  {
    var hs := Heads(s.root);
    var r := AddMessage(s, m, folderId);
    var t := Target(s.root, folderId);
    forall j | 0 <= j < |Heads(r.root)|
      ensures Resolved(Heads(r.root)[j], r.messages)
    {
      assert Resolved(hs[j], s.messages);
    }
  }

  /** Removing one copy of an id never files a new id. */
  lemma RemoveFirstSubset(ms: seq<string>, mid: string, x: string)
    requires x in RemoveFirst(ms, mid)
    ensures x in ms
  {
    if mid in ms {
      RemoveFirstMultiset(ms, mid);
      assert x in multiset(RemoveFirst(ms, mid));
    }
  }

  /** A move, successful or not, keeps every filed id resolvable. */
  lemma MoveKeepsFiled(s: Store, mid: string, dest: string)
    requires Filed(s)
    ensures Filed(Move(s, mid, dest).0)
  {
    var hs := Heads(s.root);
    var r := Move(s, mid, dest).0;
    var h := FirstIndex(hs, Holding(mid));
    FirstIndexSpec(hs, Holding(mid));
    DetachHeads(s.root, mid);
    if Move(s, mid, dest).1 {
      MoveRelocates(s, mid, dest);
      var d := FirstIndex(hs, ById(dest)).value;
      assert mid in s.messages by { assert Resolved(hs[h.value], s.messages); }
      forall j | 0 <= j < |Heads(r.root)|
        ensures Resolved(Heads(r.root)[j], r.messages)
      {
        assert Resolved(hs[j], s.messages);
        forall x | x in Heads(r.root)[j].messages ensures x in r.messages {
          if x != mid && j == h.value {
            RemoveFirstSubset(hs[j].messages, mid, x);
          }
        }
      }
    } else if h.Some? {
      forall j | 0 <= j < |Heads(r.root)|
        ensures Resolved(Heads(r.root)[j], r.messages)
      {
        assert Resolved(hs[j], s.messages);
        forall x | x in Heads(r.root)[j].messages ensures x in r.messages {
          if j == h.value {
            RemoveFirstSubset(hs[j].messages, mid, x);
          }
        }
      }
    }
  }

  /** Creating a folder files nothing, so the store invariant is kept. */
  lemma CreateFolderKeepsFiled(s: Store, name: Option<string>, parentId: Option<string>, freshId: string)
    requires Filed(s)
    ensures Filed(CreateFolder(s, name, parentId, freshId))
  {
    if name.Some? && name.value != "" {
      var hs := Heads(s.root);
      var r := CreateFolder(s, name, parentId, freshId);
      var t := ParentSlot(s.root, parentId);
      var n := |Heads(At(s.root, t))|;
      CreateFolderHeads(s, name, parentId, freshId);
      var hs' := Heads(r.root);
      forall j | 0 <= j < |hs'|
        ensures Resolved(hs'[j], r.messages)
      {
        if j < t + n {
          assert hs'[j] == hs[..t + n][t := hs[t].(arity := hs[t].arity + 1)][j];
          assert Resolved(hs[j], s.messages);
        } else if j > t + n {
          assert hs'[j] == hs[j - 1];
        }
      }
    }
  }
}

/** The registered users (class ListaUsuarios): a singly linked list of
    nodes, each holding a name, an e-mail address and a password. */
module Users {
  import opened Wrappers

  datatype User = User(name: string, email: string, password: string)

  /** The chain of nodes starting at `cabeza`; End stands for `None`. */
  datatype UserList = End | Node(user: User, next: UserList)

  /** The users of the list, head first. */
  function Elements(l: UserList): seq<User>
  {
    match l
    case End => []
    case Node(u, next) => [u] + Elements(next)
  }

  /** No two users share an e-mail address. */
  predicate DistinctEmails(us: seq<User>)
  {
    forall i, j :: 0 <= i < j < |us| ==> us[i].email != us[j].email
  }

  /** User k is the first one with the address. */
  predicate FirstWith(us: seq<User>, email: string, k: int)
  {
    0 <= k < |us| && us[k].email == email && forall j :: 0 <= j < k ==> us[j].email != email
  }

  /** `buscar_por_email`: walk from the head and return the first user with
      the address, or None when no user has it. */
  method FindByEmail(l: UserList, email: string) returns (r: Option<User>)
    ensures r.None? <==> forall i :: 0 <= i < |Elements(l)| ==> Elements(l)[i].email != email
    ensures r.Some? ==> exists k :: FirstWith(Elements(l), email, k) && Elements(l)[k] == r.value
  {
    var cur := l;
    ghost var seen := 0;
    while cur.Node?
      invariant 0 <= seen <= |Elements(l)| && Elements(cur) == Elements(l)[seen..]
      invariant forall j :: 0 <= j < seen ==> Elements(l)[j].email != email
      decreases cur
    {
      if cur.user.email == email {
        assert FirstWith(Elements(l), email, seen);
        return Some(cur.user);
      }
      cur := cur.next;
      seen := seen + 1;
    }
    return None;
  }

  /** The list with a new node linked after the current tail. */
  function Append(l: UserList, u: User): (r: UserList)
    ensures Elements(r) == Elements(l) + [u]
  {
    match l
    case End => Node(u, End)
    case Node(v, next) => Node(v, Append(next, u))
  }

  /** `registrar_usuario`: refuse an address that is already registered,
      leaving the list as it was; otherwise add the user at the tail. */
  method Register(l: UserList, name: string, email: string, password: string) returns (l': UserList, ok: bool)
    ensures ok <==> forall i :: 0 <= i < |Elements(l)| ==> Elements(l)[i].email != email
    ensures !ok ==> l' == l
    ensures ok ==> Elements(l') == Elements(l) + [User(name, email, password)]
    ensures DistinctEmails(Elements(l)) ==> DistinctEmails(Elements(l'))
  {
    var existing := FindByEmail(l, email);
    if existing.Some? {
      return l, false;
    }
    l' := Append(l, User(name, email, password));
    ok := true;
  }

  /** `obtener_todos`: one record per node, in list order. */
  method AllRecords(l: UserList) returns (out: seq<User>)
    ensures out == Elements(l)
  {
    out := [];
    var cur := l;
    while cur.Node?
      invariant out + Elements(cur) == Elements(l)
      decreases cur
    {
      out := out + [cur.user];
      cur := cur.next;
    }
  }
}

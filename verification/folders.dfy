/** The folder tree of the mail store (class Carpeta): an n-ary tree whose nodes
    carry an id, a name, an ordered list of sub-folders and an ordered list of
    message ids. Every traversal of the source is a pre-order one (a folder
    before its sub-folders, sub-folders left to right), so the tree is specified
    through `Heads`, the pre-order list of its folders' headers, and `At`,
    the folder at a pre-order position. */
module Folders {
  import opened Wrappers

  datatype Folder = Folder(id: string, name: string, children: seq<Folder>, messages: seq<string>)

  /** What one folder contributes to a pre-order listing: everything except
      its sub-folders, of which only the number is kept. */
  datatype Header = Header(id: string, name: string, messages: seq<string>, arity: nat)

  function Head(f: Folder): Header
  {
    Header(f.id, f.name, f.messages, |f.children|)
  }

  /** The headers of the tree's folders, in pre-order. */
  function Heads(f: Folder): seq<Header>
  {
    [Head(f)] + HeadsAll(f.children)
  }

  function HeadsAll(cs: seq<Folder>): seq<Header>
  {
    if cs == [] then [] else Heads(cs[0]) + HeadsAll(cs[1..])
  }

  /** The folder (with its subtree) at pre-order position i. */
  function At(f: Folder, i: nat): Folder
    requires i < |Heads(f)|
  {
    if i == 0 then f else AtAll(f.children, i - 1)
  }

  function AtAll(cs: seq<Folder>, i: nat): Folder
    requires i < |HeadsAll(cs)|
  {
    var n := |Heads(cs[0])|;
    if i < n then At(cs[0], i) else AtAll(cs[1..], i - n)
  }

  /** The header at a pre-order position is the header of the folder there. */
  lemma {:induction false} HeadAt(f: Folder, j: nat)
    requires j < |Heads(f)|
    ensures Heads(f)[j] == Head(At(f, j))
    decreases f, 1
  {
    if j > 0 {
      HeadAtAll(f.children, j - 1);
    }
  }

  lemma {:induction false} HeadAtAll(cs: seq<Folder>, j: nat)
    requires j < |HeadsAll(cs)|
    ensures HeadsAll(cs)[j] == Head(AtAll(cs, j))
    decreases cs, 0
  {
    var n := |Heads(cs[0])|;
    if j < n {
      HeadAt(cs[0], j);
    } else {
      HeadAtAll(cs[1..], j - n);
    }
  }

  /** The three searches of the source: by id (`buscar_por_id`), by name
      (`buscar_por_nombre`) and by contained message (`carpeta_de_mensaje`). */
  datatype Query = ById(id: string) | ByName(name: string) | Holding(mid: string)

  predicate Matches(h: Header, q: Query)
  {
    match q
    case ById(id) => h.id == id
    case ByName(name) => h.name == name
    case Holding(mid) => mid in h.messages
  }

  /** No header before position n matches the query. */
  predicate NoneBefore(hs: seq<Header>, q: Query, n: nat)
    requires n <= |hs|
  {
    forall j :: 0 <= j < n ==> !Matches(hs[j], q)
  }

  /** Position of the first header matching the query (reference definition
      of "first in pre-order"). */
  function FirstIndex(hs: seq<Header>, q: Query): (r: Option<nat>)
    ensures r.Some? ==> r.value < |hs|
  {
    if hs == [] then None
    else if Matches(hs[0], q) then Some(0)
    else match FirstIndex(hs[1..], q)
      case None => None
      case Some(i) => Some(i + 1)
  }

  /** The reference meaning of `FirstIndex`: a matching position with no
      match before it, and no position at all exactly when nothing matches. */
  lemma {:induction false} FirstIndexSpec(hs: seq<Header>, q: Query)
    ensures FirstIndex(hs, q).Some? ==>
      Matches(hs[FirstIndex(hs, q).value], q) && NoneBefore(hs, q, FirstIndex(hs, q).value)
    ensures FirstIndex(hs, q).None? <==> NoneBefore(hs, q, |hs|)
  {
    if hs != [] && !Matches(hs[0], q) {
      FirstIndexSpec(hs[1..], q);
      var t := hs[1..];
      assert forall j :: 1 <= j < |hs| ==> hs[j] == t[j - 1];
    }
  }

  /** The first match in a concatenation is the first match in the left part,
      or else the first match in the right part shifted past the left part. */
  lemma FirstIndexConcat(a: seq<Header>, b: seq<Header>, q: Query)
    ensures FirstIndex(a, q).Some? ==> FirstIndex(a + b, q) == FirstIndex(a, q)
    ensures FirstIndex(a, q).None? && FirstIndex(b, q).Some? ==>
      FirstIndex(a + b, q) == Some(|a| + FirstIndex(b, q).value)
    ensures FirstIndex(a, q).None? && FirstIndex(b, q).None? ==> FirstIndex(a + b, q).None?
  {
    if FirstIndex(a, q).Some? {
      FirstIndexInLeft(a, b, q);
    } else {
      FirstIndexInRight(a, b, q);
    }
  }

  lemma {:induction false} FirstIndexInLeft(a: seq<Header>, b: seq<Header>, q: Query)
    requires FirstIndex(a, q).Some?
    ensures FirstIndex(a + b, q) == FirstIndex(a, q)
  {
    assert (a + b)[0] == a[0];
    if !Matches(a[0], q) {
      assert (a + b)[1..] == a[1..] + b;
      FirstIndexInLeft(a[1..], b, q);
    }
  }

  lemma FirstIndexInRight(a: seq<Header>, b: seq<Header>, q: Query)
    requires FirstIndex(a, q).None?
    ensures FirstIndex(b, q).None? ==> FirstIndex(a + b, q).None?
    ensures FirstIndex(b, q).Some? ==> FirstIndex(a + b, q) == Some(|a| + FirstIndex(b, q).value)
  {
    if FirstIndex(b, q).None? {
      FirstIndexSpec(a, q);
      FirstIndexSpec(b, q);
      FirstIndexSpec(a + b, q);
      NoneBeforeConcat(a, b, q, |b|);
    } else {
      var k := FirstIndex(b, q).value;
      var ab := a + b;
      FirstIndexSpec(a, q);
      FirstIndexSpec(b, q);
      assert k < |b| && Matches(b[k], q) && NoneBefore(b, q, k);
      NoneBeforeConcat(a, b, q, k);
      assert ab[|a| + k] == b[k];
      FirstIndexIs(ab, q, |a| + k);
      assert FirstIndex(a + b, q) == Some(|a| + k);
    }
  }

  lemma NoneBeforeConcat(a: seq<Header>, b: seq<Header>, q: Query, n: nat)
    requires n <= |b| && NoneBefore(a, q, |a|) && NoneBefore(b, q, n)
    ensures NoneBefore(a + b, q, |a| + n)
  {
    forall j | |a| <= j < |a| + n ensures !Matches((a + b)[j], q) {
      assert (a + b)[j] == b[j - |a|];
    }
  }

  /** A matching position with no earlier match is the first match. */
  lemma {:induction false} FirstIndexIs(hs: seq<Header>, q: Query, k: nat)
    requires k < |hs| && Matches(hs[k], q) && NoneBefore(hs, q, k)
    ensures FirstIndex(hs, q) == Some(k)
  {
    if k > 0 {
      var t := hs[1..];
      assert !Matches(hs[0], q) && t[k - 1] == hs[k];
      assert NoneBefore(t, q, k - 1) by {
        forall j | 0 <= j < k - 1 ensures !Matches(t[j], q) {
          assert t[j] == hs[j + 1];
        }
      }
      FirstIndexIs(t, q, k - 1);
    }
  }

  /** Two header lists that agree on which positions match have the same first match. */
  lemma FirstIndexAgree(a: seq<Header>, b: seq<Header>, q: Query)
    requires |a| == |b|
    requires forall j :: 0 <= j < |a| ==> (Matches(a[j], q) <==> Matches(b[j], q))
    ensures FirstIndex(a, q) == FirstIndex(b, q)
  {
  }

  /** `buscar_por_id` / `buscar_por_nombre` (and the inner search of
      `carpeta_de_mensaje`): the folder itself if it matches, otherwise the
      first hit among the sub-folders, left to right. */
  function Find(f: Folder, q: Query): (r: Option<Folder>)
    ensures r.None? <==> FirstIndex(Heads(f), q).None?
    ensures r.Some? ==> r.value == At(f, FirstIndex(Heads(f), q).value)
  {
    FirstIndexConcat([Head(f)], HeadsAll(f.children), q);
    if Matches(Head(f), q) then Some(f) else FindAll(f.children, q)
  }

  function FindAll(cs: seq<Folder>, q: Query): (r: Option<Folder>)
    ensures r.None? <==> FirstIndex(HeadsAll(cs), q).None?
    ensures r.Some? ==> r.value == AtAll(cs, FirstIndex(HeadsAll(cs), q).value)
  {
    if cs == [] then None
    else
      FirstIndexConcat(Heads(cs[0]), HeadsAll(cs[1..]), q);
      match Find(cs[0], q)
      case Some(found) => Some(found)
      case None => FindAll(cs[1..], q)
  }

  /** Position of the first occurrence of m in ms (Python's `list.index`). */
  function IndexOf(ms: seq<string>, m: string): (k: nat)
    requires m in ms
    ensures k < |ms| && ms[k] == m && m !in ms[..k]
  {
    if ms[0] == m then 0
    else
      var k := IndexOf(ms[1..], m);
      assert ms[..k + 1] == [ms[0]] + ms[1..][..k];
      k + 1
  }

  /** Python's `list.remove` as the source uses it: drops the first
      occurrence, and leaves a list without the id as it is. */
  function RemoveFirst(ms: seq<string>, m: string): seq<string>
  {
    if m in ms then ms[..IndexOf(ms, m)] + ms[IndexOf(ms, m) + 1..] else ms
  }

  /** Removing an occurring id takes exactly one copy of it away. */
  lemma RemoveFirstMultiset(ms: seq<string>, m: string)
    requires m in ms
    ensures multiset(RemoveFirst(ms, m)) == multiset(ms) - multiset{m}
  {
    var k := IndexOf(ms, m);
    assert ms == ms[..k] + [m] + ms[k + 1..];
  }

  /** The in-place changes the source makes to one folder object. */
  datatype Edit = Append(mid: string) | Remove(mid: string) | Adopt(child: Folder)

  function Apply(f: Folder, e: Edit): Folder
  {
    match e
    case Append(mid) => f.(messages := f.messages + [mid])
    case Remove(mid) => f.(messages := RemoveFirst(f.messages, mid))
    case Adopt(child) => f.(children := f.children + [child])
  }

  /** The tree after editing, in place, the folder at pre-order position i. */
  function UpdateAt(f: Folder, i: nat, e: Edit): Folder
    requires i < |Heads(f)|
  {
    if i == 0 then Apply(f, e) else f.(children := UpdateAtAll(f.children, i - 1, e))
  }

  function UpdateAtAll(cs: seq<Folder>, i: nat, e: Edit): (r: seq<Folder>)
    requires i < |HeadsAll(cs)|
    ensures |r| == |cs|
  {
    var n := |Heads(cs[0])|;
    if i < n then [UpdateAt(cs[0], i, e)] + cs[1..]
    else [cs[0]] + UpdateAtAll(cs[1..], i - n, e)
  }

  /** Unfolding HeadsAll on a list built as head + tail. */
  lemma HeadsAllCons(c: Folder, cs: seq<Folder>)
    ensures HeadsAll([c] + cs) == Heads(c) + HeadsAll(cs)
  {
    assert ([c] + cs)[0] == c;
    assert ([c] + cs)[1..] == cs;
  }

  /** HeadsAll distributes over concatenation of sibling lists. */
  lemma {:induction false} HeadsAllConcat(a: seq<Folder>, b: seq<Folder>)
    ensures HeadsAll(a + b) == HeadsAll(a) + HeadsAll(b)
  {
    if a == [] {
      assert a + b == b;
    } else {
      assert a + b == [a[0]] + (a[1..] + b);
      HeadsAllCons(a[0], a[1..] + b);
      HeadsAllConcat(a[1..], b);
    }
  }

  /** Pre-order lists every subtree contiguously: the headers starting at the
      position of a folder are exactly that folder's own pre-order headers. */
  lemma {:induction false} SubtreeHeads(f: Folder, i: nat)
    requires i < |Heads(f)|
    ensures i + |Heads(At(f, i))| <= |Heads(f)|
    ensures Heads(f)[i..i + |Heads(At(f, i))|] == Heads(At(f, i))
    decreases f, 1
  {
    if i > 0 {
      SubtreeHeadsAll(f.children, i - 1);
    }
  }

  lemma {:induction false} SubtreeHeadsAll(cs: seq<Folder>, i: nat)
    requires i < |HeadsAll(cs)|
    ensures i + |Heads(AtAll(cs, i))| <= |HeadsAll(cs)|
    ensures HeadsAll(cs)[i..i + |Heads(AtAll(cs, i))|] == Heads(AtAll(cs, i))
    decreases cs, 0
  {
    var n := |Heads(cs[0])|;
    if i < n {
      SubtreeHeads(cs[0], i);
    } else {
      SubtreeHeadsAll(cs[1..], i - n);
    }
  }

  /** Editing the folder at position i replaces its block of the pre-order
      headers by the headers of the edited folder; everything before and after
      the block is unchanged (ancestors keep their number of sub-folders). */
  lemma {:induction false} Splice(f: Folder, i: nat, e: Edit)
    requires i < |Heads(f)|
    ensures i + |Heads(At(f, i))| <= |Heads(f)|
    ensures Heads(UpdateAt(f, i, e)) ==
      Heads(f)[..i] + Heads(Apply(At(f, i), e)) + Heads(f)[i + |Heads(At(f, i))|..]
    decreases f, 2
  {
    if i == 0 {
      var n := |Heads(f)|;
      assert Heads(f)[..0] == [] && Heads(f)[n..] == [];
    } else {
      SpliceBelow(f, i, e);
    }
  }

  /** Splice for a folder strictly below the root: the edit happens inside
      the children's headers, after the root's own header. */
  lemma {:induction false} SpliceBelow(f: Folder, i: nat, e: Edit)
    requires 0 < i < |Heads(f)|
    ensures i + |Heads(At(f, i))| <= |Heads(f)|
    ensures Heads(UpdateAt(f, i, e)) ==
      Heads(f)[..i] + Heads(Apply(At(f, i), e)) + Heads(f)[i + |Heads(At(f, i))|..]
    decreases f, 1
  {
    var cs := f.children;
    var a := HeadsAll(cs);
    var g := AtAll(cs, i - 1);
    assert At(f, i) == g;
    SpliceAll(cs, i - 1, e);
    var uc := UpdateAtAll(cs, i - 1, e);
    var u := UpdateAt(f, i, e);
    assert u == f.(children := uc);
    assert Heads(u) == [Head(f)] + HeadsAll(uc);
    assert Heads(f) == [Head(f)] + a;
    SpliceCons(Head(f), a, i - 1, Heads(Apply(g, e)), |Heads(g)|);
  }

  lemma {:induction false} SpliceAll(cs: seq<Folder>, i: nat, e: Edit)
    requires i < |HeadsAll(cs)|
    ensures i + |Heads(AtAll(cs, i))| <= |HeadsAll(cs)|
    ensures HeadsAll(UpdateAtAll(cs, i, e)) ==
      HeadsAll(cs)[..i] + Heads(Apply(AtAll(cs, i), e)) + HeadsAll(cs)[i + |Heads(AtAll(cs, i))|..]
    decreases cs, 1
  {
    SubtreeHeadsAll(cs, i);
    if i < |Heads(cs[0])| {
      SpliceFirst(cs, i, e);
    } else {
      SpliceLater(cs, i, e);
    }
  }

  /** SpliceAll when the edited folder lies in the first sibling's subtree. */
  lemma {:induction false} SpliceFirst(cs: seq<Folder>, i: nat, e: Edit)
    requires i < |HeadsAll(cs)| && i < |Heads(cs[0])|
    requires i + |Heads(AtAll(cs, i))| <= |HeadsAll(cs)|
    ensures HeadsAll(UpdateAtAll(cs, i, e)) ==
      HeadsAll(cs)[..i] + Heads(Apply(AtAll(cs, i), e)) + HeadsAll(cs)[i + |Heads(AtAll(cs, i))|..]
    decreases cs, 0
  {
    var g := AtAll(cs, i);
    var x := Heads(Apply(g, e));
    var s := |Heads(g)|;
    var h0 := Heads(cs[0]);
    var t := HeadsAll(cs[1..]);
    assert g == At(cs[0], i);
    Splice(cs[0], i, e);
    HeadsAllCons(UpdateAt(cs[0], i, e), cs[1..]);
    SpliceLeft(h0, t, i, x, s);
  }

  /** SpliceAll when the edited folder lies in a later sibling's subtree. */
  lemma {:induction false} SpliceLater(cs: seq<Folder>, i: nat, e: Edit)
    requires i < |HeadsAll(cs)| && |Heads(cs[0])| <= i
    requires i + |Heads(AtAll(cs, i))| <= |HeadsAll(cs)|
    ensures HeadsAll(UpdateAtAll(cs, i, e)) ==
      HeadsAll(cs)[..i] + Heads(Apply(AtAll(cs, i), e)) + HeadsAll(cs)[i + |Heads(AtAll(cs, i))|..]
    decreases cs, 0
  {
    var n := |Heads(cs[0])|;
    var g := AtAll(cs, i);
    var x := Heads(Apply(g, e));
    var s := |Heads(g)|;
    var h0 := Heads(cs[0]);
    var t := HeadsAll(cs[1..]);
    assert g == AtAll(cs[1..], i - n);
    SpliceAll(cs[1..], i - n, e);
    HeadsAllCons(cs[0], UpdateAtAll(cs[1..], i - n, e));
    SpliceRight(h0, t, i, x, s);
  }

  /** Sequence algebra behind Splice: a block replaced after a leading element. */
  lemma SpliceCons(h: Header, a: seq<Header>, k: nat, x: seq<Header>, s: nat)
    requires k + s <= |a|
    ensures [h] + (a[..k] + x + a[k + s..]) == ([h] + a)[..k + 1] + x + ([h] + a)[k + 1 + s..]
  {
    assert ([h] + a)[..k + 1] == [h] + a[..k];
    assert ([h] + a)[k + 1 + s..] == a[k + s..];
  }

  /** Sequence algebra behind SpliceAll: a block replaced inside the left part. */
  lemma SpliceLeft(a: seq<Header>, b: seq<Header>, k: nat, x: seq<Header>, s: nat)
    requires k + s <= |a|
    ensures (a[..k] + x + a[k + s..]) + b == (a + b)[..k] + x + (a + b)[k + s..]
  {
    assert (a + b)[..k] == a[..k];
    assert (a + b)[k + s..] == a[k + s..] + b;
  }

  /** Sequence algebra behind SpliceAll: a block replaced inside the right part. */
  lemma SpliceRight(a: seq<Header>, b: seq<Header>, k: nat, x: seq<Header>, s: nat)
    requires |a| <= k && k + s <= |a| + |b|
    ensures a + (b[..k - |a|] + x + b[k - |a| + s..]) == (a + b)[..k] + x + (a + b)[k + s..]
  {
    assert (a + b)[..k] == a + b[..k - |a|];
    assert (a + b)[k + s..] == b[k - |a| + s..];
  }

  /** An edit of a folder's message list changes that folder's header and no
      other header. */
  lemma Relabel(f: Folder, i: nat, e: Edit)
    requires i < |Heads(f)|
    requires !e.Adopt?
    ensures Heads(UpdateAt(f, i, e)) == Heads(f)[i := Head(Apply(At(f, i), e))]
  {
    var hs := Heads(f);
    var g := At(f, i);
    var s := |Heads(g)|;
    Splice(f, i, e);
    SubtreeHeads(f, i);
    assert Heads(g)[1..] == hs[i + 1..i + s] by {
      assert Heads(g) == hs[i..i + s];
    }
    assert Apply(g, e).children == g.children;
    RelabelSplice(hs, i, s, Head(Apply(g, e)), Heads(Apply(g, e)), Heads(UpdateAt(f, i, e)));
  }

  /** Sequence algebra behind Relabel: a block whose first element alone
      changes is a single-position update. */
  lemma RelabelSplice(hs: seq<Header>, i: nat, s: nat, x: Header, block: seq<Header>, u: seq<Header>)
    requires i < i + s <= |hs|
    requires block == [x] + hs[i + 1..i + s]
    requires u == hs[..i] + block + hs[i + s..]
    ensures u == hs[i := x]
  {
  }

  /** The folder at the edited position is the edited folder. */
  lemma {:induction false} EditedAt(f: Folder, i: nat, e: Edit)
    requires i < |Heads(f)|
    ensures i < |Heads(UpdateAt(f, i, e))|
    ensures At(UpdateAt(f, i, e), i) == Apply(At(f, i), e)
    decreases f, 1
  {
    Splice(f, i, e);
    if i > 0 {
      EditedAtAll(f.children, i - 1, e);
    }
  }

  lemma {:induction false} EditedAtAll(cs: seq<Folder>, i: nat, e: Edit)
    requires i < |HeadsAll(cs)|
    ensures i < |HeadsAll(UpdateAtAll(cs, i, e))|
    ensures AtAll(UpdateAtAll(cs, i, e), i) == Apply(AtAll(cs, i), e)
    decreases cs, 0
  {
    var n := |Heads(cs[0])|;
    var r := UpdateAtAll(cs, i, e);
    SpliceAll(cs, i, e);
    if i < n {
      EditedAt(cs[0], i, e);
      assert r[0] == UpdateAt(cs[0], i, e);
      assert r[1..] == cs[1..];
    } else {
      EditedAtAll(cs[1..], i - n, e);
      assert r[0] == cs[0];
      assert r[1..] == UpdateAtAll(cs[1..], i - n, e);
    }
  }

  /** A folder that adopts a child lists the child's subtree after its own. */
  lemma AdoptedHeads(g: Folder, c: Folder)
    ensures Heads(Apply(g, Adopt(c))) == [Head(g).(arity := Head(g).arity + 1)] + HeadsAll(g.children) + Heads(c)
  {
    HeadsAllConcat(g.children, [c]);
    HeadsAllCons(c, []);
    assert [c] + [] == [c];
  }

  /** Below position i, the headers of the folder's sub-folders are the rest
      of its block. */
  lemma SubtreeTail(f: Folder, i: nat)
    requires i < |Heads(f)|
    ensures i + |Heads(At(f, i))| <= |Heads(f)|
    ensures Heads(f)[i] == Head(At(f, i))
    ensures HeadsAll(At(f, i).children) == Heads(f)[i + 1..i + |Heads(At(f, i))|]
  {
    var hs := Heads(f);
    var n := |Heads(At(f, i))|;
    SubtreeHeads(f, i);
    HeadAt(f, i);
    assert hs[i + 1..i + n] == hs[i..i + n][1..];
  }

  lemma AdoptSplice(hs: seq<Header>, i: nat, n: nat, x: Header, c: seq<Header>, block: seq<Header>, u: seq<Header>)
    requires i + n <= |hs| && 1 <= n
    requires block == [x] + hs[i + 1..i + n] + c
    requires u == hs[..i] + block + hs[i + n..]
    ensures u == hs[..i + n][i := x] + c + hs[i + n..]
  {
    assert hs[..i] + [x] + hs[i + 1..i + n] == hs[..i + n][i := x];
  }

  /** The block of an adopting folder after the edit, in terms of the old
      headers. */
  lemma AdoptBlock(f: Folder, i: nat, c: Folder)
    requires i < |Heads(f)|
    ensures i + |Heads(At(f, i))| <= |Heads(f)|
    ensures var hs := Heads(f); var n := |Heads(At(f, i))|;
      Heads(Apply(At(f, i), Adopt(c))) == [hs[i].(arity := hs[i].arity + 1)] + hs[i + 1..i + n] + Heads(c)
  {
    SubtreeTail(f, i);
    AdoptedHeads(At(f, i), c);
  }

  /** Adopting a child at position i: the adopter's header counts one more
      sub-folder, every other header keeps its place, and the child's subtree
      follows the adopter's old subtree. */
  lemma AdoptHeads(f: Folder, i: nat, c: Folder)
    requires i < |Heads(f)|
    ensures i + |Heads(At(f, i))| <= |Heads(f)|
    ensures var hs := Heads(f); var n := |Heads(At(f, i))|;
      Heads(UpdateAt(f, i, Adopt(c))) == hs[..i + n][i := hs[i].(arity := hs[i].arity + 1)] + Heads(c) + hs[i + n..]
  {
    var hs := Heads(f);
    var n := |Heads(At(f, i))|;
    AdoptBlock(f, i, c);
    Splice(f, i, Adopt(c));
    AdoptSplice(hs, i, n, hs[i].(arity := hs[i].arity + 1), Heads(c),
                Heads(Apply(At(f, i), Adopt(c))), Heads(UpdateAt(f, i, Adopt(c))));
  }
}

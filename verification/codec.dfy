/** The record codec of messages and folders (`to_dict` / `from_dict`): the
    shape in which the store is written as JSON. Only the values that occur
    in these records are modelled: null, strings, arrays and objects. */
module Codec {
  import opened Wrappers
  import opened Folders
  import opened MailStore
  import opened Text

  datatype Json = JNull | JStr(s: string) | JArr(items: seq<Json>) | JObj(fields: map<string, Json>)

  /** The values Python treats as false when deciding `id or uuid4()`. */
  predicate Falsy(j: Json)
  {
    j.JNull? || j == JStr("") || j == JArr([]) || j == JObj(map[])
  }

  /** `d.get(key, '')` for a string field; None when the value is not a string. */
  function StrField(d: map<string, Json>, key: string): Option<string>
  {
    if key !in d then Some("")
    else match d[key]
      case JStr(s) => Some(s)
      case _ => None
  }

  /** `id or uuid4().hex`: a missing or falsy id is replaced by the newId id. */
  function IdField(d: map<string, Json>, newId: string): Option<string>
  {
    if "id" !in d || Falsy(d["id"]) then Some(newId)
    else match d["id"]
      case JStr(s) => Some(s)
      case _ => None
  }

  /** `Mensaje.to_dict`. */
  function MessageRecord(m: Message): Json
  {
    JObj(map["id" := JStr(m.id), "remitente" := JStr(m.sender), "destinatario" := JStr(m.recipient),
             "asunto" := JStr(m.subject), "cuerpo" := JStr(m.body)])
  }

  /** `Mensaje.from_dict`: absent text fields read as empty, a missing or
      empty id is replaced by `newId`. */
  function MessageFrom(j: Json, newId: string): Option<Message>
  {
    match j
    case JObj(d) =>
      var id := IdField(d, newId);
      var sender := StrField(d, "remitente");
      var recipient := StrField(d, "destinatario");
      var subject := StrField(d, "asunto");
      var body := StrField(d, "cuerpo");
      if id.Some? && sender.Some? && recipient.Some? && subject.Some? && body.Some?
      then Some(Message(id.value, sender.value, recipient.value, subject.value, body.value))
      else None
    case _ => None
  }

  /** A message with a non-empty id survives encoding and decoding unchanged. */
  lemma MessageRoundTrip(m: Message, newId: string)
    requires m.id != ""
    ensures MessageFrom(MessageRecord(m), newId) == Some(m)
  {
    assert !Falsy(JStr(m.id));
  }

  /** A message whose id is empty comes back with the newId id and everything
      else unchanged. */
  lemma MessageEmptyIdIsFresh(m: Message, newId: string)
    requires m.id == ""
    ensures MessageFrom(MessageRecord(m), newId) == Some(m.(id := newId))
  {
    assert Falsy(JStr(m.id));
  }

  /** Decoding a message record: it succeeds exactly when the id is absent,
      falsy or a string and every text field present is a string; then each
      missing text field reads as empty, each present one as its string, and
      a missing or falsy id reads as the newId id. */
  lemma MessageDefaults(d: map<string, Json>, newId: string)
    ensures MessageFrom(JObj(d), newId).Some? <==>
      ("id" in d ==> d["id"].JStr? || Falsy(d["id"])) &&
      forall k :: k in TextKeys && k in d ==> d[k].JStr?
    ensures MessageFrom(JObj(d), newId).Some? ==>
      var m := MessageFrom(JObj(d), newId).value;
      && m.id == (if "id" !in d || Falsy(d["id"]) then newId else d["id"].s)
      && m.sender == (if "remitente" in d then d["remitente"].s else "")
      && m.recipient == (if "destinatario" in d then d["destinatario"].s else "")
      && m.subject == (if "asunto" in d then d["asunto"].s else "")
      && m.body == (if "cuerpo" in d then d["cuerpo"].s else "")
  {
  }

  /** The text fields of a message record. */
  const TextKeys: set<string> := {"remitente", "destinatario", "asunto", "cuerpo"}

  /** A list of message ids as a JSON array of strings. */
  function Strs(ms: seq<string>): (r: seq<Json>)
    ensures |r| == |ms|
  {
    if ms == [] then [] else [JStr(ms[0])] + Strs(ms[1..])
  }

  /** `list(d.get('mensajes', []))` for an array of strings; None otherwise. */
  function StrsFrom(items: seq<Json>): Option<seq<string>>
  {
    if items == [] then Some([])
    else match (items[0], StrsFrom(items[1..]))
      case (JStr(x), Some(rest)) => Some([x] + rest)
      case _ => None
  }

  lemma {:induction false} StrsRoundTrip(ms: seq<string>)
    ensures StrsFrom(Strs(ms)) == Some(ms)
  {
    if ms != [] {
      var xs := Strs(ms);
      assert xs == [JStr(ms[0])] + Strs(ms[1..]);
      assert xs[0] == JStr(ms[0]) && xs[1..] == Strs(ms[1..]);
      StrsRoundTrip(ms[1..]);
      assert StrsFrom(xs) == Some([ms[0]] + ms[1..]);
      assert [ms[0]] + ms[1..] == ms;
    }
  }

  /** `Carpeta.to_dict`: id, name, sub-folder records in order, message ids in order. */
  function FolderRecord(f: Folder): Json
    decreases f, 1
  {
    JObj(map["id" := JStr(f.id), "nombre" := JStr(f.name),
             "hijos" := JArr(FolderRecords(f.children)), "mensajes" := JArr(Strs(f.messages))])
  }

  function FolderRecords(cs: seq<Folder>): (r: seq<Json>)
    ensures |r| == |cs|
    decreases cs, 0
  {
    if cs == [] then [] else [FolderRecord(cs[0])] + FolderRecords(cs[1..])
  }

  /** `Carpeta.from_dict`: missing name reads as empty, missing sub-folder
      and message lists as empty; every folder whose id is missing or falsy
      receives `newId`. Both lists are built by iterating the stored value,
      so an empty string or object reads as an empty list and a string of
      message ids reads as its characters. */
  function FolderFrom(j: Json, newId: string): Option<Folder>
    decreases j, 0
  {
    match j
    case JObj(d) =>
      var id := IdField(d, newId);
      var name := StrField(d, "nombre");
      var kids := if "hijos" !in d then Some([])
                  else match d["hijos"]
                    case JArr(items) => FoldersFrom(d["hijos"], 0, newId)
                    case JStr(x) => if x == "" then Some([]) else None
                    case JObj(fields) => if fields == map[] then Some([]) else None
                    case JNull => None;
      var mids := if "mensajes" !in d then Some([])
                  else match d["mensajes"]
                    case JArr(items) => StrsFrom(items)
                    case JStr(x) => Some(Chars(x))
                    case JObj(fields) => if fields == map[] then Some([]) else None
                    case JNull => None;
      if id.Some? && name.Some? && kids.Some? && mids.Some?
      then Some(Folder(id.value, name.value, kids.value, mids.value))
      else None
    case _ => None
  }

  /** `list(s)` for a string: one-character pieces that, joined, spell the
      string again. */
  function Chars(x: string): (r: seq<string>)
    ensures |r| == |x|
    ensures forall i :: 0 <= i < |r| ==> |r[i]| == 1
    ensures Concat(r) == x
  {
    if x == "" then [] else
      var rest := Chars(x[1..]);
      assert ([[x[0]]] + rest)[1..] == rest;
      [[x[0]]] + rest
  }

  /** Decoding the sub-folder records `arr.items[i..]`, in order. */
  function FoldersFrom(arr: Json, i: nat, newId: string): Option<seq<Folder>>
    requires arr.JArr? && i <= |arr.items|
    decreases arr, |arr.items| - i
  {
    if i == |arr.items| then Some([])
    else match (FolderFrom(arr.items[i], newId), FoldersFrom(arr, i + 1, newId))
      case (Some(c), Some(rest)) => Some([c] + rest)
      case _ => None
  }

  /** Every folder in the tree has a non-empty id. */
  predicate NamedIds(f: Folder)
  {
    forall j :: 0 <= j < |Heads(f)| ==> Heads(f)[j].id != ""
  }

  predicate NamedIdsAll(cs: seq<Folder>)
  {
    forall j :: 0 <= j < |HeadsAll(cs)| ==> HeadsAll(cs)[j].id != ""
  }

  /** A folder tree whose ids are all non-empty survives encoding and
      decoding unchanged: ids, names, sub-folder order and message lists. */
  lemma {:induction false} FolderRoundTrip(f: Folder, newId: string)
    requires NamedIds(f)
    ensures FolderFrom(FolderRecord(f), newId) == Some(f)
    decreases f, 1
  {
    assert Heads(f)[0].id == f.id;
    assert !Falsy(JStr(f.id));
    assert NamedIdsAll(f.children) by {
      forall j | 0 <= j < |HeadsAll(f.children)| ensures HeadsAll(f.children)[j].id != "" {
        assert HeadsAll(f.children)[j] == Heads(f)[j + 1];
      }
    }
    FoldersRoundTrip(f.children, 0, newId);
    StrsRoundTrip(f.messages);
    assert f.children[0..] == f.children;
  }

  lemma {:induction false} FoldersRoundTrip(cs: seq<Folder>, i: nat, newId: string)
    requires i <= |cs| && NamedIdsAll(cs)
    ensures FoldersFrom(JArr(FolderRecords(cs)), i, newId) == Some(cs[i..])
    decreases cs, |cs| - i
  {
    if i < |cs| {
      NamedIdsSplit(cs, i);
      FolderRoundTrip(cs[i], newId);
      FoldersRoundTrip(cs, i + 1, newId);
      RecordsAt(cs, i);
      assert [cs[i]] + cs[i + 1..] == cs[i..];
    }
  }

  /** Position i of the encoded list is the record of the i-th sub-folder. */
  lemma {:induction false} RecordsAt(cs: seq<Folder>, i: nat)
    requires i < |cs|
    ensures FolderRecords(cs)[i] == FolderRecord(cs[i])
  {
    if i > 0 {
      RecordsAt(cs[1..], i - 1);
    }
  }

  /** Every sub-folder of a list with non-empty ids has non-empty ids. */
  lemma {:induction false} NamedIdsSplit(cs: seq<Folder>, i: nat)
    requires i < |cs| && NamedIdsAll(cs)
    ensures NamedIds(cs[i])
  {
    HeadsAllCons(cs[0], cs[1..]);
    assert [cs[0]] + cs[1..] == cs;
    if i == 0 {
      forall j | 0 <= j < |Heads(cs[0])| ensures Heads(cs[0])[j].id != "" {
        assert Heads(cs[0])[j] == HeadsAll(cs)[j];
      }
    } else {
      assert NamedIdsAll(cs[1..]) by {
        forall j | 0 <= j < |HeadsAll(cs[1..])| ensures HeadsAll(cs[1..])[j].id != "" {
          assert HeadsAll(cs[1..])[j] == HeadsAll(cs)[|Heads(cs[0])| + j];
        }
      }
      NamedIdsSplit(cs[1..], i - 1);
    }
  }

  /** A folder record with an empty id and no lists decodes to an empty
      folder carrying the newId id. */
  lemma FolderDefaults(name: string, newId: string)
    ensures FolderFrom(JObj(map["id" := JStr(""), "nombre" := JStr(name)]), newId) == Some(Leaf(newId, name))
  {
  }

  /** Python iterates the stored `hijos` and `mensajes` values: an empty
      string or empty object gives no sub-folders, and a string given as
      `mensajes` becomes the list of its characters; a non-empty string as
      `hijos` has no records to decode and is refused. */
  lemma FolderLooseLists(id: string, name: string, kids: Json, ids: string, newId: string)
    requires id != ""
    requires kids == JStr("") || kids == JObj(map[])
    ensures FolderFrom(JObj(map["id" := JStr(id), "nombre" := JStr(name),
                                "hijos" := kids, "mensajes" := JStr(ids)]), newId)
            == Some(Folder(id, name, [], Chars(ids)))
    ensures FolderFrom(JObj(map["id" := JStr(id), "nombre" := JStr(name),
                                "hijos" := JStr(ids), "mensajes" := JObj(map[])]), newId)
            == (if ids == "" then Some(Folder(id, name, [], [])) else None)
  {
  }
}

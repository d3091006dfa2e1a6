# Mail store, folder tree and server graph — a Dafny model

This project models the core of a small web mail application:

- the **message store** (`Almacen`): a table of messages by id plus a tree of
  folders (`Carpeta`) whose lists file message ids. The model covers adding
  a message, moving it between folders, finding the folder that holds it,
  listing every folder with its readable path, searching messages by
  subject or sender, and creating a folder under a parent;
- the **record codec** (`to_dict` / `from_dict`) of messages and folders;
- the **mail-server graph** (`ServidorNetwork`): adding servers and
  connections, listing connections, and routing a message with
  breadth-first or depth-first search (`simulate_send`);
- the **user list** (`ListaUsuarios`): a singly linked list with
  registration, lookup by e-mail and listing.

Files and modules:

| file | module | what it holds |
|---|---|---|
| `wrappers.dfy` | `Wrappers` | `Option` |
| `text.dfy` | `Text` | `'/'.join`, ASCII lower-casing, substring search |
| `folders.dfy` | `Folders` | folder tree, pre-order header list `Heads`, first-match search, in-place edits at a pre-order position |
| `store.dfy` | `MailStore` | `Almacen` operations and the folder-creation step of the web layer |
| `search.dfy` | `Search` | `buscar_mensajes` |
| `codec.dfy` | `Codec` | JSON records of messages and folders |
| `network.dfy` | `Network` | server graph and its mutations |
| `paths.dfy` | `Paths` | `bfs_path`, `dfs_path`, `simulate_send` |
| `users.dfy` | `Users` | `ListaUsuarios` |

Every traversal of the folder tree in the source is pre-order: a folder comes
before its sub-folders, and sub-folders go left to right. The model therefore
describes a tree by `Heads`, the pre-order list of its folders' headers. A
header is everything in a folder except its sub-folders, of which only the
count is kept. The source changes a folder object in place, after finding it
by a recursive search. The model expresses that change as `UpdateAt`: an edit
of the folder at one pre-order position. The lemmas `Folders.Splice` and
`Folders.Relabel` say how such an edit shows up in `Heads`. Python's
mutation of a shared object thus becomes a value-level update whose effect on
every other folder is stated explicitly.

Fresh identifiers (`uuid.uuid4().hex`) become parameters (`newId`,
`freshId`). The iteration order of Python sets is left open: the loops over
adjacency sets pick any element not yet handled, and the proved properties
hold for every such order.

## Model

| member | source | states |
|---|---|---|
| `Folders.FirstIndexSpec` | models.py:52-69 | the pre-order first-match position is a matching folder with no match before it, and there is none exactly when no folder matches |
| `Folders.Find` | models.py:52-69 | `buscar_por_id` / `buscar_por_nombre` return nothing exactly when no folder in pre-order matches, and otherwise the folder at the first matching pre-order position |
| `Folders.RemoveFirstMultiset` | models.py:121-122 | `list.remove` of a present id takes away exactly one copy of it and nothing else |
| `MailStore.Target` | models.py:104-106 | a message is filed into the root when no folder id is given or the id names no folder, otherwise into the first folder with that id |
| `MailStore.AddMessage` | models.py:102-107 | the message table gains the message under its id, and only the target folder changes: its list gains the id at the end |
| `MailStore.AddMessageKeepsFiled` | models.py:102-107 | adding a message keeps every filed id a known message |
| `MailStore.Detach` | models.py:120-127 | the removal reports success exactly when some folder files the id; it edits the first such folder in pre-order (own list before sub-folders) and leaves the tree unchanged otherwise |
| `MailStore.DetachHeads` | models.py:120-127 | after the removal the tree has the same folders in the same order, and only the first holder's list lost its first copy of the id |
| `MailStore.Move` | models.py:110-118 | the move reports success exactly when the id is filed somewhere and the destination id resolves; the message table never changes |
| `MailStore.MoveRelocates` | models.py:110-118 | a successful move removes the first filed copy and appends the id to the destination; no other folder changes |
| `MailStore.MoveKeepsCount` | models.py:110-118 | a successful move keeps the number of filed copies of the id, and the destination's list ends with it |
| `MailStore.MoveToUnknownUnfiles` | models.py:110-118 | a move to an unknown destination reports failure but has still removed one filed copy of the id |
| `MailStore.MoveUnfiledIsNoop` | models.py:110-118 | moving an id that no folder files changes nothing and reports failure |
| `MailStore.MoveKeepsFiled` | models.py:110-118 | a move, successful or not, keeps every filed id a known message |
| `MailStore.MoveValidated` | models.py:110-118 | with the destination checked first, a failed move leaves the store unchanged and a successful one equals the source's move |
| `MailStore.OwnerOf` | models.py:130-139 | `carpeta_de_mensaje` returns nothing exactly when no folder files the id, and otherwise the first folder in pre-order whose list holds it |
| `MailStore.ListPathsSpec` | models.py:142-149 | the listing has one entry per folder in pre-order with that folder's id; the root's path is its name; every other entry's folder is a sub-folder of an earlier entry's folder, and its path is that entry's path, "/" and its own name; the entry at each pre-order position carries the "/"-join of the names from the root down to the folder at that position |
| `MailStore.NamesTo` | models.py:142-149 | the names on the way from the root down to a pre-order position start with the root's name and end with that folder's name |
| `MailStore.ListingPathAt` | models.py:144-148 | the recursive listing started below a given trail has one entry per folder, and each entry's path is the trail followed by the names down to that folder, joined by "/" |
| `MailStore.EmptyFiled` | models.py:73-76 | the initial store with an empty "Inbox" root satisfies the store invariant |
| `MailStore.ParentSlot` | app.py:198-200 | the parent is the root when the parent id is missing, empty or unknown, otherwise the first folder with that id |
| `MailStore.CreateFolder` | app.py:196-202 | a missing or empty name changes nothing, and folder creation never touches the message table |
| `MailStore.CreateFolderAttaches` | app.py:201-202 | the parent gains the new, empty folder as its last sub-folder |
| `MailStore.CreateFolderHeads` | app.py:198-202 | in pre-order the new folder sits right after the parent's old subtree; the parent counts one more sub-folder and every other folder is unchanged |
| `MailStore.CreateFolderFindsNew` | app.py:201-202 | when the fresh id was unused, looking it up afterwards finds exactly the new empty folder |
| `MailStore.CreateFolderKeepsFiled` | app.py:196-202 | creating a folder keeps every filed id a known message |
| `Text.Lower` | models.py:160 | lower-casing keeps the length, leaves no upper-case ASCII letter, maps each upper-case letter to the lower-case one at the same alphabet position and keeps every other character |
| `Text.LowerIdempotent` | models.py:160 | lower-casing an already lower-cased string changes nothing |
| `Codec.Chars` | models.py:48 | `list` of a string gives one-character pieces, one per character, that joined spell the string again |
| `Text.Occurs` | models.py:160 | Python's `in` on strings is true exactly when the term occurs at some offset |
| `Text.EmptyOccurs` | models.py:160 | the empty term occurs in every string |
| `Search.HitsInMembers` | models.py:156-164 | a folder contributes exactly its filed ids that name a known message whose subject or sender contains the term (ignoring case), each with the folder's path |
| `Search.EmptyTermKeepsAll` | models.py:156-164 | the empty search term keeps every known filed message of a folder, in filing order |
| `Search.FindIsScan` | models.py:152-169 | the search visits folders in listing order and labels each folder's hits with the path the folder listing gives it |
| `Search.FindMembers` | models.py:152-169 | a hit is in the result exactly when some folder files that known, matching message and the hit carries that folder's listed path |
| `Codec.MessageRoundTrip` | models.py:15-26 | a message with a non-empty id survives `to_dict` then `from_dict` unchanged |
| `Codec.MessageEmptyIdIsFresh` | models.py:8-26 | a message with an empty id comes back with the fresh id and all other fields unchanged |
| `Codec.MessageDefaults` | models.py:8-26 | a message record decodes exactly when its id is absent, falsy or text and every text field present is text; then each missing field is empty text, and a missing or falsy id is the fresh id |
| `Codec.StrsRoundTrip` | models.py:41-48 | a folder's message-id list survives encoding and decoding in order |
| `Codec.FolderRoundTrip` | models.py:36-49 | a folder tree whose ids are all non-empty survives `to_dict` then `from_dict` unchanged, with ids, names, sub-folder order and message lists |
| `Codec.FoldersRoundTrip` | models.py:40-47 | the sub-folder records decode back to the same sub-folders in order |
| `Codec.FolderDefaults` | models.py:44-49 | a folder record with an empty id and no lists decodes to an empty folder with the fresh id |
| `Codec.FolderLooseLists` | models.py:47-48 | an empty string or empty object as `hijos` gives no sub-folders, a string as `mensajes` gives its characters, and a non-empty string as `hijos` is refused |
| `Network.EmptyGraph` | server_graph.py:25-28 | the empty graph satisfies the graph invariant and has no connections |
| `Network.AddServer` | server_graph.py:51-56 | the server is stored under the fresh id; its adjacency entry exists and starts empty when the id is new; no existing connection changes and the graph invariant is kept |
| `Network.AddConnection` | server_graph.py:58-65 | the call succeeds exactly when both ends are known servers; on failure nothing changes; on success a gains b and, unless directed, b gains a, and nothing else changes |
| `Network.ListConnections` | server_graph.py:70-75 | the output holds each connection (from, to) exactly once and nothing else |
| `Paths.Trace` | server_graph.py:93-100 | following predecessors from the goal back to the start yields a walk from start to goal with no repeated server |
| `Paths.Bfs` | server_graph.py:77-100 | [] for an unknown endpoint or an unreachable goal; otherwise a walk from start to goal with no repeated server that is no longer than any other such walk; [start] when start is the goal |
| `Paths.Visit` | server_graph.py:108-118 | a recursive call that reports false has visited every neighbour of every server it visited, and the parent map stays a chain back to the start |
| `Paths.Dfs` | server_graph.py:102-129 | [] for an unknown endpoint or an unreachable goal; otherwise a walk from start to goal with no repeated server |
| `Paths.SimulateSend` | server_graph.py:131-137 | `ok` holds exactly when a route exists; the report gives the route by id and by server name and counts hops as its length minus one; the breadth-first route is a shortest one |
| `Users.FindByEmail` | app.py:42-48 | nothing is found exactly when no user has the address, and otherwise the first user in list order with it |
| `Users.Append` | app.py:30-37 | linking a node after the tail adds the user at the end of the list |
| `Users.Register` | app.py:26-40 | registration succeeds exactly when the address is new; on failure the list is unchanged; on success the user is added at the end, so addresses stay distinct |
| `Users.AllRecords` | app.py:50-60 | one record per node, in list order |

## Left out

- Persistence is not modelled: `_cargar`, `guardar`, `_load`, `_save`, `cargar_desde_json` and `guardar_en_json` read and write files. The recovery of a failed load is represented only by the empty store (`MailStore.Empty`) and the empty graph.
- `uuid.uuid4()` becomes a parameter. `Codec.FolderFrom` gives the same `newId` to every folder of one record that lacks an id, where the source draws a different uuid for each.
- Codec.MessageFrom: a text field that is not a string, or a non-falsy id that is not a string, is refused (None), where Python would keep the value. A falsy id (`null`, `""`, `[]`, `{}`) is replaced by the fresh id, as in Python. JSON numbers and booleans are not modelled at all.
- Codec.FolderFrom: a non-string name, a non-falsy id that is not a string, a `mensajes` list holding non-strings, and a non-empty object as `mensajes` are refused (None). Python would keep the name, the id and the list items, and would take the object's keys in insertion order, which a Dafny map does not have. A `hijos` or `mensajes` value of `null`, a non-empty string or object as `hijos`, and a `hijos` list holding non-objects raise in Python and are refused here too. Empty strings and objects, and a string as `mensajes`, are decoded as Python iterates them.
- Python's recursion limit (about 1000 frames) is not modelled. The source recurses once per tree level in `buscar_por_id`, `buscar_por_nombre`, `_remover_mensaje_de_carpeta`, `carpeta_de_mensaje`, the listing and the search (models.py:52-69, 120-164) and in `to_dict`/`from_dict` (models.py:36-49), and once per server on the current route in the nested `dfs` of `dfs_path` (server_graph.py:108-118). On a very deep folder tree or a long depth-first route the source raises `RecursionError`. The model has no depth bound and no such failure.
- `Text.Lower` lower-cases ASCII letters only; Python's `str.lower` covers all of Unicode.
- Paths.Bfs: requires the graph invariant `Network.Valid` (adjacency names only known servers), which every graph built by `add_server` and `add_connection` keeps. A graph loaded from a hand-edited file could break it; then `simulate_send` in the source can fail on an unknown id.
- Paths.Dfs: requires `Network.Valid` for the same reason as `Paths.Bfs`.
- Paths.Dfs: states that the route is a walk without repeats but not which one; that depends on set iteration order, which the model leaves open.
- Paths.SimulateSend: requires `Network.Valid` for the same reason as `Paths.Bfs`.
- Network.ListConnections: the order of the pairs follows Python set and dict iteration and is left open.
- `list_servers`, the `Servidor` record codec and the Flask routes are outside this core. Only the store step of `crear_carpeta` (app.py:196-202) is modelled; flash messages and redirects are not.
- Lookups return folder and user values, not shared objects. Where the source mutates the object a search returned, the model edits the tree at that folder's pre-order position.
- The source's own guards against a `None` subject or sender (`m.asunto or ''`) are not modelled, because fields are always strings here.

A move to an unknown destination is reported as a failure, yet it is not
free of effects: `mover_mensaje` removes the id from its folder before it
looks up the destination, and it does not put the id back when the lookup
fails. The model keeps that order (`MailStore.Move`,
`MailStore.MoveToUnknownUnfiles`). `MailStore.MoveValidated` checks the
destination first, and for it a failed move changes nothing.

## Findings

| source | as written | input that shows it | evidently intended | confidence | as-written member | corrected member |
|---|---|---|---|---|---|---|
| models.py:110-118 | the id is removed from its folder before the destination is looked up, and the removal is not undone when the lookup fails | a store whose root files message "m", moved to destination id "nowhere" that names no folder: returns false, and "m" is now filed in no folder | a failed move leaves every folder as it was | medium, not executed | `MailStore.MoveToUnknownUnfiles` | `MailStore.MoveValidated` |

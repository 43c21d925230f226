# Forum reply tree

A model of the in-memory post store of a minimal threaded discussion forum
(`main.go`). The forum holds one root post, with the reserved identifier 0 and
the text "Welcome to the forum!". Replies nest under it to any depth. A global
counter `nextID` starts at 1 and issues the identifier of every new reply. The
store has two operations:

- `findPost` searches a subtree depth first. It checks the node itself, then
  each reply in order, and returns the first post that carries the identifier,
  or nothing.
- `insertReply` appends a new post to a parent's reply list. The new post gets
  the identifier `nextID`, the given text and no replies. Then `nextID`
  advances by one.

At startup the program inserts the reply "first" under the root. The reply
request looks a post up by identifier and inserts a reply only when the post
was found.

Two modules make up the model:

- `Posts` (`posts.dfy`) models the tree as a value. `Post` is a datatype with
  an identifier, a text and a sequence of replies. A Go `*Post` pointer into
  the tree becomes a `Path`: the reply indices to follow from the root.
  `Search` is the specification of `findPost`, and the method `FindPost` is its
  recursive search with a loop over the replies. `AppendAt` is the effect of an
  append on the tree. `Extends` states append-only growth.
- `Forum` (`forum.dfy`) holds the `Store` class. Its fields are `root` and
  `nextID`, and the methods `InsertReply`, `Find` and `Reply` update or read
  them. `Valid()` is the store invariant: the root carries 0, no two posts share
  an identifier, and every identifier is below `nextID`. Two more methods are
  clients of the store: `Start` is the startup sequence, and `Session` runs a
  few inserts and lookups.

## Model

| member | source | states |
|---|---|---|
| `Posts.Search` | main.go:64-78 | a found path leads to a post carrying the identifier; the result is "not found" exactly when no post of the subtree carries it |
| `Posts.SearchFrom` | main.go:71-77 | the replies are searched in order: a hit lies in the first reply whose subtree carries the identifier, and the search inside that reply is itself the result; "not found" exactly when no remaining reply carries it |
| `Posts.FindPost` | main.go:64-78 | the recursive search, with its early-returning loop over the replies, returns exactly `Search`'s answer; it takes the tree as a value, so it cannot change it |
| `Posts.AtHasId` | main.go:14-18 | every post reachable by a path contributes its identifier to the tree's identifiers |
| `Posts.SearchFindsFirst` | main.go:67-75 | whenever some post carries the identifier, the search finds one, and no post carrying it comes earlier in depth-first preorder (node before its replies, earlier replies before later ones) |
| `Posts.SearchUnique` | main.go:64-78 | in a tree with unique identifiers, the search returns the path to the one post carrying the identifier |
| `Posts.SearchFromSkip` | main.go:71-75 | replies whose subtrees do not carry the identifier are passed over, and the hit comes from the first reply that carries it |
| `Posts.AppendAt` | main.go:84-88 | the parent path stays valid; the parent keeps its identifier and text; its reply list is the old one with the new post added at the end |
| `Posts.AppendAtHasId` | main.go:84-88 | after the append the tree carries its old identifiers and those of the new post, and no others |
| `Posts.AppendAtUnique` | main.go:84-90 | appending a post whose identifiers are all new keeps the identifiers of the tree unique |
| `Posts.AppendAtOthers` | main.go:84-88 | every reply list other than the parent's keeps its length, so only one list grows |
| `Posts.AppendAtExtends` | main.go:84-88 | an append only extends the tree: every post keeps its identifier and text, and every reply list keeps its old entries in their old positions |
| `Posts.ExtendsRefl` | main.go:14-18 | every tree extends itself |
| `Posts.ExtendsTrans` | main.go:84-88 | append-only growth composes over any number of inserts |
| `Posts.ExtendsAt` | main.go:84-88 | a reference obtained earlier still leads to the same post (same identifier and text) after any later inserts |
| `Posts.ExtendsHasId` | main.go:84-88 | an identifier present in the tree stays present after later inserts |
| `Posts.AtChild` | main.go:84-88 | the path to a reply is the parent's path followed by the reply's index |
| `Forum.Store.constructor` | main.go:20-26 | the initial store: the root has identifier 0, the welcome text and no replies; `nextID` is 1; the invariant holds |
| `Forum.Store.Find` | main.go:56 | the lookup from the root reads only; its answer is `Search` on the root: a path to a post with the identifier, or "not found" exactly when no post has it |
| `Forum.Store.InsertReply` | main.go:80-91 | keeps the invariant; `nextID` grows by exactly one; the parent's reply list is the old list with the post (old `nextID`, the text, no replies) added at the end; the tree only extends; the identifiers become the old ones plus old `nextID`; a search for old `nextID` now finds the new post |
| `Forum.Store.Reply` | main.go:56-61 | inserts exactly when some post carries the identifier, under the post that the search returned; otherwise the root and `nextID` stay unchanged |
| `Forum.Start` | main.go:32-33 | after startup the root has the single reply "first" with identifier 1, and `nextID` is 2 |
| `Forum.Session` | main.go:80-91 | after a reply under the root and a nested reply under "first", the root's replies are ids 1 and 2, post 1's reply is id 3, a search for 3 finds it, and a search for 99 finds nothing |

## Left out

- HTTP serving (main.go:35-42), the index view and its templates (main.go:30, main.go:45-47): network I/O and rendering over libraries this model does not include.
- The parsing in the reply request (main.go:50-54): `strconv.ParseInt` and the path prefix stripping are library calls. `Forum.Store.Reply` takes the parsed identifier. It does not model the "invalid id" answer or the 32-bit range that the parse enforces.
- The HTTP answers of the reply request (the redirect at main.go:58 and the "couldn't find post" message at main.go:60): output only. `Forum.Store.Reply` returns whether the post was found.
- `rootMutex` (main.go:28, main.go:81-82) and the unlocked read noted at main.go:65: every operation is modelled as sequential. A search that runs during an insert is not modelled.
- `Forum.Store.InsertReply`: `PostID` is a Go `int` (64 bits) and `nextID++` would wrap after 2^63 - 1 inserts. The model uses unbounded integers and does not capture that wrap-around.
- Pointer aliasing: Go appends to `parent.Replies` in place through a pointer. The model rebuilds the tree along the parent's path, and references are paths. `Posts.ExtendsAt` shows that a reference stays valid and keeps leading to the same post, which is what an aliased pointer gives.

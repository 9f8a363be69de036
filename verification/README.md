# Query-by-example document store, modelled in Dafny

This project models the matching engine of a small in-memory JSON document
store (`QueryByExample.java`). The store understands three commands:

- `add <doc>` stores a document.
- `get <pattern>` prints every stored document that matches a partial
  document, in insertion order.
- `delete <pattern>` removes every stored document that matches.

A pattern matches a document when every field of the pattern matches:
- a scalar must be equal;
- an array must be contained, order and repetition ignored;
- a nested object must match recursively.

Matching runs on a trie index. There is one node per field path. Each node
maps every non-object value seen at its path to the set of documents that
hold that value there.

The model is functional. The trie is an immutable value, so a query can
never change the index. Modelling it as a value loses nothing: every path
of the code's lookup returns a fresh set (lines 152, 181, 192, 194 and 200,
and recursively through line 186). So the `retainAll` at line 168 never
modifies a set stored in the trie.

Adding, removing and looking up are recursive functions over the document
tree. The key loops of `addEntry` and `removeEntry` are written as map
comprehensions inside `Trie.Insert` and `Trie.Remove`. The other loops of
the code are methods:
- `Trie.QueryNode`, the per-field AND with its early exit, is proved equal
  to `Trie.Lookup`;
- `Trie.LookupField`, with its scan over stored arrays, is proved equal to
  `Trie.Field`;
- `Store.RemoveAll`, the delete loop, is proved to keep the store invariant,
  to remove exactly the given documents from both maps, and to leave the
  counter unchanged.

The code sorts the result of `get` with `Collections.sort` by insertion
counter. The model writes that sort out as a selection sort,
`Store.SortByOrder`, and `Store.ListsUnique` proves that only one list of
the reported documents is in ascending counter order. So the printed output
is the same whichever sort produces it.

Modules:

- `Json` (`json.dfy`): the parsed value (scalar, array, object), documents
  as field maps, and the reference meaning of a match, `MatchValue`/`Matches`.
- `Trie` (`trie.dfy`): `TrieNode`, indexing (`Insert`/`AddEntry`),
  unindexing (`Remove`/`RemoveEntry`), lookup (`Lookup`, `Field`,
  `AllFields`, `ArrayMatches`), and the loop-shaped methods `QueryNode` and
  `LookupField`.
- `TrieIndex` (`trie_index.dfy`): the exact-index invariant `Exact`, and
  the main theorem. While the trie indexes exactly the stored documents,
  the query of a pattern returns exactly the stored documents that match it.
- `TriePaths` (`trie_paths.dfy`): the trie seen leaf by leaf. It states
  what indexing and unindexing one document do to each document set at each
  path, and that the index stays sparse.
- `Store` (`store.dfy`): the store state (index, text map, counter map,
  counter), the store invariant `Valid`, and the commands `Add`, `Get`,
  `Delete` and `Execute`.

Two behaviours of the code worth knowing:

- Documents are keyed by value, not by a per-insertion identity. Adding a
  document equal to a stored one leaves one stored entry. That entry takes
  the later text and the later counter, and the index does not change. So
  `get {}` prints such a document once, not twice.
- A nested empty object in a pattern, such as `{"a":{}}`, matches nothing.
  The code runs the same loop as for a top-level pattern, and that loop
  returns an empty set when there are no fields. Only the top-level empty
  pattern of `get` means "everything". `delete {}` deletes nothing, because
  delete calls the trie query directly.

## Model

| member | source | states |
|---|---|---|
| `Trie.Insert` | QueryByExample.java:125-139 | Indexing a document's value at a node: an object value creates any missing child per field and indexes each field's value in that child; any other value adds the document to the set under that value, creating the set if needed. Its contract states that exactly the children for the object's fields and the key for a non-object value are added. |
| `Trie.AddEntry` | QueryByExample.java:118-121 | Indexing a whole document walks it from the root as an object value. Its contract states that the root gains a child for each top-level field and its own entries are untouched. |
| `Trie.Remove` | QueryByExample.java:219-236 | Unindexing follows the same walk as indexing, takes the document out of the set under each non-object value, and drops a value key whose set becomes empty. Its contract states that no child is added or pruned and no value key is added. |
| `Trie.RemoveEntry` | QueryByExample.java:213-216 | Unindexing a whole document walks it from the root. Its contract states that the root keeps exactly its child field names and its own entries. |
| `Trie.Lookup` | QueryByExample.java:151-207 | The reference lookup of a pattern value at a node, as a function: an object pattern is the AND of its field results (nothing for no fields), an array pattern the union of the sets under stored arrays containing every element, a scalar the set under the equal value. Its meaning is stated by `TrieIndex.LookupExact`. |
| `Trie.Field` | QueryByExample.java:178-186 | The reference lookup of one pattern field: nothing when the node has no child for the field, otherwise the lookup of the field's value in that child. Its meaning is stated by `TrieIndex.FieldExact`. |
| `Trie.AllFields` | QueryByExample.java:151-174 | The function form of the per-field AND: the documents found by every one of the given pattern fields, and nothing when no field is given. Its meaning is stated by `TrieIndex.AllFieldsExact`, and `Trie.QueryNode` is proved equal to it over all fields. |
| `Trie.ArrayMatches` | QueryByExample.java:199-207 | The function form of the array branch: the union of the document sets stored under those value keys that are arrays containing every element of the pattern array. Its meaning is stated by `TrieIndex.LookupExact`. |
| `Trie.Query` | QueryByExample.java:143-148 | The top-level query: the lookup of the pattern as an object value at the root. The code's null check at line 146 never fires, because the inner query always returns a set. Its meaning is stated by `TrieIndex.QueryExact`. |
| `Trie.QueryNode` | QueryByExample.java:143-175 | The field-by-field loop returns exactly the AND of the field results, whatever order the fields are visited in. The first result seeds the running set, later ones intersect into it, and the early exit on an empty running set changes nothing. An empty pattern gives the empty set. |
| `Trie.LookupField` | QueryByExample.java:178-210 | The per-field lookup. A missing child gives nothing. An object value recurses into the child. A scalar gives the set stored under that value, or nothing. An array scans every stored value key and unions the sets of the arrays that contain all the pattern's elements. |
| `Trie.AllFieldsStep` | QueryByExample.java:163-169 | Intersecting the running result with one more field's result gives the AND over one more field. |
| `Trie.AllFieldsSingle` | QueryByExample.java:163-165 | The AND over a single field is that field's own result (the first sub-query seeds the result). |
| `Trie.AllFieldsAnti` | QueryByExample.java:171-172 | ANDing over more fields never adds documents, so once the running result is empty the final result is empty. |
| `Trie.ArrayMatchesStep` | QueryByExample.java:202-206 | Scanning one more value key adds its documents exactly when the key is an array that contains every element of the pattern array. |
| `Trie.QueryConjunction` | QueryByExample.java:151-174 | For every trie, a non-empty pattern's query returns a document if and only if the query of each one-field sub-pattern returns it. |
| `Json.MatchesIsConjunction` | QueryByExample.java:151-174 | A non-empty pattern matches a document exactly when every one-field piece of the pattern matches it. |
| `Json.SelfMatch` | QueryByExample.java:185-195 | A value with no empty object inside matches itself used as a pattern. |
| `TrieIndex.InsertExact` | QueryByExample.java:125-139 | Indexing a document whose value at the node's path is `v` makes the node index its old bindings plus (document, `v`) and nothing else. |
| `TrieIndex.AddEntryIndexes` | QueryByExample.java:118-139 | Indexing a document keeps the trie an exact index, now of the stored set plus that document. |
| `TrieIndex.RemoveExact` | QueryByExample.java:219-236 | Unindexing an indexed binding makes the node index exactly its old bindings minus that one. Value keys whose sets become empty are dropped. |
| `TrieIndex.RemoveEntryIndexes` | QueryByExample.java:213-236 | Unindexing a stored document keeps the trie an exact index of the remaining documents. |
| `TrieIndex.LookupExact` | QueryByExample.java:178-210 | At a node that indexes exactly a set of bindings, looking up a pattern value returns exactly the documents whose bound value matches it. This covers the scalar, array-superset and nested-object cases. |
| `TrieIndex.FieldExact` | QueryByExample.java:180-186 | A field lookup returns exactly the documents whose value one field down matches. With no child, that set is empty. |
| `TrieIndex.AllFieldsExact` | QueryByExample.java:151-174 | The AND of the field results is exactly the set of documents whose object value has every pattern field, each one matching. |
| `TrieIndex.QueryExact` | QueryByExample.java:143-148 | Main theorem. While the trie indexes exactly the stored documents, `query(pattern)` equals the set of stored documents matching the pattern. This set is empty for the empty pattern. |
| `TriePaths.InsertLeaf` | QueryByExample.java:125-139 | After indexing, the node exists at every path where the document has a value. Every leaf set equals the old set, plus the document exactly where it holds that non-object value at that path. |
| `TriePaths.RemoveLeaf` | QueryByExample.java:219-236 | After unindexing, every leaf set equals the old set, minus the document exactly where it holds that value at that path. No node is created or pruned. |
| `TriePaths.RemoveUndoesAdd` | QueryByExample.java:213-236 | Indexing and then unindexing a document restores every leaf set that did not already hold it. |
| `TriePaths.InsertSparse` | QueryByExample.java:136-137 | Indexing never leaves a value key mapped to an empty set. |
| `TriePaths.RemoveSparse` | QueryByExample.java:227-233 | Unindexing drops a value key whose set becomes empty, so no value key maps to an empty set. |
| `Store.InitValid` | QueryByExample.java:23-36 | The freshly constructed store (empty trie, empty maps, counter 0) satisfies the store invariant. |
| `Store.Add` | QueryByExample.java:63-68 | Add keeps the store invariant. Afterwards the document is stored with this text, and its counter is later than every other stored document's. Other documents keep their text and counter. Adding an equal document again leaves it stored once. |
| `Store.Get` | QueryByExample.java:71-93 | Get prints the stored texts of the reported documents in ascending counter order. The empty pattern reports every stored document; any other pattern reports the stored documents matching it. An empty report prints nothing. |
| `Store.SortByOrder` | QueryByExample.java:83-86 | The result list holds exactly the given documents, in strictly ascending counter order. |
| `Store.MinByOrder` | QueryByExample.java:86 | The comparator's least element: a document of the set whose counter is no larger than any other's. |
| `Store.ListsUnique` | QueryByExample.java:83-91 | Two lists of the same documents in ascending counter order are equal. So the output does not depend on the hash-set iteration order. |
| `Store.Texts` | QueryByExample.java:88-91 | The printed lines are the stored texts of the listed documents, one per document, in list order. |
| `Store.Delete` | QueryByExample.java:96-109 | Delete removes exactly the stored documents matching the pattern from the index and from both maps, and keeps the store invariant. Every other document stays stored with its text and counter. Afterwards no stored document matches the pattern, and the empty pattern deletes nothing. |
| `Store.RemoveAll` | QueryByExample.java:100-108 | The delete loop. It unindexes the given stored documents one at a time and takes them out of both maps. It keeps the store invariant and changes nothing else. With no documents to remove, the store is unchanged. |
| `Store.Execute` | QueryByExample.java:46-60 | `add`, `get` and `delete` run the corresponding command and keep the store invariant. A delete removes exactly the matching documents from both maps, keeps the counter and the other documents' counters, leaves no matching document, and prints nothing. Any other command word changes nothing and prints nothing. |

## Left out

- Reading commands from standard input, splitting a line at the first space, progress logging and flushing output (`main`) are I/O. `Execute` takes the command word, the raw text and the parsed document as parameters, and returns the printed lines as a sequence.
- JSON parsing and its parse errors are not modelled. Documents arrive already parsed as `Json.Value`. The raw text is an opaque string, kept and printed back unchanged.
- Scalars are an `Atom` with equality: null, booleans, integers and strings. The parser's distinction between `Long` and `Double`, and floating point in general, is not modelled.
- `Trie.LookupField`: when an array pattern meets a stored value key that is not an array, the code throws `ClassCastException` (line 203), or `NullPointerException` for a stored JSON `null` key, which `addEntry` does store (line 136). Neither exception is caught (`main` catches only `ParseException`), so the program stops there. Here such a key simply does not match.
- `Trie.Remove`: a missing child under a non-empty value, or a missing value key, makes the code throw `NullPointerException` (lines 222-227). Here it leaves that part of the node alone. The store only unindexes stored documents, and `TrieIndex.RemoveExact` requires that, so this case never arises in the store.
- `Store.Add`: the counter is an unbounded integer. The code's 32-bit `int` would wrap after 2^31 - 1 adds, which would break both the ordering and the comparator's subtraction.
- Hash codes and the iteration order of `HashMap`/`HashSet` are not modelled. Loops pick an arbitrary element, and `Store.ListsUnique` shows the output does not depend on that choice.
- The code uses mutable `JSONObject`s as hash keys. It never mutates them after parsing, so documents are modelled as immutable values.

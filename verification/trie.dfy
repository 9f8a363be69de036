/** The trie index of the store: one node per field path, each node holding
    the documents found under every non-object value at that path. The trie
    is an immutable value; adding, removing and querying are functions of it
    (so a query can never change the index). */
module Trie {
  import opened Json

  /** A trie node. `next` maps a field name to the node for the path one
      field longer; `entries` maps a non-object value found at this node's
      path to the set of documents holding that value there. */
  datatype TrieNode = TrieNode(next: map<string, TrieNode>, entries: map<Value, set<Doc>>)

  /** A freshly created node. */
  const Empty: TrieNode := TrieNode(map[], map[])

  /** The child under field `k`, or a fresh node when there is none. */
  function Child(n: TrieNode, k: string): TrieNode {
    if k in n.next then n.next[k] else Empty
  }

  /** The documents stored under value `v` at this node, none if `v` is not
      a key of the node's entries. */
  function Holders(n: TrieNode, v: Value): set<Doc> {
    if v in n.entries then n.entries[v] else {}
  }

  // ---------------------------------------------------------------------
  // Indexing

  /** Indexes document `d`, whose value at the path of `n` is `v`. An object
      value descends into one child per field, creating missing children;
      any other value (scalar or array) adds `d` to the set stored under
      that value. */
  function Insert(n: TrieNode, v: Value, d: Doc): (r: TrieNode)
    ensures r.next.Keys == n.next.Keys + (if v.Object? then v.fields.Keys else {})
    ensures r.entries.Keys == n.entries.Keys + (if v.Object? then {} else {v})
    decreases v
  {
    match v
    case Object(f) =>
      n.(next := map k | k in n.next.Keys + f.Keys ::
                   if k in f then Insert(Child(n, k), f[k], d) else n.next[k])
    case _ =>
      n.(entries := n.entries[v := Holders(n, v) + {d}])
  }

  /** Indexes a whole document under the root. */
  function AddEntry(root: TrieNode, d: Doc): (r: TrieNode)
    ensures r.next.Keys == root.next.Keys + d.Keys
    ensures r.entries == root.entries
  {
    Insert(root, Object(d), d)
  }

  /** Unindexes document `d`, whose value at the path of `n` is `v`,
      following the same walk as `Insert`. A value whose document set
      becomes empty is dropped from the entries. A missing child or value
      key is left alone. */
  function Remove(n: TrieNode, v: Value, d: Doc): (r: TrieNode)
    ensures r.next.Keys == n.next.Keys
    ensures r.entries.Keys <= n.entries.Keys
    decreases v
  {
    match v
    case Object(f) =>
      n.(next := map k | k in n.next.Keys ::
                   if k in f then Remove(n.next[k], f[k], d) else n.next[k])
    case _ =>
      if v !in n.entries then n
      else
        var rest := n.entries[v] - {d};
        if rest == {} then n.(entries := n.entries - {v})
        else n.(entries := n.entries[v := rest])
  }

  /** Unindexes a whole document from the root. */
  function RemoveEntry(root: TrieNode, d: Doc): (r: TrieNode)
    ensures r.next.Keys == root.next.Keys
    ensures r.entries == root.entries
  {
    Remove(root, Object(d), d)
  }

  // ---------------------------------------------------------------------
  // Querying

  /** The documents found for pattern value `q` at the node `n`:
      an object pattern is the AND of its fields, an array pattern the union
      over stored arrays containing all its elements, a scalar pattern the
      set stored under exactly that value. */
  function Lookup(n: TrieNode, q: Value): set<Doc>
    decreases q, 1
  {
    match q
    case Object(f) => AllFields(n, q, f.Keys)
    case Array(want) => ArrayMatches(n, want, n.entries.Keys)
    case Scalar(_) => Holders(n, q)
  }

  /** The documents found for pattern field `k` with value `v` below `n`:
      nothing when `n` has no child for `k`. */
  function Field(n: TrieNode, k: string, v: Value): set<Doc>
    decreases v, 2
  {
    if k in n.next then Lookup(n.next[k], v) else {}
  }

  /** The intersection of the field results of the object pattern `q` over
      the field names `keys`; nothing when `keys` is empty. */
  function AllFields(n: TrieNode, q: Value, keys: set<string>): set<Doc>
    requires q.Object? && keys <= q.fields.Keys
    decreases q, 0
  {
    set k, d | k in keys && d in Field(n, k, q.fields[k])
                 && (forall k' :: k' in keys ==> d in Field(n, k', q.fields[k']))
               :: d
  }

  /** The union of the document sets stored under those array keys among
      `keys` that contain every element of `want`. A key that is not an array
      never matches. */
  function ArrayMatches(n: TrieNode, want: seq<Value>, keys: set<Value>): set<Doc> {
    set a, d | a in keys && a in n.entries && a.Array? && ContainsAll(a.elems, want)
                 && d in n.entries[a]
               :: d
  }

  /** The documents matching a top-level pattern. */
  function Query(root: TrieNode, pattern: Doc): set<Doc> {
    Lookup(root, Object(pattern))
  }

  // ---------------------------------------------------------------------
  // Laws of the intersection

  /** The intersection over one more field is the old intersection cut down
      by that field's result. */
  lemma {:induction false} AllFieldsStep(n: TrieNode, q: Value, done: set<string>, k: string)
    requires q.Object? && done <= q.fields.Keys && k in q.fields
    requires done != {} && k !in done
    ensures AllFields(n, q, done + {k}) == AllFields(n, q, done) * Field(n, k, q.fields[k])
  {
  }

  /** The intersection over a single field is that field's result. */
  lemma AllFieldsSingle(n: TrieNode, q: Value, k: string)
    requires q.Object? && k in q.fields
    ensures AllFields(n, q, {k}) == Field(n, k, q.fields[k])
  {
  }

  /** Intersecting over more fields never adds documents, so an empty
      running result stays empty. */
  lemma {:induction false} AllFieldsAnti(n: TrieNode, q: Value, small: set<string>, big: set<string>)
    requires q.Object? && small <= big <= q.fields.Keys && small != {}
    ensures AllFields(n, q, big) <= AllFields(n, q, small)
  {
  }

  /** AND over fields, for whole queries: a non-empty pattern finds exactly
      the documents that each of its one-field sub-patterns finds. */
  lemma QueryConjunction(root: TrieNode, pattern: Doc, d: Doc)
    requires |pattern| > 0
    ensures d in Query(root, pattern) <==>
              forall k :: k in pattern ==> d in Query(root, map[k := pattern[k]])
  {
    forall k | k in pattern
      ensures Query(root, map[k := pattern[k]]) == Field(root, k, pattern[k])
    {
      var one := map[k := pattern[k]];
      assert one.Keys == {k};
      AllFieldsSingle(root, Object(one), k);
    }
    var q := Object(pattern);
    assert Query(root, pattern) == AllFields(root, q, pattern.Keys);
    if forall k :: k in pattern ==> d in Field(root, k, pattern[k]) {
      var k0 :| k0 in pattern;
      assert d in Field(root, k0, pattern[k0]);
      assert d in AllFields(root, q, pattern.Keys);
    }
  }

  // ---------------------------------------------------------------------
  // The lookup loops, as the index runs them

  /** The AND query over the fields of `pattern`, taken one field at a time
      in an arbitrary order: the first field's result is the running
      result, each later field intersects into it, and the loop stops as
      soon as the running result is empty. */
  method QueryNode(n: TrieNode, pattern: Doc) returns (r: set<Doc>)
    ensures r == Lookup(n, Object(pattern))
    ensures |pattern| == 0 ==> r == {}
    decreases Object(pattern), 1
  {
    ghost var q := Object(pattern);
    assert Lookup(n, q) == AllFields(n, q, pattern.Keys);
    r := {};
    var first := true;
    var todo := pattern.Keys;
    while todo != {}
      invariant todo <= pattern.Keys
      invariant first <==> todo == pattern.Keys
      invariant first ==> r == {}
      invariant !first ==> pattern.Keys - todo != {}
      invariant !first ==> r == AllFields(n, q, pattern.Keys - todo)
      decreases todo
    {
      var k :| k in todo;
      var cur := LookupField(n, k, pattern[k]);
      ghost var done := pattern.Keys - todo;
      if first {
        r := cur;
        first := false;
        assert done + {k} == {k};
        AllFieldsSingle(n, q, k);
      } else {
        r := r * cur;
        AllFieldsStep(n, q, done, k);
      }
      todo := todo - {k};
      assert pattern.Keys - todo == done + {k};
      if r == {} {
        AllFieldsAnti(n, q, pattern.Keys - todo, pattern.Keys);
        return;
      }
    }
    if first {
      assert pattern.Keys == {};
    } else {
      assert pattern.Keys - todo == pattern.Keys;
    }
  }

  /** The per-field lookup: nothing for a missing child, a recursive AND
      query for an object value, the set stored under an equal value for a
      scalar, and for an array the union over every stored array containing
      all its elements, scanning the child's value keys one by one. */
  method LookupField(n: TrieNode, k: string, v: Value) returns (r: set<Doc>)
    ensures r == Field(n, k, v)
    ensures k !in n.next ==> r == {}
    decreases v, 2
  {
    if k !in n.next {
      return {};
    }
    var child := n.next[k];
    if v.Object? {
      r := QueryNode(child, v.fields);
    } else if !v.Array? {
      if v in child.entries {
        r := child.entries[v];
      } else {
        r := {};
      }
    } else {
      r := {};
      var todo := child.entries.Keys;
      while todo != {}
        invariant todo <= child.entries.Keys
        invariant r == ArrayMatches(child, v.elems, child.entries.Keys - todo)
        decreases todo
      {
        var a :| a in todo;
        ghost var done := child.entries.Keys - todo;
        if a.Array? && ContainsAll(a.elems, v.elems) {
          r := r + child.entries[a];
        }
        todo := todo - {a};
        ArrayMatchesStep(child, v.elems, done, a);
      }
      assert child.entries.Keys - todo == child.entries.Keys;
    }
  }

  /** Scanning one more value key adds that key's documents exactly when it
      is an array containing every wanted element. */
  lemma ArrayMatchesStep(n: TrieNode, want: seq<Value>, done: set<Value>, a: Value)
    requires a in n.entries
    ensures ArrayMatches(n, want, done + {a}) ==
              ArrayMatches(n, want, done)
              + (if a.Array? && ContainsAll(a.elems, want) then n.entries[a] else {})
  {
  }
}

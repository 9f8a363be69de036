/** When the trie is an exact index of a set of stored documents, and what
    each trie operation does to the indexed set. A node is described by the
    bindings it indexes: the pairs (document, value the document holds at the
    node's path). */
module TrieIndex {
  import opened Json
  import opened Trie

  /** A document together with the value it holds at some path. */
  type Binding = (Doc, Value)

  /** The bindings one field further down: for each object value having
      field `k`, the same document with the value of that field. */
  function Below(R: set<Binding>, k: string): set<Binding> {
    set b | b in R && b.1.Object? && k in b.1.fields :: (b.0, b.1.fields[k])
  }

  /** The documents bound to exactly the value `v`. */
  function BoundTo(R: set<Binding>, v: Value): set<Doc> {
    set b | b in R && b.1 == v :: b.0
  }

  /** The documents whose bound value matches the pattern value `q`. */
  function MatchingIn(R: set<Binding>, q: Value): set<Doc> {
    set b | b in R && MatchValue(b.1, q) :: b.0
  }

  /** Each document is bound to at most one value (a document has one value
      at any path). */
  ghost predicate Functional(R: set<Binding>) {
    forall b, c :: b in R && c in R && b.0 == c.0 ==> b == c
  }

  /** Every value key of `n` is a non-object value, holds exactly the
      documents bound to it, and is never mapped to an empty set. */
  ghost predicate EntriesExact(n: TrieNode, R: set<Binding>) {
    forall v :: v in n.entries ==>
      !v.Object? && n.entries[v] == BoundTo(R, v) && n.entries[v] != {}
  }

  /** Every non-object bound value is a value key of `n`. */
  ghost predicate ValuesKeyed(n: TrieNode, R: set<Binding>) {
    forall b :: b in R && !b.1.Object? ==> b.1 in n.entries
  }

  /** Every field of a bound object value has a child in `n`. */
  ghost predicate FieldsHaveChildren(n: TrieNode, R: set<Binding>) {
    forall b :: b in R && b.1.Object? ==> b.1.fields.Keys <= n.next.Keys
  }

  /** `n` indexes exactly the bindings `R`: its own entries are exact, and
      every child indexes exactly the bindings one field further down. */
  ghost predicate Exact(n: TrieNode, R: set<Binding>)
    decreases n
  {
    && EntriesExact(n, R)
    && ValuesKeyed(n, R)
    && FieldsHaveChildren(n, R)
    && (forall k :: k in n.next ==> Exact(n.next[k], Below(R, k)))
  }

  /** The root bindings of a set of stored documents: each document is its
      own value at the empty path. */
  function Roots(S: set<Doc>): set<Binding> {
    set d | d in S :: (d, Object(d))
  }

  /** `root` is an exact index of the stored documents `S`. */
  ghost predicate Indexes(root: TrieNode, S: set<Doc>) {
    Exact(root, Roots(S))
  }

  // ---------------------------------------------------------------------
  // Facts about bindings

  lemma FunctionalBelow(R: set<Binding>, k: string)
    requires Functional(R)
    ensures Functional(Below(R, k))
  {
  }

  lemma FunctionalRoots(S: set<Doc>)
    ensures Functional(Roots(S))
  {
  }

  /** No child means no binding below it. */
  lemma NoChildNothingBelow(n: TrieNode, R: set<Binding>, k: string)
    requires FieldsHaveChildren(n, R) && k !in n.next
    ensures Below(R, k) == {}
  {
  }

  /** Without a value key, no document is bound to that (non-object) value. */
  lemma NoKeyNothingBound(n: TrieNode, R: set<Binding>, v: Value)
    requires Exact(n, R) && !v.Object?
    ensures Holders(n, v) == BoundTo(R, v)
  {
  }

  lemma BelowAdd(R: set<Binding>, d: Doc, v: Value, k: string)
    ensures Below(R + {(d, v)}, k) ==
              Below(R, k) + (if v.Object? && k in v.fields then {(d, v.fields[k])} else {})
  {
  }

  lemma BelowRemove(R: set<Binding>, d: Doc, v: Value, k: string)
    requires Functional(R) && (d, v) in R
    ensures Below(R - {(d, v)}, k) ==
              Below(R, k) - (if v.Object? && k in v.fields then {(d, v.fields[k])} else {})
  {
  }

  // ---------------------------------------------------------------------
  // Indexing adds exactly one binding

  lemma ExactEmpty()
    ensures Exact(Empty, {})
  {
  }

  /** Indexing a non-object value adds (d, v) to the node's own entries and
      leaves its children alone. */
  lemma InsertLeafExact(n: TrieNode, R: set<Binding>, v: Value, d: Doc)
    requires Exact(n, R) && !v.Object?
    ensures Exact(Insert(n, v, d), R + {(d, v)})
  {
    var n' := Insert(n, v, d);
    var R' := R + {(d, v)};
    InsertLeafLocal(n, R, v, d);
    assert n'.next == n.next;
    forall k | k in n'.next
      ensures Exact(n'.next[k], Below(R', k))
    {
      BelowAdd(R, d, v, k);
      assert Below(R', k) == Below(R, k);
      assert Exact(n.next[k], Below(R, k));
    }
  }

  /** Indexing a non-object value `v` adds `d` to the set under `v`. */
  lemma InsertLeafLocal(n: TrieNode, R: set<Binding>, v: Value, d: Doc)
    requires Exact(n, R) && !v.Object?
    ensures EntriesExact(Insert(n, v, d), R + {(d, v)})
    ensures ValuesKeyed(Insert(n, v, d), R + {(d, v)})
    ensures FieldsHaveChildren(Insert(n, v, d), R + {(d, v)})
  {
    var n' := Insert(n, v, d);
    var R' := R + {(d, v)};
    forall w | w in n'.entries
      ensures n'.entries[w] == BoundTo(R', w)
    {
      if w == v {
        NoKeyNothingBound(n, R, v);
        assert BoundTo(R', w) == BoundTo(R, w) + {d};
      } else {
        assert BoundTo(R', w) == BoundTo(R, w);
      }
    }
  }

  /** Indexing an object value leaves the node's own entries alone. */
  lemma InsertObjectLocal(n: TrieNode, R: set<Binding>, v: Value, d: Doc)
    requires Exact(n, R) && v.Object?
    ensures EntriesExact(Insert(n, v, d), R + {(d, v)})
    ensures ValuesKeyed(Insert(n, v, d), R + {(d, v)})
    ensures FieldsHaveChildren(Insert(n, v, d), R + {(d, v)})
  {
    var n' := Insert(n, v, d);
    assert n'.entries == n.entries;
    SameEntriesMoreChildren(n, n', R, v, d);
  }

  /** A node with the same entries and at least the children for the fields
      of the object value `v` indexes the extra binding (d, v) at this level. */
  lemma SameEntriesMoreChildren(n: TrieNode, n': TrieNode, R: set<Binding>, v: Value, d: Doc)
    requires Exact(n, R) && v.Object?
    requires n'.entries == n.entries && n'.next.Keys == n.next.Keys + v.fields.Keys
    ensures EntriesExact(n', R + {(d, v)})
    ensures ValuesKeyed(n', R + {(d, v)})
    ensures FieldsHaveChildren(n', R + {(d, v)})
  {
    var R' := R + {(d, v)};
    forall w | w in n'.entries
      ensures BoundTo(R', w) == BoundTo(R, w)
    {
    }
  }

  /** Indexing `d` with value `v` at a node that indexes `R` makes it index
      `R` plus the binding (d, v), and nothing else. */
  lemma {:induction false} InsertExact(n: TrieNode, R: set<Binding>, v: Value, d: Doc)
    requires Exact(n, R)
    ensures Exact(Insert(n, v, d), R + {(d, v)})
    decreases v
  {
    if !v.Object? {
      InsertLeafExact(n, R, v, d);
    } else {
      var f := v.fields;
      var n' := Insert(n, v, d);
      var R' := R + {(d, v)};
      InsertObjectLocal(n, R, v, d);
      forall k | k in n'.next
        ensures Exact(n'.next[k], Below(R', k))
      {
        BelowAdd(R, d, v, k);
        if k in f {
          if k !in n.next {
            NoChildNothingBelow(n, R, k);
            ExactEmpty();
          }
          InsertExact(Child(n, k), Below(R, k), f[k], d);
          assert n'.next[k] == Insert(Child(n, k), f[k], d);
          assert Below(R', k) == Below(R, k) + {(d, f[k])};
        } else {
          assert n'.next[k] == n.next[k];
          assert Below(R', k) == Below(R, k);
        }
      }
    }
  }

  // ---------------------------------------------------------------------
  // Unindexing removes exactly one binding

  /** Unindexing a bound non-object value takes `d` out of that value's
      document set, dropping the key when the set becomes empty. */
  lemma RemoveLeafExact(n: TrieNode, R: set<Binding>, v: Value, d: Doc)
    requires Exact(n, R) && (d, v) in R && !v.Object?
    ensures Exact(Remove(n, v, d), R - {(d, v)})
  {
    var n' := Remove(n, v, d);
    var R' := R - {(d, v)};
    RemoveLeafLocal(n, R, v, d);
    assert n'.next == n.next;
    forall k | k in n'.next
      ensures Exact(n'.next[k], Below(R', k))
    {
      assert Below(R', k) == Below(R, k);
    }
  }

  /** Unindexing a bound non-object value `v` takes `d` out of the set under
      `v`, and drops `v` when that set becomes empty. */
  lemma RemoveLeafLocal(n: TrieNode, R: set<Binding>, v: Value, d: Doc)
    requires Exact(n, R) && (d, v) in R && !v.Object?
    ensures EntriesExact(Remove(n, v, d), R - {(d, v)})
    ensures ValuesKeyed(Remove(n, v, d), R - {(d, v)})
    ensures FieldsHaveChildren(Remove(n, v, d), R - {(d, v)})
  {
    var n' := Remove(n, v, d);
    var R' := R - {(d, v)};
    assert BoundTo(R', v) == BoundTo(R, v) - {d};
    forall w | w in n'.entries
      ensures n'.entries[w] == BoundTo(R', w)
    {
      if w != v {
        assert BoundTo(R', w) == BoundTo(R, w);
      }
    }
    forall b | b in R' && !b.1.Object?
      ensures b.1 in n'.entries
    {
      if b.1 == v {
        assert b.0 in BoundTo(R', v);
      }
    }
  }

  /** Unindexing an object value leaves the node's own entries alone. */
  lemma RemoveObjectLocal(n: TrieNode, R: set<Binding>, v: Value, d: Doc)
    requires Exact(n, R) && (d, v) in R && v.Object?
    ensures EntriesExact(Remove(n, v, d), R - {(d, v)})
    ensures ValuesKeyed(Remove(n, v, d), R - {(d, v)})
    ensures FieldsHaveChildren(Remove(n, v, d), R - {(d, v)})
  {
  }

  /** Unindexing an indexed binding (d, v) from a node that indexes `R`
      makes it index `R` without that binding, and drops every value key
      whose document set becomes empty. */
  lemma {:induction false} RemoveExact(n: TrieNode, R: set<Binding>, v: Value, d: Doc)
    requires Exact(n, R) && Functional(R) && (d, v) in R
    ensures Exact(Remove(n, v, d), R - {(d, v)})
    decreases v
  {
    if !v.Object? {
      RemoveLeafExact(n, R, v, d);
    } else {
      var f := v.fields;
      var n' := Remove(n, v, d);
      var R' := R - {(d, v)};
      RemoveObjectLocal(n, R, v, d);
      forall k | k in n'.next
        ensures Exact(n'.next[k], Below(R', k))
      {
        BelowRemove(R, d, v, k);
        if k in f {
          assert (d, f[k]) in Below(R, k);
          FunctionalBelow(R, k);
          RemoveExact(n.next[k], Below(R, k), f[k], d);
          assert n'.next[k] == Remove(n.next[k], f[k], d);
          assert Below(R', k) == Below(R, k) - {(d, f[k])};
        } else {
          assert n'.next[k] == n.next[k];
          assert Below(R', k) == Below(R, k);
        }
      }
    }
  }

  // ---------------------------------------------------------------------
  // Lookup finds exactly the matching bindings

  /** At a node indexing `R`, looking up the pattern value `q` yields the
      documents whose bound value matches `q`. */
  lemma {:induction false} LookupExact(n: TrieNode, R: set<Binding>, q: Value)
    requires Exact(n, R) && Functional(R)
    ensures Lookup(n, q) == MatchingIn(R, q)
    decreases q, 1
  {
    match q
    case Scalar(_) =>
      NoKeyNothingBound(n, R, q);
      assert MatchingIn(R, q) == BoundTo(R, q);
    case Array(want) =>
      var l := Lookup(n, q);
      forall x | x in MatchingIn(R, q) ensures x in l {
        var b :| b in R && MatchValue(b.1, q) && b.0 == x;
        assert x in n.entries[b.1];
      }
      forall x | x in l ensures x in MatchingIn(R, q) {
        var a :| a in n.entries && a.Array? && ContainsAll(a.elems, want) && x in n.entries[a];
        assert x in BoundTo(R, a);
      }
    case Object(f) =>
      forall k | k in f
        ensures Field(n, k, f[k]) == MatchingIn(Below(R, k), f[k])
      {
        FieldExact(n, R, k, f[k]);
      }
      AllFieldsExact(n, R, q);
  }

  /** The field lookup at a node indexing `R` yields the documents whose
      value one field down matches. */
  lemma {:induction false} FieldExact(n: TrieNode, R: set<Binding>, k: string, v: Value)
    requires Exact(n, R) && Functional(R)
    ensures Field(n, k, v) == MatchingIn(Below(R, k), v)
    decreases v, 2
  {
    if k in n.next {
      FunctionalBelow(R, k);
      LookupExact(n.next[k], Below(R, k), v);
    } else {
      NoChildNothingBelow(n, R, k);
    }
  }

  /** AND over fields: given each field's result, the intersection over all
      fields is the set of documents whose object value matches the whole
      object pattern. */
  lemma AllFieldsExact(n: TrieNode, R: set<Binding>, q: Value)
    requires Functional(R) && q.Object?
    requires forall k :: k in q.fields ==>
               Field(n, k, q.fields[k]) == MatchingIn(Below(R, k), q.fields[k])
    ensures AllFields(n, q, q.fields.Keys) == MatchingIn(R, q)
  {
    var f := q.fields;
    var l := AllFields(n, q, f.Keys);
    forall x | x in MatchingIn(R, q) ensures x in l {
      var b :| b in R && MatchValue(b.1, q) && b.0 == x;
      forall k | k in f ensures x in Field(n, k, f[k]) {
        assert (x, b.1.fields[k]) in Below(R, k);
      }
      var k0 :| k0 in f;
      assert x in Field(n, k0, f[k0]);
    }
    forall x | x in l ensures x in MatchingIn(R, q) {
      var k0 :| k0 in f && x in Field(n, k0, f[k0]);
      var c0 :| c0 in Below(R, k0) && MatchValue(c0.1, f[k0]) && c0.0 == x;
      var b :| b in R && b.1.Object? && k0 in b.1.fields && c0 == (b.0, b.1.fields[k0]);
      forall k | k in f
        ensures k in b.1.fields && MatchValue(b.1.fields[k], f[k])
      {
        assert x in MatchingIn(Below(R, k), f[k]);
        var c :| c in Below(R, k) && MatchValue(c.1, f[k]) && c.0 == x;
        var b' :| b' in R && b'.1.Object? && k in b'.1.fields && c == (b'.0, b'.1.fields[k]);
        assert b' == b;
      }
      assert MatchValue(b.1, q);
    }
  }

  // ---------------------------------------------------------------------
  // The whole-document view

  /** Main theorem: while the trie indexes exactly the stored documents, the
      query of a pattern returns exactly the stored documents matching it.
      (An empty pattern matches nothing, and its query is empty.) */
  lemma QueryExact(root: TrieNode, S: set<Doc>, pattern: Doc)
    requires Indexes(root, S)
    ensures Query(root, pattern) == set d | d in S && Matches(d, pattern)
  {
    FunctionalRoots(S);
    LookupExact(root, Roots(S), Object(pattern));
    var l := MatchingIn(Roots(S), Object(pattern));
    forall d | d in S && Matches(d, pattern) ensures d in l {
      assert (d, Object(d)) in Roots(S);
    }
  }

  /** Indexing a document keeps the trie an exact index, now of one more
      document (a document already stored stays stored once). */
  lemma AddEntryIndexes(root: TrieNode, S: set<Doc>, d: Doc)
    requires Indexes(root, S)
    ensures Indexes(AddEntry(root, d), S + {d})
  {
    InsertExact(root, Roots(S), Object(d), d);
    assert Roots(S + {d}) == Roots(S) + {(d, Object(d))};
  }

  /** Unindexing a stored document keeps the trie an exact index of the
      remaining documents. */
  lemma RemoveEntryIndexes(root: TrieNode, S: set<Doc>, d: Doc)
    requires Indexes(root, S) && d in S
    ensures Indexes(RemoveEntry(root, d), S - {d})
  {
    FunctionalRoots(S);
    RemoveExact(root, Roots(S), Object(d), d);
    assert Roots(S - {d}) == Roots(S) - {(d, Object(d))};
  }

  /** The empty trie indexes no documents. */
  lemma EmptyIndexes()
    ensures Indexes(Empty, {})
  {
  }
}

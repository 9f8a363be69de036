/** The trie seen leaf by leaf: the document set stored at a field path
    under a value, and how indexing and unindexing one document change each
    such set. */
module TriePaths {
  import opened Json
  import opened Trie

  datatype Option<T> = None | Some(value: T)

  /** The value a document (or nested value) holds at a field path, if any. */
  function ValueAt(v: Value, p: seq<string>): Option<Value>
    decreases |p|
  {
    if p == [] then Some(v)
    else if v.Object? && p[0] in v.fields then ValueAt(v.fields[p[0]], p[1..])
    else None
  }

  /** The node reached from `n` by following the field path `p`, if any. */
  function NodeAt(n: TrieNode, p: seq<string>): Option<TrieNode>
    decreases |p|
  {
    if p == [] then Some(n)
    else if p[0] in n.next then NodeAt(n.next[p[0]], p[1..])
    else None
  }

  /** The documents stored at path `p` under value `w`. */
  function Leaf(n: TrieNode, p: seq<string>, w: Value): set<Doc> {
    match NodeAt(n, p)
    case Some(m) => Holders(m, w)
    case None => {}
  }

  /** Every value key of every node maps to a non-empty set. */
  ghost predicate Sparse(n: TrieNode)
    decreases n
  {
    && (forall v :: v in n.entries ==> n.entries[v] != {})
    && (forall k :: k in n.next ==> Sparse(n.next[k]))
  }

  /** The document set `d` adds to at path `p` under `w`: `{d}` exactly when
      `d`'s value there is the non-object value `w`. */
  function Gained(v: Value, p: seq<string>, w: Value, d: Doc): set<Doc> {
    if ValueAt(v, p) == Some(w) && !w.Object? then {d} else {}
  }

  lemma {:induction false} LeafEmpty(p: seq<string>, w: Value)
    ensures Leaf(Empty, p, w) == {}
  {
    if p != [] {
      assert NodeAt(Empty, p) == None;
    }
  }

  /** Indexing is exhaustive and adds nothing else: after indexing `d` with
      value `v`, the node of every path where `v` has a value exists, and
      every leaf set is the old one plus `d` exactly where `d` holds that
      non-object value at that path. */
  lemma {:induction false} InsertLeaf(n: TrieNode, v: Value, d: Doc, p: seq<string>, w: Value)
    ensures Leaf(Insert(n, v, d), p, w) == Leaf(n, p, w) + Gained(v, p, w, d)
    ensures ValueAt(v, p).Some? ==> NodeAt(Insert(n, v, d), p).Some?
    decreases |p|
  {
    var n' := Insert(n, v, d);
    if p == [] {
    } else if v.Object? {
      var k := p[0];
      if k in v.fields {
        var c := Child(n, k);
        InsertLeaf(c, v.fields[k], d, p[1..], w);
        assert n'.next[k] == Insert(c, v.fields[k], d);
        assert NodeAt(n', p) == NodeAt(Insert(c, v.fields[k], d), p[1..]);
        if k in n.next {
          assert NodeAt(n, p) == NodeAt(c, p[1..]);
        } else {
          LeafEmpty(p[1..], w);
        }
      } else {
        assert ValueAt(v, p) == None;
        if k in n.next {
          assert n'.next[k] == n.next[k];
        }
      }
    } else {
      assert ValueAt(v, p) == None;
      assert n'.next == n.next;
    }
  }

  /** Unindexing takes `d` out of exactly the leaf sets where `d` holds the
      value `w` at the path, and changes no other leaf set. */
  lemma {:induction false} RemoveLeaf(n: TrieNode, v: Value, d: Doc, p: seq<string>, w: Value)
    ensures Leaf(Remove(n, v, d), p, w) == Leaf(n, p, w) - Gained(v, p, w, d)
    ensures NodeAt(Remove(n, v, d), p).Some? <==> NodeAt(n, p).Some?
    decreases |p|
  {
    var n' := Remove(n, v, d);
    if p == [] {
    } else if v.Object? {
      var k := p[0];
      if k in n.next {
        if k in v.fields {
          RemoveLeaf(n.next[k], v.fields[k], d, p[1..], w);
          assert n'.next[k] == Remove(n.next[k], v.fields[k], d);
        } else {
          assert ValueAt(v, p) == None;
          assert n'.next[k] == n.next[k];
        }
      } else {
        assert k !in n'.next;
      }
    } else {
      assert ValueAt(v, p) == None;
      assert n'.next == n.next;
    }
  }

  /** Remove undoes add: indexing a document and then unindexing it leaves
      every leaf set where the document was not already stored as it was. */
  lemma RemoveUndoesAdd(n: TrieNode, d: Doc, p: seq<string>, w: Value)
    requires d !in Leaf(n, p, w)
    ensures Leaf(RemoveEntry(AddEntry(n, d), d), p, w) == Leaf(n, p, w)
  {
    InsertLeaf(n, Object(d), d, p, w);
    RemoveLeaf(AddEntry(n, d), Object(d), d, p, w);
  }

  /** Indexing keeps every value key mapped to a non-empty set. */
  lemma {:induction false} InsertSparse(n: TrieNode, v: Value, d: Doc)
    requires Sparse(n)
    ensures Sparse(Insert(n, v, d))
    decreases v
  {
    var n' := Insert(n, v, d);
    if v.Object? {
      forall k | k in n'.next
        ensures Sparse(n'.next[k])
      {
        if k in v.fields {
          if k in n.next {
            InsertSparse(n.next[k], v.fields[k], d);
          } else {
            InsertSparse(Empty, v.fields[k], d);
          }
        } else {
          assert n'.next[k] == n.next[k];
        }
      }
    }
  }

  /** Unindexing drops a value key whose set becomes empty, so the index
      stays sparse. */
  lemma {:induction false} RemoveSparse(n: TrieNode, v: Value, d: Doc)
    requires Sparse(n)
    ensures Sparse(Remove(n, v, d))
    decreases v
  {
    var n' := Remove(n, v, d);
    if v.Object? {
      forall k | k in n'.next
        ensures Sparse(n'.next[k])
      {
        if k in v.fields {
          RemoveSparse(n.next[k], v.fields[k], d);
        } else {
          assert n'.next[k] == n.next[k];
        }
      }
    }
  }
}

/** The parsed form of a JSON document as the store sees it, and the
    query-by-example meaning of a pattern against a stored value. */
module Json {

  /** A JSON scalar. Only equality between scalars matters to the store. */
  datatype Atom = Null | Bool(b: bool) | Num(n: int) | Str(s: string)

  /** A JSON value: a scalar, an array (element order kept, as in a list),
      or an object (a map from field name to value). */
  datatype Value =
    | Scalar(atom: Atom)
    | Array(elems: seq<Value>)
    | Object(fields: map<string, Value>)

  /** A document is a top-level JSON object. Two documents with the same
      fields and values are the same document. */
  type Doc = map<string, Value>

  /** The list "contains all" test: every element of `wanted` occurs somewhere
      in `stored`, ignoring order and multiplicity. */
  predicate ContainsAll(stored: seq<Value>, wanted: seq<Value>) {
    forall x :: x in wanted ==> x in stored
  }

  /** Reference semantics of one pattern value `q` against the value `w` a
      document holds at the same place:
      - a scalar pattern matches exactly the equal value;
      - an array pattern matches a stored array holding every pattern element;
      - an object pattern needs a stored object, at least one field in the
        pattern, and every pattern field present and matching. */
  predicate MatchValue(w: Value, q: Value)
    decreases q
  {
    match q
    case Scalar(_) => w == q
    case Array(want) => w.Array? && ContainsAll(w.elems, want)
    case Object(f) =>
      && w.Object?
      && |f| > 0
      && forall k :: k in f ==> k in w.fields && MatchValue(w.fields[k], f[k])
  }

  /** A stored document matches a top-level pattern. */
  predicate Matches(d: Doc, pattern: Doc) {
    MatchValue(Object(d), Object(pattern))
  }

  /** True iff no object anywhere inside `v` is empty. */
  predicate NoEmptyObject(v: Value)
    decreases v
  {
    match v
    case Scalar(_) => true
    case Array(_) => true
    case Object(f) => |f| > 0 && forall k :: k in f ==> NoEmptyObject(f[k])
  }

  /** A value without empty objects matches itself used as a pattern; a
      document is therefore found by the query that repeats it. */
  lemma {:induction false} SelfMatch(v: Value)
    requires NoEmptyObject(v)
    ensures MatchValue(v, v)
    decreases v
  {
    match v
    case Scalar(_) =>
    case Array(_) =>
    case Object(f) =>
      forall k | k in f
        ensures MatchValue(f[k], f[k])
      {
        SelfMatch(f[k]);
      }
  }

  /** AND over fields: a document matches a pattern with one or more fields
      exactly when it matches every one-field piece of it. */
  lemma {:induction false} MatchesIsConjunction(d: Doc, pattern: Doc)
    requires |pattern| > 0
    ensures Matches(d, pattern) <==>
              forall k :: k in pattern ==> Matches(d, map[k := pattern[k]])
  {
  }
}

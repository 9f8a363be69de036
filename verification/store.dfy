/** The document store: the trie index together with the original text of
    each stored document and its insertion counter, and the three commands
    add, get and delete. Documents are keyed by value, so adding a document
    equal to a stored one replaces its text and counter. */
module Store {
  import opened Json
  import opened Trie
  import opened TrieIndex

  /** The store state: the index, each stored document's original text, its
      insertion counter, and the number of adds so far. */
  datatype Store = Store(
    trie: TrieNode,
    text: map<Doc, string>,
    order: map<Doc, int>,
    count: int)

  /** The store before any command. */
  const Init: Store := Store(Empty, map[], map[], 0)

  /** The store invariant: the text and counter maps cover the same
      documents, the trie indexes exactly those documents, and the counters
      are distinct and at most the number of adds. */
  ghost predicate Valid(s: Store) {
    && s.count >= 0
    && s.text.Keys == s.order.Keys
    && Indexes(s.trie, s.text.Keys)
    && (forall d :: d in s.order ==> 0 < s.order[d] <= s.count)
    && (forall d, e :: d in s.order && e in s.order && s.order[d] == s.order[e] ==> d == e)
  }

  lemma InitValid()
    ensures Valid(Init)
  {
    EmptyIndexes();
  }

  /** The stored documents matching a pattern. */
  ghost function Matching(s: Store, pattern: Doc): set<Doc> {
    set d | d in s.text.Keys && Matches(d, pattern)
  }

  /** The documents a get reports: every stored document for the empty
      pattern, otherwise the stored documents matching it. */
  ghost function Answer(s: Store, pattern: Doc): set<Doc> {
    if |pattern| == 0 then s.text.Keys else Matching(s, pattern)
  }

  // ---------------------------------------------------------------------
  // Output order

  /** `ds` lists exactly the documents `S`, in strictly ascending counter
      order. */
  ghost predicate Lists(ds: seq<Doc>, S: set<Doc>, order: map<Doc, int>) {
    && (forall d :: d in ds <==> d in S)
    && S <= order.Keys
    && (forall i, j :: 0 <= i < j < |ds| ==> order[ds[i]] < order[ds[j]])
  }

  /** The stored texts of the listed documents, in list order. */
  function Texts(ds: seq<Doc>, text: map<Doc, string>): (out: seq<string>)
    requires forall d :: d in ds ==> d in text
    ensures |out| == |ds|
    ensures forall i :: 0 <= i < |ds| ==> out[i] == text[ds[i]]
  {
    if ds == [] then [] else [text[ds[0]]] + Texts(ds[1..], text)
  }

  /** `out` is what a get of the documents `S` prints: their stored texts,
      ordered by ascending insertion counter. */
  ghost predicate Reports(out: seq<string>, s: Store, S: set<Doc>) {
    exists ds :: Lists(ds, S, s.order) && S <= s.text.Keys && out == Texts(ds, s.text)
  }

  /** A document with the least counter among the non-empty set `S`. */
  method MinByOrder(S: set<Doc>, order: map<Doc, int>) returns (m: Doc)
    requires S != {} && S <= order.Keys
    ensures m in S
    ensures forall x :: x in S ==> order[m] <= order[x]
  {
    m :| m in S;
    var todo := S - {m};
    while todo != {}
      invariant todo <= S && m in S
      invariant forall x :: x in S - todo ==> order[m] <= order[x]
      decreases todo
    {
      var x :| x in todo;
      if order[x] < order[m] {
        m := x;
      }
      todo := todo - {x};
    }
  }

  /** Sorts the documents `S` by ascending counter (the counters being
      distinct), taking the least remaining one each time. */
  method SortByOrder(S: set<Doc>, order: map<Doc, int>) returns (ds: seq<Doc>)
    requires S <= order.Keys
    requires forall d, e :: d in S && e in S && order[d] == order[e] ==> d == e
    ensures Lists(ds, S, order)
  {
    ds := [];
    var rest := S;
    while rest != {}
      invariant rest <= S
      invariant forall i :: 0 <= i < |ds| ==> ds[i] in S
      invariant forall d :: d in ds <==> d in S - rest
      invariant forall i, j :: 0 <= i < j < |ds| ==> order[ds[i]] < order[ds[j]]
      invariant forall i, x :: 0 <= i < |ds| && x in rest ==> order[ds[i]] < order[x]
      decreases rest
    {
      var m := MinByOrder(rest, order);
      ds := ds + [m];
      rest := rest - {m};
    }
  }

  /** The first document of a counter-ordered list has the least counter. */
  lemma HeadIsLeast(a: seq<Doc>, S: set<Doc>, order: map<Doc, int>)
    requires Lists(a, S, order) && a != []
    ensures a[0] in S
    ensures forall x :: x in S ==> order[a[0]] <= order[x]
    ensures forall x :: x in S && x != a[0] ==> order[a[0]] < order[x]
  {
  }

  /** Dropping the first document lists the rest of the set. */
  lemma TailLists(a: seq<Doc>, S: set<Doc>, order: map<Doc, int>)
    requires Lists(a, S, order) && a != []
    ensures Lists(a[1..], S - {a[0]}, order)
  {
  }

  /** A list is empty exactly when the set it lists is. */
  lemma ListsEmpty(ds: seq<Doc>, S: set<Doc>, order: map<Doc, int>)
    requires Lists(ds, S, order)
    ensures ds == [] <==> S == {}
  {
    if ds != [] {
      assert ds[0] in S;
    } else {
      assert forall x :: x in S ==> x in ds;
    }
  }

  /** The printed order does not depend on how the result set happens to be
      iterated: two lists of the same documents in ascending counter order
      are the same list. */
  lemma {:induction false} ListsUnique(a: seq<Doc>, b: seq<Doc>, S: set<Doc>, order: map<Doc, int>)
    requires Lists(a, S, order) && Lists(b, S, order)
    ensures a == b
    decreases |a|
  {
    ListsEmpty(a, S, order);
    ListsEmpty(b, S, order);
    if a != [] {
      HeadIsLeast(a, S, order);
      HeadIsLeast(b, S, order);
      assert a[0] == b[0];
      TailLists(a, S, order);
      TailLists(b, S, order);
      ListsUnique(a[1..], b[1..], S - {a[0]}, order);
      assert a == [a[0]] + a[1..];
      assert b == [b[0]] + b[1..];
    }
  }

  // ---------------------------------------------------------------------
  // Commands

  /** add: the document gets the next counter (later than every other stored
      document's) and this text, and is indexed. A document equal to a stored
      one stays stored once, with the new text and counter. */
  function Add(s: Store, arg: string, doc: Doc): (s': Store)
    requires Valid(s)
    ensures Valid(s')
    ensures s'.text.Keys == s.text.Keys + {doc}
    ensures s'.text[doc] == arg
    ensures forall e :: e in s'.order && e != doc ==>
              e in s.text && s'.text[e] == s.text[e] && s'.order[e] == s.order[e] < s'.order[doc]
  {
    var s' := Store(AddEntry(s.trie, doc), s.text[doc := arg], s.order[doc := s.count + 1], s.count + 1);
    AddKeepsValid(s, s', doc);
    s'
  }

  lemma AddKeepsValid(s: Store, s': Store, doc: Doc)
    requires Valid(s)
    requires s' == Store(AddEntry(s.trie, doc), s'.text, s.order[doc := s.count + 1], s.count + 1)
    requires s'.text.Keys == s.text.Keys + {doc}
    ensures Valid(s')
  {
    AddEntryIndexes(s.trie, s.text.Keys, doc);
    forall d | d in s'.order
      ensures 0 < s'.order[d] <= s'.count
    {
      if d != doc {
        assert s'.order[d] == s.order[d];
      }
    }
  }

  /** get: prints the stored text of every reported document in ascending
      insertion order; the empty pattern reports every stored document,
      any other pattern the stored documents matching it, and an empty
      report prints nothing. */
  method Get(s: Store, pattern: Doc) returns (out: seq<string>)
    requires Valid(s)
    ensures Reports(out, s, Answer(s, pattern))
    ensures |out| == |Answer(s, pattern)|
    ensures Answer(s, pattern) == {} ==> out == []
  {
    var found: set<Doc>;
    if |pattern| == 0 {
      found := s.text.Keys;
    } else {
      found := QueryNode(s.trie, pattern);
      QueryExact(s.trie, s.text.Keys, pattern);
    }
    assert found == Answer(s, pattern);
    var ds: seq<Doc> := [];
    out := [];
    if found != {} {
      ds := SortByOrder(found, s.order);
      out := Texts(ds, s.text);
    }
    assert Lists(ds, found, s.order);
    ListedCount(ds, found, s.order);
  }

  /** A list of distinct documents is as long as the set it lists. */
  lemma {:induction false} ListedCount(ds: seq<Doc>, S: set<Doc>, order: map<Doc, int>)
    requires Lists(ds, S, order)
    ensures |ds| == |S|
    decreases |ds|
  {
    if ds != [] {
      var S' := S - {ds[0]};
      forall d | d in ds[1..] ensures d in S' {
        var i :| 1 <= i < |ds| && ds[i] == d;
      }
      forall d | d in S' ensures d in ds[1..] {
        var i :| 0 <= i < |ds| && ds[i] == d;
        assert i != 0;
      }
      ListedCount(ds[1..], S', order);
    } else {
      ListsEmpty(ds, S, order);
    }
  }

  /** delete: removes every stored document matching the pattern from the
      index and from both maps, one at a time, and keeps every other stored
      document indexed with its text and counter. The empty pattern matches
      nothing, so it deletes nothing. */
  method Delete(s: Store, pattern: Doc) returns (s': Store)
    requires Valid(s)
    ensures Valid(s')
    ensures s'.text == s.text - Matching(s, pattern)
    ensures s'.order == s.order - Matching(s, pattern)
    ensures s'.count == s.count
    ensures forall d :: d in s'.text ==> !Matches(d, pattern)
    ensures |pattern| == 0 ==> s' == s
  {
    var doomed := QueryNode(s.trie, pattern);
    QueryExact(s.trie, s.text.Keys, pattern);
    s' := RemoveAll(s, doomed);
  }

  /** Unindexes the stored documents `doomed` one at a time and takes them
      out of both maps. */
  method RemoveAll(s: Store, doomed: set<Doc>) returns (s': Store)
    requires Valid(s) && doomed <= s.text.Keys
    ensures Valid(s')
    ensures s'.text == s.text - doomed && s'.order == s.order - doomed
    ensures s'.count == s.count
    ensures doomed == {} ==> s' == s
  {
    var trie, text, order := s.trie, s.text, s.order;
    var todo := doomed;
    ghost var gone: set<Doc> := {};
    while todo != {}
      invariant gone + todo == doomed && gone !! todo
      invariant text == s.text - gone
      invariant order == s.order - gone
      invariant todo <= text.Keys
      invariant Indexes(trie, text.Keys)
      invariant gone == {} ==> trie == s.trie
      decreases todo
    {
      var d :| d in todo;
      RemoveEntryIndexes(trie, text.Keys, d);
      trie := RemoveEntry(trie, d);
      order := order - {d};
      text := text - {d};
      MinusMore(s.text, gone, d);
      MinusMore(s.order, gone, d);
      gone := gone + {d};
      todo := todo - {d};
    }
    s' := Store(trie, text, order, s.count);
    RemainderValid(s, s', gone);
  }

  /** Taking one more document out of a map. */
  lemma MinusMore<V>(m: map<Doc, V>, X: set<Doc>, d: Doc)
    ensures (m - X) - {d} == m - (X + {d})
  {
  }

  /** Taking documents out of a valid store, with the index following, keeps
      it valid. */
  lemma RemainderValid(s: Store, s': Store, gone: set<Doc>)
    requires Valid(s)
    requires s'.text == s.text - gone && s'.order == s.order - gone && s'.count == s.count
    requires Indexes(s'.trie, s'.text.Keys)
    ensures Valid(s')
  {
    assert s'.text.Keys == s.text.Keys - gone;
    assert s'.order.Keys == s.order.Keys - gone;
  }

  /** One command: add, get or delete; any other command word does nothing. */
  method Execute(s: Store, cmd: string, arg: string, doc: Doc) returns (s': Store, out: seq<string>)
    requires Valid(s)
    ensures Valid(s')
    ensures cmd == "add" ==> s' == Add(s, arg, doc) && out == []
    ensures cmd == "get" ==> s' == s && Reports(out, s, Answer(s, doc))
    ensures cmd == "delete" ==>
              && s'.text == s.text - Matching(s, doc)
              && s'.order == s.order - Matching(s, doc)
              && s'.count == s.count
              && (forall d :: d in s'.text ==> !Matches(d, doc))
              && out == []
    ensures cmd != "add" && cmd != "get" && cmd != "delete" ==> s' == s && out == []
  {
    s', out := s, [];
    if cmd == "add" {
      s' := Add(s, arg, doc);
    } else if cmd == "get" {
      out := Get(s, doc);
    } else if cmd == "delete" {
      s' := Delete(s, doc);
    }
  }
}

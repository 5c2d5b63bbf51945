/**
  Documents and collections of the document database, as the two controllers
  use them: `findById`, `find()` in storage order, and `save()`.
 */
module Documents {

  /** Document ids. A stored ObjectId and its string form are one value here. */
  type Id = string

  datatype Option<T> = None | Some(value: T)

  /** A document as the store returns it: its `_id` and its fields. */
  datatype Doc<T> = Doc(id: Id, data: T)

  /** No value occurs twice. */
  ghost predicate Distinct(s: seq<Id>)
  {
    forall i, j :: 0 <= i < j < |s| ==> s[i] != s[j]
  }

  /** `a` is `b` with some elements dropped and the rest kept in their order. */
  predicate IsSubsequence<T(==)>(a: seq<T>, b: seq<T>)
    decreases |b|
  {
    if a == [] then true
    else if b == [] then false
    else if a[0] == b[0] then IsSubsequence(a[1..], b[1..])
    else IsSubsequence(a, b[1..])
  }

  /** A subsequence of `b[1..]` that does not start with `b[0]` is a subsequence of `b`. */
  lemma SubsequenceSkipHead<T>(a: seq<T>, b: seq<T>)
    requires b != [] && IsSubsequence(a, b[1..])
    requires a == [] || a[0] != b[0]
    ensures IsSubsequence(a, b)
  {
  }

  /** A subsequence of `b[1..]` preceded by `b[0]` is a subsequence of `b`. */
  lemma SubsequenceKeepHead<T>(a: seq<T>, b: seq<T>)
    requires b != [] && IsSubsequence(a, b[1..])
    ensures IsSubsequence([b[0]] + a, b)
  {
  }

  /** The ids of a sequence of documents, in the same order. */
  function IdsOf<T>(docs: seq<Doc<T>>): (r: seq<Id>)
    ensures |r| == |docs|
    ensures forall i :: 0 <= i < |docs| ==> r[i] == docs[i].id
  {
    seq(|docs|, i requires 0 <= i < |docs| => docs[i].id)
  }

  lemma IdsOfCons<T>(d: Doc<T>, docs: seq<Doc<T>>)
    ensures IdsOf([d] + docs) == [d.id] + IdsOf(docs)
  {
  }

  /**
    A collection: the documents by id, and the order in which `find()`
    returns them (insertion order).
   */
  datatype Table<T> = Table(rows: map<Id, T>, order: seq<Id>)
  {
    /** Every stored id occurs in the storage order exactly once, and nothing else does. */
    ghost predicate Valid()
    {
      Distinct(order) && forall k :: k in rows <==> k in order
    }

    /** `findById`: the stored document, or nothing. */
    function Find(id: Id): (r: Option<T>)
      ensures r.Some? <==> id in rows
      ensures r.Some? ==> r.value == rows[id]
    {
      if id in rows then Some(rows[id]) else None
    }

    /** `find()` with no filter: every document once, in storage order. */
    function All(): (r: seq<Doc<T>>)
      requires Valid()
      ensures |r| == |order|
      ensures forall i :: 0 <= i < |r| ==> r[i] == Doc(order[i], rows[order[i]])
      ensures IdsOf(r) == order
    {
      seq(|order|, i requires 0 <= i < |order| => Doc(order[i], rows[order[i]]))
    }

    /**
      `save()`: a document already stored is replaced where it stands; a new
      one is appended to the storage order.
     */
    function Save(id: Id, v: T): (r: Table<T>)
      requires Valid()
      ensures r.Valid()
      ensures r.rows == rows[id := v]
      ensures r.order == if id in rows then order else order + [id]
    {
      var r := Table(rows[id := v], if id in rows then order else order + [id]);
      assert id !in rows ==> forall i :: 0 <= i < |order| ==> r.order[i] == order[i] != id;
      r
    }

    /** Replacing a stored document changes `find()` at that document's place only. */
    lemma AllAfterUpdate(id: Id, v: T) returns (i: nat)
      requires Valid() && id in rows
      ensures i < |order| && order[i] == id
      ensures Save(id, v).All() == All()[i := Doc(id, v)]
    {
      i :| 0 <= i < |order| && order[i] == id;
      var t := Save(id, v);
      assert t.order == order;
      var before, after := All(), t.All();
      forall j | 0 <= j < |after|
        ensures after[j] == before[i := Doc(id, v)][j]
      {
        assert after[j] == Doc(order[j], t.rows[order[j]]);
        assert before[j] == Doc(order[j], rows[order[j]]);
        assert j != i ==> order[j] != id;
      }
    }

    /** Saving a new document appends it to `find()`. */
    lemma AllAfterInsert(id: Id, v: T)
      requires Valid() && id !in rows
      ensures Save(id, v).All() == All() + [Doc(id, v)]
    {
    }
  }
}

/** The document store the handlers and triggers share: five collections of
    documents keyed by id (users by handle), queries that filter, order by
    `createdAt` descending and list, and write batches staged document by
    document and committed together. */
module Store {
  import opened Records
  import Invariants

  class Db {
    var users: map<Handle, User>
    var screams: map<Id, Scream>
    var comments: map<Id, Comment>
    var likes: map<Id, Like>
    var notifications: map<Id, Notification>

    constructor ()
      ensures users == map[] && screams == map[] && comments == map[]
      ensures likes == map[] && notifications == map[]
    {
      users, screams, comments, likes, notifications := map[], map[], map[], map[], map[];
    }

    /** An id the store may hand out for a new document: no document has it
        and no document refers to it. */
    ghost predicate Unused(id: Id)
      reads this
    {
      && id !in screams && id !in comments && id !in likes && id !in notifications
      && CommentsOn(comments, id) == {} && LikesOn(likes, id) == {}
      && NotificationsOn(notifications, id) == {}
    }

    ghost predicate Consistent()
      reads this
    {
      Invariants.Consistent(screams, comments, likes, notifications)
    }
  }

  /** Document `k` of `where` is at least as new as every other one. */
  ghost predicate Newest<T>(tbl: map<Id, T>, where: set<Id>, createdAt: T -> Timestamp, k: Id)
    requires where <= tbl.Keys
  {
    k in where && forall j :: j in where ==> createdAt(tbl[j]) <= createdAt(tbl[k])
  }

  /** Every non-empty set of documents has a newest one. */
  lemma {:induction false} NewestExists<T>(tbl: map<Id, T>, where: set<Id>, createdAt: T -> Timestamp)
    requires where != {} && where <= tbl.Keys
    ensures exists k :: Newest(tbl, where, createdAt, k)
  {
    var x :| x in where;
    if where != {x} {
      NewestExists(tbl, where - {x}, createdAt);
      var m :| Newest(tbl, where - {x}, createdAt, m);
      if createdAt(tbl[x]) <= createdAt(tbl[m]) {
        assert Newest(tbl, where, createdAt, m);
      } else {
        assert Newest(tbl, where, createdAt, x);
      }
    } else {
      assert Newest(tbl, where, createdAt, x);
    }
  }

  /** Each document is at least as new as every one after it. */
  ghost predicate NewestFirst<T>(r: seq<Doc<T>>, createdAt: T -> Timestamp) {
    forall i, j :: 0 <= i < j < |r| ==> createdAt(r[j].data) <= createdAt(r[i].data)
  }

  lemma PrependNewest<T>(d: Doc<T>, rest: seq<Doc<T>>, createdAt: T -> Timestamp)
    requires NewestFirst(rest, createdAt)
    requires forall i :: 0 <= i < |rest| ==> createdAt(rest[i].data) <= createdAt(d.data)
    ensures NewestFirst([d] + rest, createdAt)
  {
    var r := [d] + rest;
    forall i, j | 0 <= i < j < |r| ensures createdAt(r[j].data) <= createdAt(r[i].data) {
      assert r[j] == rest[j - 1];
      if i > 0 {
        assert r[i] == rest[i - 1];
      }
    }
  }

  /** No document appears twice. */
  ghost predicate DistinctIds<T>(r: seq<Doc<T>>) {
    forall i, j :: 0 <= i < j < |r| ==> r[i].id != r[j].id
  }

  /** `r` answers a query on `tbl` that matches `where`: every matching
      document exactly once, each with its id and data, and nothing else. */
  ghost predicate Answers<T>(r: seq<Doc<T>>, tbl: map<Id, T>, where: set<Id>)
    requires where <= tbl.Keys
  {
    && |r| == |where|
    && (forall i :: 0 <= i < |r| ==> r[i].id in where && r[i].data == tbl[r[i].id])
    && (forall k :: k in where ==> Doc(k, tbl[k]) in r)
    && DistinctIds(r)
  }

  /** One matching document followed by an answer for the others answers
      the whole query. */
  lemma PrependAnswer<T>(tbl: map<Id, T>, where: set<Id>, k: Id, rest: seq<Doc<T>>)
    requires where <= tbl.Keys && k in where
    requires Answers(rest, tbl, where - {k})
    ensures Answers([Doc(k, tbl[k])] + rest, tbl, where)
  {
    var r := [Doc(k, tbl[k])] + rest;
    assert |where - {k}| == |where| - 1;
    assert forall i :: 0 < i < |r| ==> r[i] == rest[i - 1];
    forall j | j in where ensures Doc(j, tbl[j]) in r {
      if j != k {
        assert Doc(j, tbl[j]) in rest;
      }
    }
  }

  /** `where(...).orderBy("createdAt", "desc").get()`: every matching document
      exactly once, the newest first (documents created at the same moment
      come in an order the model leaves open). */
  ghost function OrderByCreatedDesc<T>(tbl: map<Id, T>, where: set<Id>, createdAt: T -> Timestamp): (r: seq<Doc<T>>)
    requires where <= tbl.Keys
    ensures Answers(r, tbl, where)
    ensures NewestFirst(r, createdAt)
    decreases where
  {
    if where == {} then []
    else
      NewestExists(tbl, where, createdAt);
      var k :| Newest(tbl, where, createdAt, k);
      var rest := OrderByCreatedDesc(tbl, where - {k}, createdAt);
      PrependNewest(Doc(k, tbl[k]), rest, createdAt);
      PrependAnswer(tbl, where, k, rest);
      [Doc(k, tbl[k])] + rest
  }

  /** The data of each document, in order: `forEach(doc => push(doc.data()))`. */
  ghost function Datas<T>(docs: seq<Doc<T>>): (r: seq<T>)
    ensures |r| == |docs|
    ensures forall i :: 0 <= i < |r| ==> r[i] == docs[i].data
  {
    seq(|docs|, i requires 0 <= i < |docs| => docs[i].data)
  }

  /** Dropping the ids of a query's answer keeps every matching record and
      only matching ones. */
  lemma DatasOfAnswer<T>(tbl: map<Id, T>, where: set<Id>, docs: seq<Doc<T>>)
    requires where <= tbl.Keys && Answers(docs, tbl, where)
    ensures forall i :: 0 <= i < |docs| ==> docs[i].id in where && Datas(docs)[i] == tbl[docs[i].id]
    ensures forall i :: 0 <= i < |docs| ==> Datas(docs)[i] in tbl.Values
    ensures forall k :: k in where ==> tbl[k] in Datas(docs)
  {
    var r := Datas(docs);
    forall i | 0 <= i < |docs| ensures r[i] in tbl.Values {
      assert docs[i].id in tbl;
    }
    forall k | k in where ensures tbl[k] in r {
      var i :| 0 <= i < |docs| && docs[i] == Doc(k, tbl[k]);
      assert r[i] == tbl[k];
    }
  }

  /** Dropping the ids keeps the newest-first order. */
  lemma DatasNewestFirst<T>(docs: seq<Doc<T>>, createdAt: T -> Timestamp)
    requires NewestFirst(docs, createdAt)
    ensures forall i, j :: 0 <= i < j < |docs| ==> createdAt(Datas(docs)[j]) <= createdAt(Datas(docs)[i])
  {
  }

  /** `where(...).get()` without `orderBy`: every matching document exactly
      once, in an order the model leaves open. */
  ghost function ListDocs<T>(tbl: map<Id, T>, where: set<Id>): (r: seq<Doc<T>>)
    requires where <= tbl.Keys
    ensures Answers(r, tbl, where)
    decreases where
  {
    if where == {} then []
    else
      var k :| k in where;
      var rest := ListDocs(tbl, where - {k});
      PrependAnswer(tbl, where, k, rest);
      [Doc(k, tbl[k])] + rest
  }

  /** `forEach(doc => batch.update(doc, ...))`: the staged image of a
      collection once an update `f` is staged for each of `ids` (all of which
      the query found, so the commit cannot fail on them). */
  method BatchUpdate<T>(table: map<Id, T>, ids: set<Id>, f: T -> T) returns (staged: map<Id, T>)
    requires ids <= table.Keys
    ensures staged.Keys == table.Keys
    ensures forall k :: k in table ==> staged[k] == if k in ids then f(table[k]) else table[k]
  {
    staged := table;
    var todo := ids;
    while todo != {}
      invariant todo <= ids
      invariant staged.Keys == table.Keys
      invariant forall k :: k in table ==> staged[k] == if k in ids - todo then f(table[k]) else table[k]
      decreases todo
    {
      var id :| id in todo;
      staged := staged[id := f(table[id])];
      todo := todo - {id};
    }
  }

  /** `forEach(doc => batch.delete(doc))`: the staged image of a collection
      once a delete is staged for each of `doomed`. */
  method BatchDelete<T>(table: map<Id, T>, doomed: set<Id>) returns (staged: map<Id, T>)
    ensures staged.Keys == table.Keys - doomed
    ensures forall k :: k in staged ==> staged[k] == table[k]
  {
    staged := table;
    var todo := doomed;
    while todo != {}
      invariant todo <= doomed
      invariant staged.Keys == table.Keys - (doomed - todo)
      invariant forall k :: k in staged ==> staged[k] == table[k]
      decreases todo
    {
      var id :| id in todo;
      staged := staged - {id};
      todo := todo - {id};
    }
  }
}

/**
 * Callers of the repository, showing what its contracts let a client
 * conclude about sequences of operations.
 */
module Scenarios {
  import opened Articles
  import opened Indices
  import opened Repositories

  /** A second article with an id that is still present is refused. */
  method InsertTwice(r: Repository, a: Article, b: Article) returns (first: bool, second: bool)
    requires 0 <= a.id < Capacity && b.id == a.id
    modifies r
    ensures first <==> a.id !in old(r.byArticleId)
    ensures !second
    ensures a.id in r.byArticleId && r.byArticleId[a.id] == if first then a else old(r.byArticleId)[a.id]
  {
    first := r.InsertArticle(a);
    second := r.InsertArticle(b);
  }

  /** Removing the same id twice succeeds at most once, and the second call changes nothing. */
  method RemoveTwice(r: Repository, id: int) returns (first: bool, second: bool)
    requires 0 <= id < Capacity && r.Valid()
    modifies r
    ensures first <==> id in old(r.byArticleId)
    ensures !second
    ensures id !in r.byArticleId && r.Valid()
  {
    if id in r.byArticleId {
      Consistency.RemovePreserves(r.byArticleId, r.byAuthor, r.byKeyword, id);
    }
    first := r.RemoveArticle(id);
    ghost var between := (r.byArticleId, r.byAuthor, r.byKeyword);
    second := r.RemoveArticle(id);
    assert (r.byArticleId, r.byAuthor, r.byKeyword) == between;
  }

  /** Removing an article right after a successful insertion restores all three indices. */
  method InsertRemoveRoundTrip(r: Repository, a: Article) returns (inserted: bool, removed: bool)
    requires 0 <= a.id < Capacity && r.Valid() && WellFormed(a)
    modifies r
    ensures inserted <==> a.id !in old(r.byArticleId)
    ensures removed
    ensures inserted ==> r.byArticleId == old(r.byArticleId) && r.byAuthor == old(r.byAuthor) && r.byKeyword == old(r.byKeyword)
    ensures r.Valid()
  {
    if a.id !in r.byArticleId {
      Consistency.InsertThenRemove(r.byArticleId, r.byAuthor, r.byKeyword, a);
    }
    inserted := r.InsertArticle(a);
    if !inserted {
      Consistency.RemovePreserves(r.byArticleId, r.byAuthor, r.byKeyword, a.id);
    }
    removed := r.RemoveArticle(a.id);
  }

  /**
   * Two articles by the same author are found in insertion order; after
   * the first is removed only the second is found, and the repository
   * still validates.
   */
  method AuthorScenario() returns (a1: Article, a2: Article, before: seq<Article>, after: seq<Article>, valid: bool)
    ensures before == [a1, a2]
    ensures after == [a2]
    ensures valid
  {
    var r;
    r, a1, a2 := TwoArticlesByAlice();
    LookupSingle(r.byAuthor, "alice");
    before := r.FindArticleByAuthor(["alice"]);
    var ok := r.RemoveArticle(1);
    assert FirstIndex([a1, a2], a1) == 0;
    assert r.byAuthor["alice"] == [a2];
    LookupSingle(r.byAuthor, "alice");
    after := r.FindArticleByAuthor(["alice"]);
    valid := r.Validate();
  }

  /** A new repository holding two articles by "alice", inserted in order. */
  method TwoArticlesByAlice() returns (r: Repository, a1: Article, a2: Article)
    ensures fresh(r) && r.Valid()
    ensures r.byArticleId == map[1 := a1, 2 := a2]
    ensures a1.authors == ["alice"] && a2.authors == ["alice"]
    ensures a1.keywords == ["ml"] && a2.keywords == ["db"]
    ensures "alice" in r.byAuthor && r.byAuthor["alice"] == [a1, a2]
  {
    r, a1 := OneArticleByAlice();
    a2 := new Article(2, ["alice"], ["db"]);
    assert WellFormed(a2);
    var ok := r.InsertArticle(a2);
    AppendSingleKey(map["alice" := [a1]], "alice", a2);
  }

  /** A new repository holding one article by "alice". */
  method OneArticleByAlice() returns (r: Repository, a1: Article)
    ensures fresh(r) && r.Valid()
    ensures r.byArticleId == map[1 := a1]
    ensures a1.id == 1 && a1.authors == ["alice"] && a1.keywords == ["ml"]
    ensures r.byAuthor == map["alice" := [a1]]
  {
    r := new Repository(Capacity);
    a1 := new Article(1, ["alice"], ["ml"]);
    assert WellFormed(a1);
    var ok := r.InsertArticle(a1);
    AppendSingleKey(map[], "alice", a1);
    assert ListAt(map[], "alice") + [a1] == [a1];
  }
}

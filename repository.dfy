/**
 * The article repository: an id index and two key indices (by author and
 * by keyword) over the same articles, updated in place by insertion and
 * removal and read by the two lookups and the validation routine. The
 * model is sequential: the per-key locks of the source are left out.
 */
module Repositories {
  import opened Articles
  import opened Indices
  import opened Consistency

  /** Number of slots in the per-id lock array; ids must fall below it. */
  const Capacity := 40000

  class Repository {
    var byAuthor: Index
    var byKeyword: Index
    var byArticleId: map<int, Article>

    /** The consistency invariant that insertion and removal preserve. */
    ghost predicate Valid()
      reads this
    {
      Invariant(byArticleId, byAuthor, byKeyword)
    }

    /** A new, empty repository; the capacity argument is ignored, as in the source. */
    constructor (nkeys: int)
      ensures byAuthor == map[] && byKeyword == map[] && byArticleId == map[]
      ensures Valid()
    {
      byAuthor := map[];
      byKeyword := map[];
      byArticleId := map[];
      KeysMatchDistinct(map[]);
    }

    /**
     * Fails, changing nothing, when the id is taken; otherwise appends `a`
     * to the list of each of its authors, then of each of its keywords, and
     * finally files it under its id.
     */
    method InsertArticle(a: Article) returns (ok: bool)
      requires 0 <= a.id < Capacity
      modifies this
      ensures ok <==> a.id !in old(byArticleId)
      ensures !ok ==> byArticleId == old(byArticleId) && byAuthor == old(byAuthor) && byKeyword == old(byKeyword)
      ensures ok ==> byArticleId == old(byArticleId)[a.id := a]
      ensures ok ==> byAuthor == AppendEach(old(byAuthor), a.authors, a)
      ensures ok ==> byKeyword == AppendEach(old(byKeyword), a.keywords, a)
      ensures old(Valid()) && WellFormed(a) ==> Valid()
    {
      if a.id in byArticleId {
        return false;
      }

      byAuthor := AppendToLists(byAuthor, a.authors, a);
      byKeyword := AppendToLists(byKeyword, a.keywords, a);
      byArticleId := byArticleId[a.id := a];
      ok := true;
      if old(Valid()) && WellFormed(a) {
        InsertPreserves(old(byArticleId), old(byAuthor), old(byKeyword), a);
      }
    }

    /**
     * Fails, changing nothing, when no article has the id; otherwise drops
     * it from the id index, then removes its first occurrence from the list
     * of each of its keywords and then of each of its authors, deleting a
     * key whose list becomes empty.
     */
    method RemoveArticle(id: int) returns (ok: bool)
      requires 0 <= id < Capacity
      requires id in byArticleId ==>
        && Removable(byKeyword, byArticleId[id].keywords, byArticleId[id])
        && Removable(byAuthor, byArticleId[id].authors, byArticleId[id])
      modifies this
      ensures ok <==> id in old(byArticleId)
      ensures !ok ==> byArticleId == old(byArticleId) && byAuthor == old(byAuthor) && byKeyword == old(byKeyword)
      ensures ok ==> byArticleId == old(byArticleId) - {id}
      ensures ok ==> byKeyword == RemoveEach(old(byKeyword), old(byArticleId)[id].keywords, old(byArticleId)[id])
      ensures ok ==> byAuthor == RemoveEach(old(byAuthor), old(byArticleId)[id].authors, old(byArticleId)[id])
      ensures old(Valid()) ==> Valid()
      ensures old(Valid()) && ok ==>
        && (forall k | k in byAuthor :: old(byArticleId)[id] !in byAuthor[k])
        && (forall k | k in byKeyword :: old(byArticleId)[id] !in byKeyword[k])
    {
      if id !in byArticleId {
        return false;
      }
      var a := byArticleId[id];
      byArticleId := byArticleId - {id};

      byKeyword := RemoveFromLists(byKeyword, a.keywords, a);
      byAuthor := RemoveFromLists(byAuthor, a.authors, a);
      ok := true;
      if old(Valid()) {
        RemovePreserves(old(byArticleId), old(byAuthor), old(byKeyword), id);
      }
    }

    /** The articles of the given authors, author by author, in list order. */
    method FindArticleByAuthor(authors: seq<string>) returns (res: seq<Article>)
      ensures res == Lookup(byAuthor, authors)
    {
      res := Collect(byAuthor, authors);
    }

    /** The articles of the given keywords, keyword by keyword, in list order. */
    method FindArticleByKeyword(keywords: seq<string>) returns (res: seq<Article>)
      ensures res == Lookup(byKeyword, keywords)
    {
      res := Collect(byKeyword, keywords);
    }

    /**
     * Checks that every stored article is filed under all its authors and
     * keywords, that no list holds an article other than the one stored
     * under its id, and that no id is stored twice.
     */
    method Validate() returns (ok: bool)
      ensures ok <==> Consistent(byArticleId, byAuthor, byKeyword)
      ensures Valid() ==> ok
    {
      if Valid() {
        InvariantConsistent(byArticleId, byAuthor, byKeyword);
      }
      var articleCount: nat, articleIds: set<int>;
      ok, articleCount, articleIds := CheckArticlesIndexed(byArticleId, byAuthor, byKeyword);
      if !ok {
        return false;
      }
      ok := CheckNoStaleEntries(byAuthor, byArticleId);
      if !ok {
        return false;
      }
      ok := CheckNoStaleEntries(byKeyword, byArticleId);
      if !ok {
        return false;
      }
      ok := articleCount == |articleIds|;
    }
  }
}

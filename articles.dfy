/**
 * The article record stored by the repository. An article is created by the
 * caller and never changed afterwards; the indices store and compare articles
 * by reference, so it is a class whose fields are constants and whose
 * equality is object identity.
 */
module Articles {

  class Article {
    const id: int
    const authors: seq<string>
    const keywords: seq<string>

    constructor (id: int, authors: seq<string>, keywords: seq<string>)
      ensures this.id == id && this.authors == authors && this.keywords == keywords
    {
      this.id := id;
      this.authors := authors;
      this.keywords := keywords;
    }
  }

  /** No element occurs twice in `s`. */
  predicate Distinct<T(==)>(s: seq<T>)
  {
    forall i, j :: 0 <= i < j < |s| ==> s[i] != s[j]
  }

  /** The author and keyword lists of `a` are free of repetitions. */
  predicate WellFormed(a: Article)
  {
    Distinct(a.authors) && Distinct(a.keywords)
  }
}

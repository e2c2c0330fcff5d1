# Article repository index engine, modelled in Dafny

This project models the sequential behaviour of `Repository`, an in-memory
store of articles indexed three ways at once:

- `byArticleId`: article id → article;
- `byAuthor`: author name → ordered list of articles;
- `byKeyword`: keyword → ordered list of articles.

`insertArticle` refuses an id that is already stored; otherwise it appends
the article to the list of each of its authors and keywords (creating a
missing list) and then files it under its id. `removeArticle` refuses an id
that is not stored; otherwise it drops the id entry and then removes the
first reference-equal occurrence of the article from the list of each of
its keywords and authors, deleting a key whose list becomes empty.
`findArticleByAuthor` / `findArticleByKeyword` concatenate the lists of the
given keys in input order. `validate` checks that every stored article is
listed under all its authors and keywords, that every listed article is the
one stored under its id, and that as many distinct ids as entries are
stored.

Files:

- `articles.dfy` (module `Articles`): the article record, a class with
  constant fields so that equality is object identity, as in the source;
  `Distinct` and `WellFormed` (no repeated author or keyword).
- `indices.dfy` (module `Indices`): one key index as a `map<string,
  seq<Article>>`; the functions `AppendEach`, `RemoveEach`, `RemoveFirst`,
  `FirstIndex` and `Lookup` that specify what the loops compute, lemmas about
  them, and the loops themselves as methods proved against them.
- `consistency.dfy` (module `Consistency`): what `validate` checks
  (`Consistent`), the invariant insertion and removal keep (`Invariant`),
  the preservation lemmas, and the loops of `validate`.
- `repository.dfy` (module `Repositories`): the class `Repository` with the
  three index fields, updated in place by `InsertArticle` and
  `RemoveArticle`, read by the two finders and by `Validate`.
- `scenarios.dfy` (module `Scenarios`): client methods showing what the
  contracts give a caller over several calls.

The invariant proved to be preserved is `Invariant` = the three checks of
`validate` plus: every id-index entry is stored under its own id; stored
articles have no repeated author or keyword; no key list is empty, none
holds an article twice, and an article is only listed under keys it
declares. The constructor establishes it, `InsertArticle` (for a
well-formed article) and `RemoveArticle` keep it, and it implies that
`Validate` returns true. The three checks of `validate` alone are not kept
by the operations (see `ConsistentNotKeptByInsert`,
`ConsistentNotKeptByRemove`). Neither of their starting states arises
from an empty repository: the first stores an article under an id other
than its own, while insertion files every article under its own id
(`Repository.java:82`); the second lists an article under a key it does
not declare, while insertion lists it only under its own authors and
keywords (`Repository.java:44-80`). The states reached from an empty
repository by inserting only well-formed articles and removing satisfy
`Invariant`. Inserting an article with a repeated author or keyword lists
it twice under that key, which `Invariant` excludes
(`MalformedInsertBreaksInvariant`).

## Model

| member | source | states |
|---|---|---|
| `Indices.AppendEach` | Repository.java:44-80 | appending under a key sequence makes every key present, leaves every other key's list unchanged, and for distinct keys each key's list is its old list (empty if absent) followed by the article |
| `Indices.AppendEachCounts` | Repository.java:44-80 | for any key sequence, repetitions included, every key's list (empty when absent) gains one copy of the article per occurrence of the key |
| `Indices.AppendToLists` | Repository.java:44-80 | the append loop computes exactly `AppendEach` |
| `Indices.FirstIndex` | Repository.java:108-116 | the position found holds the article and no earlier position does |
| `Indices.FirstPosition` | Repository.java:108-116 | the scanning loop stops at the first reference-equal element, and runs off the end exactly when the article is absent |
| `Indices.RemoveFirst` | Repository.java:117 | removing at that position shortens the list by one, removes one occurrence of the article and nothing else from its multiset, and on a repetition-free list leaves no occurrence |
| `Indices.RemoveFirstKeepsOrder` | Repository.java:108-117 | the elements before the first occurrence keep their positions and those after it move down by one |
| `Indices.RemoveFirstKeepsOthers` | Repository.java:117 | every other article of the list is still in it |
| `Indices.RemoveEach` | Repository.java:99-151 | removal under a key sequence leaves other keys untouched; a listed key keeps its list minus the first occurrence, and is deleted exactly when that list is empty; an absent key stays absent |
| `Indices.RemoveFromList` | Repository.java:106-121 | one pass of the removal loop body: cuts the first occurrence out of the key's list and deletes the key exactly when the list empties, leaving every other key alone |
| `Indices.RemoveFromLists` | Repository.java:99-151 | the removal loop computes exactly `RemoveEach` |
| `Indices.AppendSingleKey` | Repository.java:44-60 | appending under one key extends that key's list (created if missing) and leaves every other key alone |
| `Indices.RemoveFirstAppended` | Repository.java:117 | removing the first occurrence of an article just appended to a list without it gives back the list |
| `Indices.AppendThenRemove` | Repository.java:44-151 | appending to the lists of distinct keys and then removing again restores an index with no empty list and no occurrence of the article |
| `Indices.LookupConcat` | Repository.java:156-178 | looking up two key sequences one after the other equals looking up their concatenation |
| `Indices.LookupSingle` | Repository.java:165-172 | one key yields its own list, or nothing when absent |
| `Indices.LookupMembership` | Repository.java:156-178 | an article is found exactly when some looked-up key that is present lists it |
| `Indices.Collect` | Repository.java:156-202 | the copying loops return the concatenation, in input order, of the lists of the given keys |
| `Indices.ContainsRef` | Repository.java:255-279 | true exactly when the key is present and its list holds the very article |
| `Indices.AllCurrent` | Repository.java:281-309 | true exactly when the key is present and every listed article is the one stored under its id |
| `Consistency.IdCount` | Repository.java:212-251 | there are never more distinct ids than id-index entries, and as many exactly when no two entries hold articles with the same id |
| `Consistency.KeysMatchDistinct` | Repository.java:82 | entries stored under their own ids always pass the count check |
| `Consistency.InsertIndexPreserves` | Repository.java:44-82 | appending an article with a fresh id to its distinct keys keeps one key index consistent with the id index |
| `Consistency.RemoveIndexPreserves` | Repository.java:97-151 | removing a stored article is in range for every key, keeps one key index consistent, and leaves the article in no list |
| `Consistency.InsertPreserves` | Repository.java:36-86 | a successful insertion of a well-formed article keeps the invariant |
| `Consistency.RemovePreserves` | Repository.java:88-154 | a successful removal keeps the invariant and leaves the removed article in no author or keyword list |
| `Consistency.InsertThenRemove` | Repository.java:36-154 | removing an article right after inserting it restores all three indices |
| `Consistency.ConsistentNotKeptByInsert` | Repository.java:36-86 | a state passing the three checks of `validate` can fail them after an insertion |
| `Consistency.ConsistentNotKeptByRemove` | Repository.java:88-154 | a state passing the three checks of `validate` can fail them after a removal |
| `Consistency.MalformedInsertBreaksInvariant` | Repository.java:44-61 | inserting an article whose author list repeats a name lists it twice under that name, so the invariant fails afterwards |
| `Consistency.CheckFiled` | Repository.java:223-229 | the loop over one article's authors (and likewise its keywords, lines 232-238) succeeds exactly when every given key lists the very article |
| `Consistency.CheckIndexed` | Repository.java:222-238 | the author loop followed by the keyword loop succeeds exactly when the article is listed under all its authors and all its keywords |
| `Consistency.CheckArticlesIndexed` | Repository.java:212-239 | the scan of the id index succeeds exactly when every stored article is listed under all its keys, and then has counted every entry and collected every id |
| `Consistency.CheckNoStaleEntries` | Repository.java:241-249 | the scan of a key index succeeds exactly when no list holds an article other than the one stored under its id |
| `Repositories.Repository.constructor` | Repository.java:25-34 | a new repository has three empty indices and satisfies the invariant |
| `Repositories.Repository.InsertArticle` | Repository.java:36-86 | fails and changes nothing when the id is stored; otherwise stores the article under its id and appends it under each author and keyword; keeps the invariant for a well-formed article |
| `Repositories.Repository.RemoveArticle` | Repository.java:88-154 | fails and changes nothing when the id is absent; otherwise drops the id and removes the article's first occurrence under each keyword and author; keeps the invariant and then leaves the article in no list |
| `Repositories.Repository.FindArticleByAuthor` | Repository.java:156-178 | returns the concatenation of the lists of the given authors, in input order, and changes nothing |
| `Repositories.Repository.FindArticleByKeyword` | Repository.java:180-202 | returns the concatenation of the lists of the given keywords, in input order, and changes nothing |
| `Repositories.Repository.Validate` | Repository.java:210-253 | true exactly when the three checks hold; always true under the invariant |
| `Scenarios.InsertTwice` | Repository.java:39-42 | a second insertion with a stored id fails and the first article stays stored |
| `Scenarios.RemoveTwice` | Repository.java:88-97 | removing one id twice succeeds at most once, and the second call fails |
| `Scenarios.InsertRemoveRoundTrip` | Repository.java:36-154 | inserting a fresh article and removing it again leaves the repository as it was |
| `Scenarios.AuthorScenario` | Repository.java:36-202 | two articles by one author are found in insertion order; after removing the first only the second is found, and the repository validates |

## Left out

- Locking: the per-id lock array, the per-author and per-keyword lock
  tables, every lock and unlock call, and the non-atomic lazy creation of
  author and keyword locks. The model is sequential, so the windows in
  which one index reflects an operation and another does not yet are not
  represented.
- The null-lock dereference in `removeArticle` for a keyword or author that
  was never inserted is not modelled, because the lock tables are left out;
  the model skips such a key, as the source does when the key has a lock
  but no list. Under the invariant the removed article is listed under all
  its keys, so the case does not arise.
- The container classes `HashTable`, `LinkedList` and `Iterator` are not part
  of this model: they are replaced by Dafny `map` and `seq` with their
  standard meaning, and the hash-set of `validate` by a `set<int>`. The
  40000 capacity hints of the hash tables are dropped. Lists are values held
  by the maps; the source's in-place list mutation is visible only through
  the owning map, so nothing is lost sequentially.
- The iteration order of `validate` over the hash tables is unspecified in
  the model (a key is picked arbitrarily at each step); the result is a
  single boolean that does not depend on it.
- The source's `Article` class is not part of this model; `articles.dfy`
  stands in a class with constant fields (an `int` id and two lists of
  strings), so that equality is object identity.
- Repositories.Repository.RemoveArticle: requires (through `Removable`),
  when the id is stored, that the article's keywords are distinct, that its
  authors are distinct, and that every one of those keys that is present
  lists the article.
  This is a sufficient condition for the source's `ll.remove(pos)` to be in
  range; a repeated key, which the source handles by removing one
  occurrence per repetition (in range when the list holds enough
  occurrences), is not covered. The invariant implies the condition.
- Indices.RemoveEach: carries the same `Removable` requirement, so it does
  not describe removal under a repeated key.
- Indices.RemoveFromLists: carries the same `Removable` requirement as the
  function it is proved against.
- Repositories.Repository.InsertArticle: keeps the invariant only for an
  article with no repeated author or keyword; the source accepts such an
  article and lists it once per repetition.
- Ids are Java `int`; the model requires `0 <= id < 40000` (the size of the
  lock array), so no overflow arises, and counts are unbounded naturals.

/**
 * Cross-index consistency of the repository: what its validation routine
 * checks, and the stronger invariant that insertion and removal preserve.
 */
module Consistency {
  import opened Articles
  import opened Indices

  /** Which of an article's two key lists an index is built from. */
  datatype Side = ByAuthor | ByKeyword

  function KeysOf(a: Article, side: Side): seq<string>
  {
    match side
    case ByAuthor => a.authors
    case ByKeyword => a.keywords
  }

  /** `a` is listed, by reference, under every one of its keys in `m`. */
  ghost predicate Filed(a: Article, m: Index, side: Side)
  {
    forall k | k in KeysOf(a, side) :: k in m && a in m[k]
  }

  ghost predicate Indexed(a: Article, byAuthor: Index, byKeyword: Index)
  {
    Filed(a, byAuthor, ByAuthor) && Filed(a, byKeyword, ByKeyword)
  }

  /** Every article of the id index is filed under all its authors and keywords. */
  ghost predicate AllIndexed(byId: map<int, Article>, byAuthor: Index, byKeyword: Index)
  {
    forall k | k in byId :: Indexed(byId[k], byAuthor, byKeyword)
  }

  /** Every article in every list of `m` is the one the id index holds under its id. */
  ghost predicate NoStaleEntries(m: Index, byId: map<int, Article>)
  {
    forall key | key in m :: forall e | e in m[key] :: Current(e, byId)
  }

  /** The ids carried by the articles of the id index. */
  function IdSet(byId: map<int, Article>): set<int>
  {
    IdsOf(byId, byId.Keys)
  }

  /** The ids carried by the articles stored under the keys `ks`. */
  function IdsOf(byId: map<int, Article>, ks: set<int>): set<int>
  {
    set k | k in ks && k in byId :: byId[k].id
  }

  lemma IdsOfAdd(byId: map<int, Article>, ks: set<int>, k: int)
    requires k in byId
    ensures IdsOf(byId, ks + {k}) == IdsOf(byId, ks) + {byId[k].id}
  {
  }

  /** As many distinct ids as entries, the count the validation routine compares. */
  ghost predicate IdsDistinct(byId: map<int, Article>)
  {
    |byId| == |IdSet(byId)|
  }

  /** No two entries of the id index hold articles with the same id. */
  ghost predicate IdsInjective(byId: map<int, Article>)
  {
    forall k1, k2 | k1 in byId && k2 in byId && byId[k1].id == byId[k2].id :: k1 == k2
  }

  /** The three conditions the validation routine checks. */
  ghost predicate Consistent(byId: map<int, Article>, byAuthor: Index, byKeyword: Index)
  {
    && AllIndexed(byId, byAuthor, byKeyword)
    && NoStaleEntries(byAuthor, byId)
    && NoStaleEntries(byKeyword, byId)
    && IdsDistinct(byId)
  }

  /**
   * Counting entries against distinct ids detects exactly a repeated id:
   * there are never more ids than entries, and as many exactly when no id repeats.
   */
  lemma {:induction false} IdCount(byId: map<int, Article>)
    ensures |IdSet(byId)| <= |byId|
    ensures IdsDistinct(byId) <==> IdsInjective(byId)
    decreases |byId|
  {
    if |byId| != 0 {
      assert (forall x :: x !in byId) ==> byId == map[];
      var k :| k in byId;
      var rest := byId - {k};
      IdCount(rest);
      assert IdSet(byId) == IdSet(rest) + {byId[k].id} by {
        forall x | x in IdSet(byId)
          ensures x in IdSet(rest) + {byId[k].id}
        {
          var k1 :| k1 in byId && byId[k1].id == x;
          if k1 != k { assert k1 in rest; }
        }
      }
      assert |byId| == |rest| + 1;
      if byId[k].id in IdSet(rest) {
        var k' :| k' in rest && rest[k'].id == byId[k].id;
        assert !IdsInjective(byId) by {
          assert k' in byId && byId[k'].id == byId[k].id && k' != k;
        }
      } else {
        assert |IdSet(byId)| == |IdSet(rest)| + 1;
        if IdsInjective(rest) {
          forall k' | k' in byId && k' != k
            ensures byId[k'].id != byId[k].id
          {
            assert k' in rest;
          }
          forall k1, k2 | k1 in byId && k2 in byId && byId[k1].id == byId[k2].id
            ensures k1 == k2
          {
            if k1 != k && k2 != k {
              assert k1 in rest && k2 in rest;
            }
          }
        } else {
          var k1, k2 :| k1 in rest && k2 in rest && rest[k1].id == rest[k2].id && k1 != k2;
          assert k1 in byId && k2 in byId && byId[k1].id == byId[k2].id;
        }
      }
    }
  }

  // ---------------------------------------------------------------------
  // The invariant kept by insertion and removal.

  /** Every entry of the id index is stored under its own id. */
  ghost predicate KeysMatch(byId: map<int, Article>)
  {
    forall k | k in byId :: byId[k].id == k
  }

  /**
   * No list is empty, no list holds an article twice, and an article is
   * only listed under keys it declares.
   */
  ghost predicate WellFiled(m: Index, side: Side)
  {
    forall key | key in m ::
      && m[key] != []
      && Distinct(m[key])
      && forall e | e in m[key] :: key in KeysOf(e, side)
  }

  ghost predicate Invariant(byId: map<int, Article>, byAuthor: Index, byKeyword: Index)
  {
    && Consistent(byId, byAuthor, byKeyword)
    && KeysMatch(byId)
    && (forall k | k in byId :: WellFormed(byId[k]))
    && WellFiled(byAuthor, ByAuthor)
    && WellFiled(byKeyword, ByKeyword)
  }

  /** Entries stored under their own ids never repeat an id. */
  lemma KeysMatchDistinct(byId: map<int, Article>)
    requires KeysMatch(byId)
    ensures IdsDistinct(byId)
  {
    IdCount(byId);
  }

  /** The invariant makes the validation routine succeed. */
  lemma InvariantConsistent(byId: map<int, Article>, byAuthor: Index, byKeyword: Index)
    requires Invariant(byId, byAuthor, byKeyword)
    ensures Consistent(byId, byAuthor, byKeyword)
  {
  }

  /** The invariant of one key index, relative to the id index. */
  ghost predicate IndexOk(byId: map<int, Article>, m: Index, side: Side)
  {
    && NoStaleEntries(m, byId)
    && WellFiled(m, side)
    && forall k | k in byId :: Filed(byId[k], m, side)
  }

  lemma {:induction false} AppendKeepsDistinct(l: seq<Article>, a: Article)
    requires Distinct(l) && a !in l
    ensures Distinct(l + [a])
  {
    var r := l + [a];
    forall i, j | 0 <= i < j < |r|
      ensures r[i] != r[j]
    {
      assert r[i] == l[i];
      if j < |l| { assert r[j] == l[j]; } else { assert r[j] == a; }
    }
  }

  /** Appending a fresh article to the lists of its distinct keys keeps one index in order. */
  lemma InsertIndexPreserves(byId: map<int, Article>, m: Index, side: Side, a: Article)
    requires a.id !in byId && Distinct(KeysOf(a, side))
    requires IndexOk(byId, m, side)
    ensures IndexOk(byId[a.id := a], AppendEach(m, KeysOf(a, side), a), side)
  {
    var keys := KeysOf(a, side);
    var byId' := byId[a.id := a];
    var m' := AppendEach(m, keys, a);
    forall key | key in m'
      ensures m'[key] != [] && Distinct(m'[key])
      ensures forall e | e in m'[key] :: key in KeysOf(e, side) && Current(e, byId')
    {
      if key in keys {
        var l := ListAt(m, key);
        assert m'[key] == l + [a];
        assert a !in l by {
          forall e | e in l
            ensures e != a
          {
            assert Current(e, byId);
          }
        }
        AppendKeepsDistinct(l, a);
        forall e | e in m'[key]
          ensures key in KeysOf(e, side) && Current(e, byId')
        {
          if e != a {
            assert e in l && key in m && Current(e, byId);
          }
        }
      } else {
        forall e | e in m'[key]
          ensures key in KeysOf(e, side) && Current(e, byId')
        {
          assert Current(e, byId);
        }
      }
    }
    forall k | k in byId'
      ensures Filed(byId'[k], m', side)
    {
      if k != a.id {
        var b := byId[k];
        forall key | key in KeysOf(b, side)
          ensures key in m' && b in m'[key]
        {
          assert key in m && b in m[key];
          if key in keys {
            assert m'[key] == m[key] + [a];
          }
        }
      }
    }
  }

  /** Removing a stored article from the lists of its keys keeps one index in order. */
  lemma RemoveIndexPreserves(byId: map<int, Article>, m: Index, side: Side, id: int)
    requires id in byId && KeysMatch(byId) && WellFormed(byId[id])
    requires IndexOk(byId, m, side)
    ensures Removable(m, KeysOf(byId[id], side), byId[id])
    ensures IndexOk(byId - {id}, RemoveEach(m, KeysOf(byId[id], side), byId[id]), side)
    ensures forall key | key in RemoveEach(m, KeysOf(byId[id], side), byId[id]) ::
      byId[id] !in RemoveEach(m, KeysOf(byId[id], side), byId[id])[key]
  {
    var a := byId[id];
    var keys := KeysOf(a, side);
    assert Filed(a, m, side);
    var m' := RemoveEach(m, keys, a);
    forall key | key in m'
      ensures m'[key] != [] && Distinct(m'[key]) && a !in m'[key]
      ensures forall e | e in m'[key] :: key in KeysOf(e, side) && Current(e, byId - {id})
    {
      assert key in m;
      if key in keys {
        RemovedListAt(byId, m[key], m'[key], key, side, id);
      } else {
        KeptListAt(byId, m[key], key, side, id);
      }
    }
    forall k | k in byId && k != id
      ensures Filed(byId[k], m', side)
    {
      RemovedFiledAt(byId, m, side, id, k);
    }
  }

  /** The list of one of the removed article's keys, after the removal, is repetition-free, current and without it. */
  lemma RemovedListAt(byId: map<int, Article>, l0: seq<Article>, l: seq<Article>, key: string, side: Side, id: int)
    requires id in byId && byId[id].id == id
    requires Distinct(l0) && byId[id] in l0
    requires forall e | e in l0 :: key in KeysOf(e, side) && Current(e, byId)
    requires l == RemoveFirst(l0, byId[id])
    ensures Distinct(l) && byId[id] !in l
    ensures forall e | e in l :: key in KeysOf(e, side) && Current(e, byId - {id})
  {
    forall e | e in l
      ensures key in KeysOf(e, side) && Current(e, byId - {id})
    {
      assert multiset(l)[e] > 0;
      assert e in l0 && e != byId[id];
      assert Current(e, byId);
    }
  }

  /** The list of a key the removed article does not declare is current without it. */
  lemma KeptListAt(byId: map<int, Article>, l: seq<Article>, key: string, side: Side, id: int)
    requires id in byId && byId[id].id == id && key !in KeysOf(byId[id], side)
    requires forall e | e in l :: key in KeysOf(e, side) && Current(e, byId)
    ensures byId[id] !in l
    ensures forall e | e in l :: key in KeysOf(e, side) && Current(e, byId - {id})
  {
    forall e | e in l
      ensures e != byId[id] && Current(e, byId - {id})
    {
      assert key in KeysOf(e, side) && Current(e, byId);
    }
  }

  /** After the removal, every other stored article is still listed under all its keys. */
  lemma RemovedFiledAt(byId: map<int, Article>, m: Index, side: Side, id: int, k: int)
    requires id in byId && KeysMatch(byId) && WellFormed(byId[id])
    requires IndexOk(byId, m, side)
    requires Removable(m, KeysOf(byId[id], side), byId[id])
    requires k in byId && k != id
    ensures Filed(byId[k], RemoveEach(m, KeysOf(byId[id], side), byId[id]), side)
  {
    var a := byId[id];
    var keys := KeysOf(a, side);
    var m' := RemoveEach(m, keys, a);
    var b := byId[k];
    assert b != a by { assert b.id == k && a.id == id; }
    forall key | key in KeysOf(b, side)
      ensures key in m' && b in m'[key]
    {
      assert key in m && b in m[key];
      if key in keys {
        RemoveFirstKeepsOthers(m[key], a, b);
      }
    }
  }

  /** Successful insertion keeps the invariant when the new article's keys are distinct. */
  lemma InsertPreserves(byId: map<int, Article>, byAuthor: Index, byKeyword: Index, a: Article)
    requires Invariant(byId, byAuthor, byKeyword)
    requires a.id !in byId && WellFormed(a)
    ensures Invariant(byId[a.id := a],
                      AppendEach(byAuthor, a.authors, a),
                      AppendEach(byKeyword, a.keywords, a))
  {
    InsertIndexPreserves(byId, byAuthor, ByAuthor, a);
    InsertIndexPreserves(byId, byKeyword, ByKeyword, a);
    KeysMatchDistinct(byId[a.id := a]);
  }

  /**
   * Successful removal keeps the invariant, and the removed article is left
   * in no list of either key index.
   */
  lemma RemovePreserves(byId: map<int, Article>, byAuthor: Index, byKeyword: Index, id: int)
    requires Invariant(byId, byAuthor, byKeyword) && id in byId
    ensures Removable(byAuthor, byId[id].authors, byId[id])
    ensures Removable(byKeyword, byId[id].keywords, byId[id])
    ensures Invariant(byId - {id},
                      RemoveEach(byAuthor, byId[id].authors, byId[id]),
                      RemoveEach(byKeyword, byId[id].keywords, byId[id]))
    ensures forall key | key in RemoveEach(byAuthor, byId[id].authors, byId[id]) ::
      byId[id] !in RemoveEach(byAuthor, byId[id].authors, byId[id])[key]
    ensures forall key | key in RemoveEach(byKeyword, byId[id].keywords, byId[id]) ::
      byId[id] !in RemoveEach(byKeyword, byId[id].keywords, byId[id])[key]
  {
    RemoveIndexPreserves(byId, byAuthor, ByAuthor, id);
    RemoveIndexPreserves(byId, byKeyword, ByKeyword, id);
    KeysMatchDistinct(byId - {id});
  }

  /** An article whose id is not stored is in no list of a well-kept index. */
  lemma FreshNotListed(byId: map<int, Article>, m: Index, side: Side, a: Article)
    requires NoStaleEntries(m, byId) && WellFiled(m, side) && a.id !in byId
    ensures forall k | k in m :: m[k] != [] && a !in m[k]
  {
    forall k, e | k in m && e in m[k]
      ensures e != a
    {
      assert Current(e, byId);
    }
  }

  /**
   * Removing an article right after inserting it restores all three
   * indices when the invariant held before the insertion.
   */
  lemma InsertThenRemove(byId: map<int, Article>, byAuthor: Index, byKeyword: Index, a: Article)
    requires Invariant(byId, byAuthor, byKeyword)
    requires a.id !in byId && WellFormed(a)
    ensures var byId' := byId[a.id := a];
            var byAuthor' := AppendEach(byAuthor, a.authors, a);
            var byKeyword' := AppendEach(byKeyword, a.keywords, a);
            && Removable(byAuthor', a.authors, a)
            && Removable(byKeyword', a.keywords, a)
            && byId' - {a.id} == byId
            && RemoveEach(byAuthor', a.authors, a) == byAuthor
            && RemoveEach(byKeyword', a.keywords, a) == byKeyword
  {
    IndexRoundTrip(byId, byAuthor, ByAuthor, a);
    IndexRoundTrip(byId, byKeyword, ByKeyword, a);
    assert byId[a.id := a] - {a.id} == byId;
  }

  /** `InsertThenRemove` for one key index. */
  lemma IndexRoundTrip(byId: map<int, Article>, m: Index, side: Side, a: Article)
    requires NoStaleEntries(m, byId) && WellFiled(m, side)
    requires a.id !in byId && Distinct(KeysOf(a, side))
    ensures Removable(AppendEach(m, KeysOf(a, side), a), KeysOf(a, side), a)
    ensures RemoveEach(AppendEach(m, KeysOf(a, side), a), KeysOf(a, side), a) == m
  {
    FreshNotListed(byId, m, side, a);
    AppendThenRemove(m, KeysOf(a, side), a);
  }

  /**
   * The three checks of the validation routine alone are not kept by
   * insertion: an article stored under a key other than its id passes
   * them, and inserting a second article with that id then fails them.
   */
  lemma ConsistentNotKeptByInsert(x: Article, b: Article)
    requires x.id == 7 && x.authors == [] && x.keywords == []
    requires b.id == 7 && b.authors == [] && b.keywords == []
    ensures Consistent(map[5 := x], map[], map[])
    ensures 7 !in map[5 := x]
    ensures !Consistent(map[5 := x][7 := b], AppendEach(map[], b.authors, b), AppendEach(map[], b.keywords, b))
  {
    assert map[5 := x].Keys == {5};
    assert map[5 := x][5].id in IdSet(map[5 := x]);
    assert IdSet(map[5 := x]) == {7};
    assert map[5 := x][7 := b].Keys == {5, 7};
    assert map[5 := x][7 := b][7].id in IdSet(map[5 := x][7 := b]);
    assert IdSet(map[5 := x][7 := b]) == {7};
    assert |map[5 := x][7 := b]| == 2 by {
      assert map[5 := x][7 := b].Keys == {5, 7};
    }
  }

  /**
   * Nor by removal: an article also listed under an author it does not
   * declare passes them, and removing it leaves a stale entry behind.
   */
  lemma ConsistentNotKeptByRemove(a: Article)
    requires a.id == 1 && a.authors == ["alice"] && a.keywords == []
    ensures Consistent(map[1 := a], map["alice" := [a], "bob" := [a]], map[])
    ensures Removable(map["alice" := [a], "bob" := [a]], a.authors, a)
    ensures !Consistent(map[1 := a] - {1}, RemoveEach(map["alice" := [a], "bob" := [a]], a.authors, a),
                        RemoveEach(map[], a.keywords, a))
  {
    StrayListingConsistent(a);
    StrayListingStale(a);
  }

  /** The state of `ConsistentNotKeptByRemove` before the removal passes the checks. */
  lemma StrayListingConsistent(a: Article)
    requires a.id == 1 && a.authors == ["alice"] && a.keywords == []
    ensures Consistent(map[1 := a], map["alice" := [a], "bob" := [a]], map[])
  {
    var byId := map[1 := a];
    var byAuthor := map["alice" := [a], "bob" := [a]];
    KeysMatchDistinct(byId);
    assert Current(a, byId);
    assert NoStaleEntries(byAuthor, byId);
    assert Filed(a, byAuthor, ByAuthor);
    assert AllIndexed(byId, byAuthor, map[]);
  }

  /** After the removal the listing under the undeclared key is stale. */
  lemma StrayListingStale(a: Article)
    requires a.id == 1 && a.authors == ["alice"] && a.keywords == []
    ensures Removable(map["alice" := [a], "bob" := [a]], a.authors, a)
    ensures !Consistent(map[1 := a] - {1}, RemoveEach(map["alice" := [a], "bob" := [a]], a.authors, a),
                        RemoveEach(map[], a.keywords, a))
  {
    var after := RemoveEach(map["alice" := [a], "bob" := [a]], a.authors, a);
    assert "bob" !in a.authors;
    assert "bob" in after && a in after["bob"];
    assert !Current(a, map[1 := a] - {1});
  }

  /**
   * Insertion does not keep the invariant for an article with a repeated
   * author: it is listed twice under that author.
   */
  lemma MalformedInsertBreaksInvariant(a: Article)
    requires a.id == 1 && a.authors == ["x", "x"] && a.keywords == []
    ensures ListAt(AppendEach(map[], a.authors, a), "x") == [a, a]
    ensures !Invariant(map[1 := a], AppendEach(map[], a.authors, a), AppendEach(map[], a.keywords, a))
  {
    AppendEachCounts(map[], a.authors, a);
    assert multiset(a.authors)["x"] == 2;
    assert Copies(a, 2) == [a, a];
    var byAuthor := AppendEach(map[], a.authors, a);
    assert "x" in byAuthor && byAuthor["x"] == [a, a];
    assert byAuthor["x"][0] == byAuthor["x"][1];
  }

  // ---------------------------------------------------------------------
  // The loops of the validation routine.

  /** Whether the list of every key of `keys` holds the very article `a`. */
  method CheckFiled(m: Index, keys: seq<string>, a: Article) returns (ok: bool)
    ensures ok <==> forall k | k in keys :: k in m && a in m[k]
  {
    var i := 0;
    while i < |keys|
      invariant i <= |keys|
      invariant forall j :: 0 <= j < i ==> keys[j] in m && a in m[keys[j]]
    {
      var found := ContainsRef(m, keys[i], a);
      if !found {
        return false;
      }
      i := i + 1;
    }
    return true;
  }

  /** Whether `a` is listed under each of its authors and then each of its keywords. */
  method CheckIndexed(a: Article, byAuthor: Index, byKeyword: Index) returns (ok: bool)
    ensures ok <==> Indexed(a, byAuthor, byKeyword)
  {
    ok := CheckFiled(byAuthor, a.authors, a);
    if ok {
      ok := CheckFiled(byKeyword, a.keywords, a);
    }
  }

  /**
   * Visits every article of the id index, counting the entries and
   * collecting their ids, and stops at the first article that is missing
   * from the list of one of its authors or keywords.
   */
  method CheckArticlesIndexed(byId: map<int, Article>, byAuthor: Index, byKeyword: Index)
    returns (ok: bool, articleCount: nat, articleIds: set<int>)
    ensures ok <==> AllIndexed(byId, byAuthor, byKeyword)
    ensures ok ==> articleCount == |byId| && articleIds == IdSet(byId)
  {
    articleIds := {};
    articleCount := 0;
    var pending := byId.Keys;
    ghost var visited: set<int> := {};
    while pending != {}
      invariant pending !! visited && pending + visited == byId.Keys
      invariant articleCount == |visited|
      invariant articleIds == IdsOf(byId, visited)
      invariant forall k | k in visited :: Indexed(byId[k], byAuthor, byKeyword)
      decreases pending
    {
      assert (forall x :: x !in pending) ==> pending == {};
      var k :| k in pending;
      var a := byId[k];
      articleIds := articleIds + {a.id};
      articleCount := articleCount + 1;
      IdsOfAdd(byId, visited, k);
      ok := CheckIndexed(a, byAuthor, byKeyword);
      if !ok {
        return;
      }
      pending := pending - {k};
      visited := visited + {k};
    }
    assert visited == byId.Keys;
    assert IdsOf(byId, visited) == IdSet(byId);
    ok := true;
  }

  /** Whether every list of `m` holds only articles current in the id index. */
  method CheckNoStaleEntries(m: Index, byId: map<int, Article>) returns (ok: bool)
    ensures ok <==> NoStaleEntries(m, byId)
  {
    var keys := m.Keys;
    while keys != {}
      invariant keys <= m.Keys
      invariant forall key | key in m && key !in keys :: forall e | e in m[key] :: Current(e, byId)
      decreases keys
    {
      assert (forall x :: x !in keys) ==> keys == {};
      var key :| key in keys;
      ok := AllCurrent(m, key, byId);
      if !ok {
        return;
      }
      keys := keys - {key};
    }
    return true;
  }
}

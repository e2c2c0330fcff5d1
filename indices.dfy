/**
 * One index of the repository: a map from a key (an author name or a
 * keyword) to the ordered list of articles filed under that key. The
 * functions here say what the repository's loops compute; the methods are
 * those loops, proved against the functions.
 */
module Indices {
  import opened Articles

  type Index = map<string, seq<Article>>

  /** The list filed under `k`, or the empty list when `k` is not a key. */
  function ListAt(m: Index, k: string): seq<Article>
  {
    if k in m then m[k] else []
  }

  /** `e` is the article that the id index holds under `e`'s own id. */
  predicate Current(e: Article, byId: map<int, Article>)
  {
    e.id in byId && byId[e.id] == e
  }

  // ---------------------------------------------------------------------
  // Insertion: append the article at the end of the list of every key.

  /**
   * The index after appending `a` to the list of each key of `keys`, in
   * order, creating an empty list first for a key that is absent.
   */
  function AppendEach(m: Index, keys: seq<string>, a: Article): (r: Index)
    ensures forall k :: k in r <==> k in m || k in keys
    ensures forall k | k in m && k !in keys :: r[k] == m[k]
    ensures Distinct(keys) ==> forall k | k in keys :: r[k] == ListAt(m, k) + [a]
    decreases |keys|
  {
    if keys == [] then m
    else
      var k := keys[|keys| - 1];
      var r0 := AppendEach(m, keys[..|keys| - 1], a);
      SplitLast(keys);
      r0[k := ListAt(r0, k) + [a]]
  }

  /** One more key is one more append. */
  lemma AppendEachStep(m: Index, keys: seq<string>, i: nat, a: Article)
    requires i < |keys|
    ensures AppendEach(m, keys[..i + 1], a)
      == AppendEach(m, keys[..i], a)[keys[i] := ListAt(AppendEach(m, keys[..i], a), keys[i]) + [a]]
  {
    var ks := keys[..i + 1];
    AppendEachLast(m, ks, a);
    assert ks[..|ks| - 1] == keys[..i];
  }

  /** `AppendEach` over a non-empty key sequence, one level unfolded. */
  lemma AppendEachLast(m: Index, keys: seq<string>, a: Article)
    requires keys != []
    ensures var r0 := AppendEach(m, keys[..|keys| - 1], a);
            AppendEach(m, keys, a) == r0[keys[|keys| - 1] := ListAt(r0, keys[|keys| - 1]) + [a]]
  {
  }

  /** Appending under a single key extends that key's list only. */
  lemma AppendSingleKey(m: Index, k: string, a: Article)
    ensures AppendEach(m, [k], a) == m[k := ListAt(m, k) + [a]]
  {
    assert [k][..0] == [];
  }

  /** `n` copies of `a`. */
  function Copies(a: Article, n: nat): (r: seq<Article>)
    ensures |r| == n && forall j :: 0 <= j < n ==> r[j] == a
  {
    if n == 0 then [] else Copies(a, n - 1) + [a]
  }

  /**
   * With repeated keys allowed: every key's list (empty when absent) gains
   * one copy of `a` per occurrence of the key in `keys`.
   */
  lemma {:induction false} AppendEachCounts(m: Index, keys: seq<string>, a: Article)
    ensures forall k :: ListAt(AppendEach(m, keys, a), k) == ListAt(m, k) + Copies(a, multiset(keys)[k])
    decreases |keys|
  {
    if keys == [] {
      forall k
        ensures ListAt(AppendEach(m, keys, a), k) == ListAt(m, k) + Copies(a, multiset(keys)[k])
      {
        assert ListAt(m, k) + [] == ListAt(m, k);
      }
    } else {
      AppendEachCounts(m, keys[..|keys| - 1], a);
      forall k
        ensures ListAt(AppendEach(m, keys, a), k) == ListAt(m, k) + Copies(a, multiset(keys)[k])
      {
        AppendCountAt(m, keys, a, k);
      }
    }
  }

  /** The inductive step of `AppendEachCounts` at one key. */
  lemma AppendCountAt(m: Index, keys: seq<string>, a: Article, k: string)
    requires keys != []
    requires ListAt(AppendEach(m, keys[..|keys| - 1], a), k)
      == ListAt(m, k) + Copies(a, multiset(keys[..|keys| - 1])[k])
    ensures ListAt(AppendEach(m, keys, a), k) == ListAt(m, k) + Copies(a, multiset(keys)[k])
  {
    var r0 := AppendEach(m, keys[..|keys| - 1], a);
    ListAtLast(m, keys, a, k);
    MultisetLast(keys);
    CountStep(ListAt(m, k), ListAt(r0, k), ListAt(AppendEach(m, keys, a), k), a,
              multiset(keys[..|keys| - 1])[k], multiset(keys)[k], k == keys[|keys| - 1]);
  }

  /** One append step adds one copy exactly when the key is the one appended under. */
  lemma CountStep(base: seq<Article>, l0: seq<Article>, l: seq<Article>, a: Article, n0: nat, n: nat, step: bool)
    requires l0 == base + Copies(a, n0)
    requires step ==> l == l0 + [a] && n == n0 + 1
    requires !step ==> l == l0 && n == n0
    ensures l == base + Copies(a, n)
  {
    if step {
      assert Copies(a, n) == Copies(a, n0) + [a];
      assert base + Copies(a, n0) + [a] == base + (Copies(a, n0) + [a]);
    }
  }

  /** The list of one key after one more append step. */
  lemma ListAtLast(m: Index, keys: seq<string>, a: Article, k: string)
    requires keys != []
    ensures var r0 := AppendEach(m, keys[..|keys| - 1], a);
            ListAt(AppendEach(m, keys, a), k)
              == if k == keys[|keys| - 1] then ListAt(r0, k) + [a] else ListAt(r0, k)
  {
    AppendEachLast(m, keys, a);
  }

  /** The multiset of a non-empty sequence counts its last element once more than its prefix. */
  lemma MultisetLast(keys: seq<string>)
    requires keys != []
    ensures multiset(keys) == multiset(keys[..|keys| - 1]) + multiset{keys[|keys| - 1]}
  {
    assert keys == keys[..|keys| - 1] + [keys[|keys| - 1]];
  }

  // ---------------------------------------------------------------------
  // Removal: drop the first identity-equal occurrence from each key's list.

  /** The position of the first occurrence of `a` in `s`. */
  function FirstIndex(s: seq<Article>, a: Article): (p: nat)
    requires a in s
    ensures p < |s| && s[p] == a
    ensures forall j :: 0 <= j < p ==> s[j] != a
  {
    if s[0] == a then 0 else 1 + FirstIndex(s[1..], a)
  }

  /** `s` without the first occurrence of `a`. */
  function RemoveFirst(s: seq<Article>, a: Article): (r: seq<Article>)
    requires a in s
    ensures |r| == |s| - 1
    ensures multiset(r) == multiset(s) - multiset{a}
    ensures Distinct(s) ==> Distinct(r) && a !in r
  {
    var p := FirstIndex(s, a);
    DropAt(s, p);
    s[..p] + s[p + 1..]
  }

  /** Only the first occurrence goes: the elements before it stay, those after it move down by one. */
  lemma RemoveFirstKeepsOrder(s: seq<Article>, a: Article)
    requires a in s
    ensures forall j :: 0 <= j < FirstIndex(s, a) ==> RemoveFirst(s, a)[j] == s[j]
    ensures forall j :: FirstIndex(s, a) <= j < |s| - 1 ==> RemoveFirst(s, a)[j] == s[j + 1]
  {
    var p := FirstIndex(s, a);
    var r := s[..p] + s[p + 1..];
    assert RemoveFirst(s, a) == r;
    forall j | 0 <= j < p
      ensures r[j] == s[j]
    {
    }
    forall j | p <= j < |s| - 1
      ensures r[j] == s[j + 1]
    {
    }
  }

  /** Removing the first occurrence of `a` keeps every other element of the list. */
  lemma RemoveFirstKeepsOthers(s: seq<Article>, a: Article, b: Article)
    requires a in s && b in s && b != a
    ensures b in RemoveFirst(s, a)
  {
    assert multiset(RemoveFirst(s, a))[b] == multiset(s)[b];
  }

  /** Dropping position `p` shifts the elements after it down by one. */
  lemma DropAt(s: seq<Article>, p: nat)
    requires p < |s|
    ensures |s[..p] + s[p + 1..]| == |s| - 1
    ensures forall j :: 0 <= j < |s| - 1 ==> (s[..p] + s[p + 1..])[j] == if j < p then s[j] else s[j + 1]
    ensures multiset(s[..p] + s[p + 1..]) == multiset(s) - multiset{s[p]}
    ensures Distinct(s) ==> Distinct(s[..p] + s[p + 1..]) && s[p] !in s[..p] + s[p + 1..]
  {
    DropAtMultiset(s, p);
    if Distinct(s) {
      DropAtDistinct(s, p);
    }
  }

  lemma DropAtMultiset(s: seq<Article>, p: nat)
    requires p < |s|
    ensures multiset(s[..p] + s[p + 1..]) == multiset(s) - multiset{s[p]}
  {
    assert s == s[..p] + [s[p]] + s[p + 1..];
  }

  lemma DropAtDistinct(s: seq<Article>, p: nat)
    requires p < |s| && Distinct(s)
    ensures Distinct(s[..p] + s[p + 1..]) && s[p] !in s[..p] + s[p + 1..]
  {
    var r := s[..p] + s[p + 1..];
    forall j | 0 <= j < |r|
      ensures r[j] != s[p]
    {
      if j < p { assert r[j] == s[j]; } else { assert r[j] == s[j + 1]; }
    }
    forall i, j | 0 <= i < j < |r|
      ensures r[i] != r[j]
    {
      var i' := if i < p then i else i + 1;
      var j' := if j < p then j else j + 1;
      assert r[i] == s[i'] && r[j] == s[j'] && i' < j';
    }
  }

  /**
   * Removing `a` under each key of `keys` is in range: the keys are
   * distinct and every one of them that is present lists `a`.
   */
  predicate Removable(m: Index, keys: seq<string>, a: Article)
  {
    Distinct(keys) && forall k | k in keys && k in m :: a in m[k]
  }

  /**
   * The index after removing `a` from the list of each key of `keys`, in
   * order: a key that is absent is skipped, and a key whose list becomes
   * empty is deleted.
   */
  function RemoveEach(m: Index, keys: seq<string>, a: Article): (r: Index)
    requires Removable(m, keys, a)
    ensures forall k | k !in keys :: (k in r <==> k in m) && (k in r ==> r[k] == m[k])
    ensures forall k | k in keys && k in m ::
      (k in r <==> RemoveFirst(m[k], a) != []) && (k in r ==> r[k] == RemoveFirst(m[k], a))
    ensures forall k | k in keys && k !in m :: k !in r
    decreases |keys|
  {
    if keys == [] then m
    else
      var k := keys[|keys| - 1];
      var prefix := keys[..|keys| - 1];
      SplitLast(keys);
      var r0 := RemoveEach(m, prefix, a);
      RemoveOneEffect(r0, k, a);
      RemoveOne(r0, k, a)
  }

  /** A non-empty sequence of distinct keys is its prefix and a last key not in the prefix. */
  lemma SplitLast(keys: seq<string>)
    requires keys != []
    ensures keys == keys[..|keys| - 1] + [keys[|keys| - 1]]
    ensures forall j :: j in keys <==> j in keys[..|keys| - 1] || j == keys[|keys| - 1]
    ensures Distinct(keys) ==> keys[|keys| - 1] !in keys[..|keys| - 1] && Distinct(keys[..|keys| - 1])
  {
    assert keys == keys[..|keys| - 1] + [keys[|keys| - 1]];
  }

  /** Removes the first occurrence of `a` under `k`, deleting `k` if its list empties. */
  function RemoveOne(m: Index, k: string, a: Article): Index
    requires k in m ==> a in m[k]
  {
    if k !in m then m
    else
      var l := RemoveFirst(m[k], a);
      if l == [] then m - {k} else m[k := l]
  }

  /** `RemoveOne` changes the entry of its key only. */
  lemma RemoveOneEffect(m: Index, k: string, a: Article)
    requires k in m ==> a in m[k]
    ensures forall j | j != k :: (j in RemoveOne(m, k, a) <==> j in m) && (j in RemoveOne(m, k, a) ==> RemoveOne(m, k, a)[j] == m[j])
    ensures k in m ==> (k in RemoveOne(m, k, a) <==> RemoveFirst(m[k], a) != [])
    ensures k in m && k in RemoveOne(m, k, a) ==> RemoveOne(m, k, a)[k] == RemoveFirst(m[k], a)
    ensures k !in m ==> k !in RemoveOne(m, k, a)
  {
  }

  /** One more key of a removable sequence is one more `RemoveOne` step. */
  lemma RemoveEachStep(m: Index, keys: seq<string>, i: nat, a: Article)
    requires Removable(m, keys, a) && i < |keys|
    ensures Removable(m, keys[..i], a) && Removable(m, keys[..i + 1], a)
    ensures keys[i] in RemoveEach(m, keys[..i], a) ==> a in RemoveEach(m, keys[..i], a)[keys[i]]
    ensures RemoveEach(m, keys[..i + 1], a) == RemoveOne(RemoveEach(m, keys[..i], a), keys[i], a)
  {
    assert keys[..i + 1][..i] == keys[..i];
    assert keys[i] !in keys[..i];
  }

  /** Removing the first occurrence of an article just appended to a list without it restores the list. */
  lemma RemoveFirstAppended(l: seq<Article>, a: Article)
    requires a !in l
    ensures RemoveFirst(l + [a], a) == l
  {
    var s := l + [a];
    assert s[|l|] == a;
    assert forall j :: 0 <= j < |l| ==> s[j] == l[j];
    assert FirstIndex(s, a) == |l|;
  }

  /**
   * Removal undoes insertion: appending an article that no list holds to
   * the lists of distinct keys and then removing it again gives back the
   * original index, provided it has no empty list.
   */
  lemma AppendThenRemove(m: Index, keys: seq<string>, a: Article)
    requires Distinct(keys)
    requires forall k | k in m :: m[k] != [] && a !in m[k]
    ensures Removable(AppendEach(m, keys, a), keys, a)
    ensures RemoveEach(AppendEach(m, keys, a), keys, a) == m
  {
    AppendedRemovable(m, keys, a);
    var m2 := RemoveEach(AppendEach(m, keys, a), keys, a);
    forall k | k in m2 || k in m
      ensures k in m2 && k in m && m2[k] == m[k]
    {
      RoundTripKey(m, keys, a, k);
    }
    assert m2.Keys == m.Keys;
  }

  /** After appending, every key of `keys` lists the article. */
  lemma AppendedRemovable(m: Index, keys: seq<string>, a: Article)
    requires Distinct(keys)
    ensures Removable(AppendEach(m, keys, a), keys, a)
  {
    var m1 := AppendEach(m, keys, a);
    forall k | k in keys && k in m1
      ensures a in m1[k]
    {
      assert m1[k] == ListAt(m, k) + [a];
    }
  }

  /** The round trip of `AppendThenRemove`, one key at a time. */
  lemma RoundTripKey(m: Index, keys: seq<string>, a: Article, k: string)
    requires Distinct(keys)
    requires forall k | k in m :: m[k] != [] && a !in m[k]
    requires Removable(AppendEach(m, keys, a), keys, a)
    ensures k in RemoveEach(AppendEach(m, keys, a), keys, a) <==> k in m
    ensures k in m ==> RemoveEach(AppendEach(m, keys, a), keys, a)[k] == m[k]
  {
    var m1 := AppendEach(m, keys, a);
    var m2 := RemoveEach(m1, keys, a);
    if k in keys {
      RoundTripAt(m, m1, m2, k, a);
    }
  }

  lemma RoundTripAt(m: Index, m1: Index, m2: Index, k: string, a: Article)
    requires k in m ==> m[k] != [] && a !in m[k]
    requires k in m1 && m1[k] == ListAt(m, k) + [a]
    requires k in m2 <==> RemoveFirst(m1[k], a) != []
    requires k in m2 ==> m2[k] == RemoveFirst(m1[k], a)
    ensures k in m2 <==> k in m
    ensures k in m ==> m2[k] == m[k]
  {
    RemoveFirstAppended(ListAt(m, k), a);
  }

  // ---------------------------------------------------------------------
  // Lookup: concatenate the lists of several keys.

  /** The lists of `keys`, in order, concatenated; an absent key adds nothing. */
  function Lookup(m: Index, keys: seq<string>): seq<Article>
    decreases |keys|
  {
    if keys == [] then []
    else Lookup(m, keys[..|keys| - 1]) + ListAt(m, keys[|keys| - 1])
  }

  /** Looking up two key lists one after the other is looking up their concatenation. */
  lemma {:induction false} LookupConcat(m: Index, keys1: seq<string>, keys2: seq<string>)
    ensures Lookup(m, keys1 + keys2) == Lookup(m, keys1) + Lookup(m, keys2)
    decreases |keys2|
  {
    if keys2 == [] {
      assert keys1 + keys2 == keys1;
    } else {
      var init := keys2[..|keys2| - 1];
      var last := keys2[|keys2| - 1];
      assert (keys1 + keys2)[..|keys1 + keys2| - 1] == keys1 + init;
      LookupConcat(m, keys1, init);
    }
  }

  /** A single key yields exactly its own list. */
  lemma LookupSingle(m: Index, k: string)
    ensures Lookup(m, [k]) == ListAt(m, k)
  {
    assert [k][..0] == [];
  }

  /** An article is found exactly when some looked-up key that is present lists it. */
  lemma {:induction false} LookupMembership(m: Index, keys: seq<string>, x: Article)
    ensures x in Lookup(m, keys) <==> exists i :: 0 <= i < |keys| && keys[i] in m && x in m[keys[i]]
    decreases |keys|
  {
    if keys != [] {
      var init := keys[..|keys| - 1];
      LookupMembership(m, init, x);
      assert forall i :: 0 <= i < |init| ==> init[i] == keys[i];
    }
  }

  // ---------------------------------------------------------------------
  // The loops of the repository, proved against the functions above.

  /** Walks `s` from the front and stops at the first reference equal to `a`. */
  method FirstPosition(s: seq<Article>, a: Article) returns (pos: nat)
    ensures pos <= |s|
    ensures forall j :: 0 <= j < pos ==> s[j] != a
    ensures pos < |s| <==> a in s
    ensures a in s ==> pos == FirstIndex(s, a)
  {
    pos := 0;
    while pos < |s|
      invariant pos <= |s|
      invariant forall j :: 0 <= j < pos ==> s[j] != a
    {
      if s[pos] == a {
        return;
      }
      pos := pos + 1;
    }
  }

  /** Appends `a`, key by key, to the list of each of `keys`, creating missing lists. */
  method AppendToLists(m: Index, keys: seq<string>, a: Article) returns (r: Index)
    ensures r == AppendEach(m, keys, a)
  {
    r := m;
    var i := 0;
    while i < |keys|
      invariant i <= |keys|
      invariant r == AppendEach(m, keys[..i], a)
    {
      var key := keys[i];
      AppendEachStep(m, keys, i, a);
      var ll := if key in r then r[key] else [];
      r := r[key := ll + [a]];
      i := i + 1;
    }
    assert keys[..i] == keys;
  }

  /**
   * Removes, key by key, the first occurrence of `a` from the list of each
   * of `keys` that is present, deleting a key whose list becomes empty.
   */
  method RemoveFromLists(m: Index, keys: seq<string>, a: Article) returns (r: Index)
    requires Removable(m, keys, a)
    ensures r == RemoveEach(m, keys, a)
  {
    r := m;
    var i := 0;
    while i < |keys|
      invariant i <= |keys|
      invariant r == RemoveEach(m, keys[..i], a)
    {
      RemoveEachStep(m, keys, i, a);
      r := RemoveFromList(r, keys[i], a);
      i := i + 1;
    }
    assert keys[..i] == keys;
  }

  /**
   * One step of the removal loop: finds the first occurrence of `a` in the
   * list of `key`, cuts it out, and deletes the key if its list empties.
   */
  method RemoveFromList(m: Index, key: string, a: Article) returns (r: Index)
    requires key in m ==> a in m[key]
    ensures r == RemoveOne(m, key, a)
  {
    r := m;
    if key in r {
      var ll := r[key];
      var pos := FirstPosition(ll, a);
      ll := ll[..pos] + ll[pos + 1..];
      if ll == [] {
        r := r - {key};
      } else {
        r := r[key := ll];
      }
    }
  }

  /** Copies, key by key and element by element, the lists of `keys` into one list. */
  method Collect(m: Index, keys: seq<string>) returns (res: seq<Article>)
    ensures res == Lookup(m, keys)
  {
    res := [];
    var i := 0;
    while i < |keys|
      invariant i <= |keys|
      invariant res == Lookup(m, keys[..i])
    {
      var key := keys[i];
      assert keys[..i + 1][..i] == keys[..i];
      if key in m {
        var l := m[key];
        var j := 0;
        while j < |l|
          invariant j <= |l|
          invariant res == Lookup(m, keys[..i]) + l[..j]
        {
          assert l[..j + 1] == l[..j] + [l[j]];
          res := res + [l[j]];
          j := j + 1;
        }
        assert l[..j] == l;
      }
      i := i + 1;
    }
    assert keys[..i] == keys;
  }

  /** Whether the list under `key` holds the very article `a`. */
  method ContainsRef(m: Index, key: string, a: Article) returns (found: bool)
    ensures found <==> key in m && a in m[key]
  {
    if key !in m {
      return false;
    }
    var l := m[key];
    var i := 0;
    while i < |l|
      invariant i <= |l|
      invariant forall j :: 0 <= j < i ==> l[j] != a
    {
      if l[i] == a {
        return true;
      }
      i := i + 1;
    }
    return false;
  }

  /**
   * Whether `key` has a list and every article in it is the one the id
   * index holds under that article's id.
   */
  method AllCurrent(m: Index, key: string, byId: map<int, Article>) returns (ok: bool)
    ensures ok <==> key in m && forall e | e in m[key] :: Current(e, byId)
  {
    if key !in m {
      return false;
    }
    var l := m[key];
    var i := 0;
    while i < |l|
      invariant i <= |l|
      invariant forall j :: 0 <= j < i ==> Current(l[j], byId)
    {
      var e := l[i];
      if !(e.id in byId && byId[e.id] == e) {
        assert e in m[key] && !Current(e, byId);
        return false;
      }
      i := i + 1;
    }
    return true;
  }
}

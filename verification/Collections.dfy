/**
 * Options, and facts about finite sets, maps and insertion shared by the models. A loop over a map visits its
 * keys in any order: it picks one of the keys that are left until there is none. Sizes of sets and maps are
 * compared through their keys. Where a list is kept sorted, a new element is put between two parts of it.
 */
module Collections {
  datatype Option<+T> = None | Some(value: T)

  lemma SomeMember<T>(s: set<T>) returns (x: T)
    requires s != {}
    ensures x in s
  {
    assert (forall y :: y in s ==> y in {}) ==> s == {};
    x :| x in s;
  }

  /** Any member: the next key of a loop over a map. */
  method Pick<T(==)>(s: set<T>) returns (x: T)
    requires s != {}
    ensures x in s
  {
    ghost var w := SomeMember(s);
    x :| x in s;
  }

  lemma SubsetSize<T>(s: set<T>, t: set<T>)
    requires s <= t
    ensures |s| <= |t|
    ensures |s| == |t| ==> s == t
  {
    assert t == s + (t - s);
    if |s| == |t| {
      assert |t - s| == 0;
    }
  }

  lemma SubmapSize<K, V>(m: map<K, V>, n: map<K, V>)
    requires m.Keys <= n.Keys
    ensures |m| <= |n|
  {
    SubsetSize(m.Keys, n.Keys);
    assert |m| == |m.Keys| && |n| == |n.Keys|;
  }

  lemma InsertMembers<T>(s: seq<T>, i: nat, x: T)
    requires i <= |s|
    ensures forall y :: y in s[..i] + [x] + s[i..] <==> y == x || y in s
  {
    assert s == s[..i] + s[i..];
  }
}

/**
 * The entity base contract: every stored record carries an identity. The
 * identity type is modelled as int; the rest of the record is the type
 * parameter V.
 */
module Entities {
  import opened Linq

  datatype Entity<V> = Entity(Id: int, Data: V)

  /** No two entities of the store share an identity. */
  predicate UniqueIds<V>(s: seq<Entity<V>>) {
    forall i, j :: 0 <= i < j < |s| ==> s[i].Id != s[j].Id
  }

  /** The fallback ordering of the paged query: `OrderBy(t => t.Id)`. */
  function ById<V>(a: Entity<V>, b: Entity<V>): bool {
    a.Id <= b.Id
  }

  lemma ByIdIsTotalPreorder<V(!new)>()
    ensures TotalPreorder<Entity<V>>(ById)
  {
  }

  /** With distinct identities, an entity occurs at most once in the store. */
  lemma {:induction false} UniqueIdsOccursOnce<V>(s: seq<Entity<V>>, e: Entity<V>)
    requires UniqueIds(s)
    ensures multiset(s)[e] <= 1
  {
    if s != [] {
      assert s == [s[0]] + s[1..];
      UniqueIdsOccursOnce(s[1..], e);
      if s[0] == e {
        assert e !in s[1..] by {
          forall k | 0 <= k < |s[1..]| ensures s[1..][k] != e {
            assert s[1..][k] == s[k + 1];
          }
        }
      }
    }
  }

  /** An element at two positions occurs at least twice. */
  lemma TwiceAtTwoPositions<T>(t: seq<T>, i: int, j: int)
    requires 0 <= i < j < |t| && t[i] == t[j]
    ensures multiset(t)[t[i]] >= 2
  {
    assert t == t[..j] + t[j..];
    assert t[i] in t[..j];
    assert t[j] in t[j..];
  }

  /** Any selection of the store's entities (a sub-multiset) keeps identities distinct. */
  lemma UniqueIdsSubMultiset<V>(s: seq<Entity<V>>, t: seq<Entity<V>>)
    requires UniqueIds(s) && multiset(t) <= multiset(s)
    ensures UniqueIds(t)
  {
    forall i, j | 0 <= i < j < |t| ensures t[i].Id != t[j].Id {
      if t[i].Id == t[j].Id {
        assert t[i] in multiset(s) && t[j] in multiset(s);
        var a :| 0 <= a < |s| && s[a] == t[i];
        var b :| 0 <= b < |s| && s[b] == t[j];
        assert a == b;
        TwiceAtTwoPositions(t, i, j);
        UniqueIdsOccursOnce(s, t[i]);
      }
    }
  }

  /** Sorted by identity, and identities unique: identities strictly increase. */
  lemma SortedByIdStrict<V>(s: seq<Entity<V>>)
    requires Sorted(s, ById) && UniqueIds(s)
    ensures forall i, j :: 0 <= i < j < |s| ==> s[i].Id < s[j].Id
  {
  }
}

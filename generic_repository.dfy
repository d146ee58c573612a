/**
 * The generic repository over one entity type. The store (the entity set of
 * the session) is a sequence of entities with distinct identities; filters are
 * predicates, orderings are comparators, and include-loaders only shape the
 * loaded graph, so they are the identity here and do not appear.
 *
 * Queries are functions of the store; the operations that change the entity
 * set are methods of the class Repository at the end of this module.
 */
module GenericRepository {
  import opened Wrappers
  import opened Linq
  import opened Entities
  import opened Pagination

  /**
   * The page value of the repository's paginators. Its declaring file is not
   * part of this model; the fields are the ones the paginators set.
   */
  datatype PaginationResult<T> = PaginationResult(Content: seq<T>, ItemAmount: int, CurrentPage: int, PageSize: int)

  // ---------------------------------------------------------------- lookups

  /** `Exists(id)`: `Any(e => e.Id.Equals(id))`. */
  function Exists<V>(s: seq<Entity<V>>, id: int): (r: bool)
    ensures r <==> exists e :: e in s && e.Id == id
  {
    var found := Any(s, (e: Entity<V>) => e.Id == id);
    assert found ==> exists i :: 0 <= i < |s| && s[i].Id == id;
    found
  }

  /**
   * `GetById(id)` (the store's key lookup), and `GetByIdAsync(id, include)`
   * (`FirstOrDefault(x => x.Id.Equals(id))`): the entity with that identity,
   * or none when there is none; not finding it is not an error.
   */
  function GetById<V>(s: seq<Entity<V>>, id: int): (r: Option<Entity<V>>)
    ensures r.Some? <==> Exists(s, id)
    ensures r.Some? ==> r.value in s && r.value.Id == id
  {
    First(s, (e: Entity<V>) => e.Id == id)
  }

  /** With distinct identities, the key lookup returns the one entity holding that key. */
  lemma GetByIdFindsStored<V>(s: seq<Entity<V>>, k: int)
    requires UniqueIds(s) && 0 <= k < |s|
    ensures GetById(s, s[k].Id) == Some(s[k])
  {
    var r := GetById(s, s[k].Id);
    var i :| 0 <= i < |s| && s[i] == r.value && s[i].Id == s[k].Id;
    assert i == k;
  }

  /**
   * `Find(match)` and `FindAsync(match)`: `SingleOrDefault(match)`. None when
   * nothing matches, the one match when exactly one matches, and a failure
   * when two or more match.
   */
  function Find<V(==)>(s: seq<Entity<V>>, matches: Entity<V> -> bool): (r: Result<Option<Entity<V>>, QueryError>)
    ensures r.Failure? <==> exists i, j :: 0 <= i < j < |s| && matches(s[i]) && matches(s[j])
    ensures r.Success? && r.value.None? <==> forall e :: e in s ==> !matches(e)
    ensures r.Success? && r.value.Some? ==> r.value.value in s && matches(r.value.value)
    ensures r.Success? && r.value.Some? ==> forall e :: e in s && matches(e) ==> e == r.value.value
  {
    var r := Single(s, matches);
    assert r.Failure? <==> TwoMatches(s, matches);
    r
  }

  /**
   * `FindAsync(filter, include)`: `FirstOrDefault(filter)`. The first entity
   * in store order satisfying the filter, or none; several matches are not an
   * error.
   */
  function FindFirst<V>(s: seq<Entity<V>>, filter: Entity<V> -> bool): (r: Option<Entity<V>>)
    ensures r.None? <==> forall e :: e in s ==> !filter(e)
    ensures r.Some? ==> exists i :: 0 <= i < |s| && s[i] == r.value && filter(s[i]) &&
                                    forall j :: 0 <= j < i ==> !filter(s[j])
  {
    First(s, filter)
  }

  /**
   * The two lookups agree whenever the strict one does not fail: they return
   * the same entity, or both none.
   */
  lemma FindAgreesWithFindFirst<V>(s: seq<Entity<V>>, matches: Entity<V> -> bool)
    requires Find(s, matches).Success?
    ensures Find(s, matches).value == FindFirst(s, matches)
  {
    var f, g := Find(s, matches), FindFirst(s, matches);
    if f.value.Some? {
      var i :| 0 <= i < |s| && s[i] == g.value && matches(s[i]) && forall j :: 0 <= j < i ==> !matches(s[j]);
      assert s[i] == f.value.value;
    }
  }

  /**
   * On a predicate matching two entities, the strict lookup fails while the
   * first-match lookup returns the first of them.
   */
  lemma AmbiguousMatch<V>(s: seq<Entity<V>>, matches: Entity<V> -> bool, i: int, j: int)
    requires 0 <= i < j < |s| && matches(s[i]) && matches(s[j])
    requires forall k :: 0 <= k < i ==> !matches(s[k])
    ensures Find(s, matches).Failure?
    ensures FindFirst(s, matches) == Some(s[i])
  {
    var g := FindFirst(s, matches);
    var k :| 0 <= k < |s| && s[k] == g.value && matches(s[k]) && forall m :: 0 <= m < k ==> !matches(s[m]);
    assert k == i;
  }

  // ---------------------------------------------------------------- composed queries

  /**
   * `GetAllAsync(include, filter, orderBy)` (and `GetAllAsync(filter, orderBy)`):
   * filter, then include (the identity), then the caller's ordering if any.
   * Without an ordering the filtered entities keep their store order.
   */
  function GetAll<V(==,!new)>(s: seq<Entity<V>>, filter: Option<Entity<V> -> bool>, orderBy: Option<Ordering<Entity<V>>>): (r: seq<Entity<V>>)
    ensures forall e :: e in r <==> e in s && Satisfies(filter, e)
    ensures multiset(r) == multiset(Filtered(s, filter))
    ensures |r| == |Filtered(s, filter)|
    ensures orderBy.None? ==> r == Filtered(s, filter)
    ensures orderBy.Some? && TotalPreorder(orderBy.value) ==> Sorted(r, orderBy.value)
  {
    var query := Filtered(s, filter);
    match orderBy
    case None => query
    case Some(le) =>
      var r := OrderBy(query, le);
      assert forall e :: e in r <==> e in multiset(r);
      assert TotalPreorder(le) ==> Sorted(r, le) by {
        if TotalPreorder(le) { OrderBySorted(query, le); }
      }
      r
  }

  /** The ordering of the paged query: the caller's, or by identity when there is none. */
  function PagedOrdering<V>(orderBy: Option<Ordering<Entity<V>>>): Ordering<Entity<V>> {
    orderBy.GetOr(ById)
  }

  /** The paged query applies the window only to a page number and size that are both at least 1. */
  predicate PagingRequested(pageNumber: int, pageSize: int) {
    pageNumber >= 1 && pageSize >= 1
  }

  /** The 32-bit offset of a requested page does not overflow. */
  predicate PagedOffsetFits(pageNumber: int, pageSize: int) {
    PagingRequested(pageNumber, pageSize) ==> Offset(pageNumber, pageSize) <= Int32Max
  }

  /**
   * The paged `GetAllAsync(pageNumber, pageSize, include, filter, orderBy)`:
   * filter, include, order by the caller's ordering or else by identity, and
   * then, when both the page number and the size are at least 1, the window
   * `Skip((pageNumber - 1) * pageSize).Take(pageSize)`; otherwise the whole
   * ordered list.
   */
  function GetAllPaged<V(==,!new)>(s: seq<Entity<V>>, pageNumber: int, pageSize: int,
                                   filter: Option<Entity<V> -> bool>, orderBy: Option<Ordering<Entity<V>>>): (r: seq<Entity<V>>)
    requires PagedOffsetFits(pageNumber, pageSize)
    ensures forall e :: e in r ==> e in s && Satisfies(filter, e)
    ensures PagingRequested(pageNumber, pageSize) ==>
              r == PageOf(GetAll(s, filter, Some(PagedOrdering(orderBy))), pageNumber, pageSize)
    ensures !PagingRequested(pageNumber, pageSize) ==>
              r == GetAll(s, filter, Some(PagedOrdering(orderBy)))
  {
    var all := GetAll(s, filter, Some(PagedOrdering(orderBy)));
    if PagingRequested(pageNumber, pageSize) then
      WindowMembers(all, Offset(pageNumber, pageSize), pageSize);
      PageOf(all, pageNumber, pageSize)
    else all
  }

  /**
   * The paged query is sorted by its ordering: by identity when the caller
   * gives none, and by the caller's ordering when that is a total preorder.
   */
  lemma GetAllPagedSorted<V(!new)>(s: seq<Entity<V>>, pageNumber: int, pageSize: int,
                                   filter: Option<Entity<V> -> bool>, orderBy: Option<Ordering<Entity<V>>>)
    requires PagedOffsetFits(pageNumber, pageSize)
    ensures orderBy.None? ==> Sorted(GetAllPaged(s, pageNumber, pageSize, filter, orderBy), ById)
    ensures orderBy.Some? && TotalPreorder(orderBy.value) ==>
              Sorted(GetAllPaged(s, pageNumber, pageSize, filter, orderBy), orderBy.value)
  {
    var le := PagedOrdering(orderBy);
    var all := GetAll(s, filter, Some(le));
    ByIdIsTotalPreorder<V>();
    if TotalPreorder(le) && PagingRequested(pageNumber, pageSize) {
      WindowSorted(all, Offset(pageNumber, pageSize), pageSize, le);
    }
  }

  /** The paged query's page never holds more than pageSize entities. */
  lemma GetAllPagedAtMostPageSize<V(!new)>(s: seq<Entity<V>>, pageNumber: int, pageSize: int,
                                              filter: Option<Entity<V> -> bool>, orderBy: Option<Ordering<Entity<V>>>)
    requires PagingRequested(pageNumber, pageSize) && Offset(pageNumber, pageSize) <= Int32Max
    ensures |GetAllPaged(s, pageNumber, pageSize, filter, orderBy)| <= pageSize
  {
  }

  /** Without a caller ordering, the paged query lists distinct identities in increasing order. */
  lemma GetAllPagedIdsIncrease<V(!new)>(s: seq<Entity<V>>, pageNumber: int, pageSize: int, filter: Option<Entity<V> -> bool>)
    requires UniqueIds(s) && PagedOffsetFits(pageNumber, pageSize)
    ensures var r := GetAllPaged(s, pageNumber, pageSize, filter, None);
            forall i, j :: 0 <= i < j < |r| ==> r[i].Id < r[j].Id
  {
    var all := GetAll(s, filter, Some(PagedOrdering<V>(None)));
    assert multiset(all) <= multiset(s);
    UniqueIdsSubMultiset(s, all);
    var r := GetAllPaged(s, pageNumber, pageSize, filter, None);
    GetAllPagedSorted(s, pageNumber, pageSize, filter, None);
    if PagingRequested(pageNumber, pageSize) {
      WindowUniqueIds(all, Offset(pageNumber, pageSize), r);
    }
    SortedByIdStrict(r);
  }

  /** A window of a store with distinct identities has distinct identities. */
  lemma WindowUniqueIds<V>(all: seq<Entity<V>>, off: nat, r: seq<Entity<V>>)
    requires UniqueIds(all)
    requires |r| > 0 ==> off + |r| <= |all|
    requires forall i :: 0 <= i < |r| ==> r[i] == all[off + i]
    ensures UniqueIds(r)
  {
    forall i, j | 0 <= i < j < |r| ensures r[i].Id != r[j].Id {
      assert r[i] == all[off + i] && r[j] == all[off + j];
    }
  }

  // ---------------------------------------------------------------- paginators

  /**
   * `AsPaginatedInRAM(page, pageSize, includes, filter, orderBy)`: clamps the
   * page and size, materialises the whole filtered (and, if asked, ordered)
   * list, and slices the page out of it. ItemAmount is the size of the whole
   * filtered list. No identity fallback: without an ordering the page is cut
   * from the store order.
   */
  function AsPaginatedInRAM<V(==,!new)>(s: seq<Entity<V>>, page: int, pageSize: int,
                                        filter: Option<Entity<V> -> bool>, orderBy: Option<Ordering<Entity<V>>>): (r: PaginationResult<Entity<V>>)
    requires OffsetFits(page, pageSize)
    ensures r.CurrentPage >= 1 && r.PageSize >= 1
    ensures page >= 1 ==> r.CurrentPage == page
    ensures page < 1 ==> r.CurrentPage == 1
    ensures pageSize >= 1 ==> r.PageSize == pageSize
    ensures pageSize < 1 ==> r.PageSize == DefaultPageSize
    ensures r.ItemAmount == |Filtered(s, filter)|
    ensures |r.Content| <= r.PageSize
    ensures r.Content == PageOf(GetAll(s, filter, orderBy), r.CurrentPage, r.PageSize)
  {
    var p := ClampPage(page);
    var size := ClampPageSize(pageSize);
    var items := GetAll(s, filter, orderBy);
    PaginationResult(PageOf(items, p, size), |items|, p, size)
  }

  /**
   * `AsPaginated(page, pageSize, includes, filter, orderBy)`: clamps the page
   * and size and runs the paged query (with its identity fallback ordering).
   * ItemAmount is set from the page that came back, so it is the page length.
   */
  function AsPaginated<V(==,!new)>(s: seq<Entity<V>>, page: int, pageSize: int,
                                   filter: Option<Entity<V> -> bool>, orderBy: Option<Ordering<Entity<V>>>): (r: PaginationResult<Entity<V>>)
    requires OffsetFits(page, pageSize)
    ensures r.CurrentPage >= 1 && r.PageSize >= 1
    ensures page >= 1 ==> r.CurrentPage == page
    ensures page < 1 ==> r.CurrentPage == 1
    ensures pageSize >= 1 ==> r.PageSize == pageSize
    ensures pageSize < 1 ==> r.PageSize == DefaultPageSize
    ensures r.ItemAmount == |r.Content| <= r.PageSize
    ensures r.Content == PageOf(GetAll(s, filter, Some(PagedOrdering(orderBy))), r.CurrentPage, r.PageSize)
  {
    var p := ClampPage(page);
    var size := ClampPageSize(pageSize);
    var items := GetAllPaged(s, p, size, filter, orderBy);
    PaginationResult(items, |items|, p, size)
  }

  /** Without a caller ordering, AsPaginated's page is sorted by identity. */
  lemma AsPaginatedSortedById<V(!new)>(s: seq<Entity<V>>, page: int, pageSize: int, filter: Option<Entity<V> -> bool>)
    requires OffsetFits(page, pageSize)
    ensures Sorted(AsPaginated(s, page, pageSize, filter, None).Content, ById)
  {
    GetAllPagedSorted(s, ClampPage(page), ClampPageSize(pageSize), filter, None);
  }

  /**
   * AsPaginated with ItemAmount set to the size of the whole filtered list,
   * as AsPaginatedInRAM reports it; the page itself is unchanged.
   */
  function AsPaginatedIntended<V(==,!new)>(s: seq<Entity<V>>, page: int, pageSize: int,
                                           filter: Option<Entity<V> -> bool>, orderBy: Option<Ordering<Entity<V>>>): (r: PaginationResult<Entity<V>>)
    requires OffsetFits(page, pageSize)
    ensures r.Content == AsPaginated(s, page, pageSize, filter, orderBy).Content
    ensures r.CurrentPage == AsPaginated(s, page, pageSize, filter, orderBy).CurrentPage
    ensures r.PageSize == AsPaginated(s, page, pageSize, filter, orderBy).PageSize
    ensures r.ItemAmount == |Filtered(s, filter)|
  {
    var p := ClampPage(page);
    var size := ClampPageSize(pageSize);
    var items := GetAllPaged(s, p, size, filter, orderBy);
    PaginationResult(items, |Filtered(s, filter)|, p, size)
  }

  /**
   * No two distinct stored entities tie under le. The store may place tied
   * rows differently in two queries, so only then is the order of a query
   * fixed by le alone.
   */
  ghost predicate NoTies<V>(s: seq<Entity<V>>, le: Ordering<Entity<V>>) {
    forall a, b :: a in s && b in s && le(a, b) && le(b, a) ==> a == b
  }

  /**
   * With a caller ordering under which no two stored entities tie, both
   * paginators cut the same page from the same ordered list: same content,
   * page number and size.
   */
  lemma PaginatorsAgreeOnContentGivenOrdering<V(!new)>(s: seq<Entity<V>>, page: int, pageSize: int,
                                                     filter: Option<Entity<V> -> bool>, orderBy: Option<Ordering<Entity<V>>>)
    requires OffsetFits(page, pageSize) && orderBy.Some? && NoTies(s, orderBy.value)
    ensures var a, b := AsPaginated(s, page, pageSize, filter, orderBy), AsPaginatedInRAM(s, page, pageSize, filter, orderBy);
            a.Content == b.Content && a.CurrentPage == b.CurrentPage && a.PageSize == b.PageSize
  {
    assert Some(PagedOrdering(orderBy)) == orderBy;
  }

  /** Pages after the first start at least one full page in. */
  lemma OffsetOfLaterPage(pageNumber: int, pageSize: int)
    requires pageNumber >= 2 && pageSize >= 1
    ensures Offset(pageNumber, pageSize) >= pageSize
  {
  }

  /**
   * The paginators report the same ItemAmount exactly when the filtered list
   * is empty, or the first page is asked for and the whole list fits on it.
   */
  lemma ItemAmountsAgreeIff<V(!new)>(s: seq<Entity<V>>, page: int, pageSize: int,
                                    filter: Option<Entity<V> -> bool>, orderBy: Option<Ordering<Entity<V>>>)
    requires OffsetFits(page, pageSize)
    ensures var n := |Filtered(s, filter)|;
            AsPaginated(s, page, pageSize, filter, orderBy).ItemAmount == AsPaginatedInRAM(s, page, pageSize, filter, orderBy).ItemAmount
            <==> n == 0 || (ClampPage(page) == 1 && n <= ClampPageSize(pageSize))
  {
    var p, size := ClampPage(page), ClampPageSize(pageSize);
    if p >= 2 {
      OffsetOfLaterPage(p, size);
    }
  }

  /**
   * Without a caller ordering the paginators cut different pages: in store
   * order (in RAM) and by identity (store-level).
   */
  lemma PaginatorsOrderDiffer()
    ensures var s := [Entity(2, 0), Entity(1, 0)];
            && AsPaginatedInRAM(s, 1, 10, None, None).Content == [Entity(2, 0), Entity(1, 0)]
            && AsPaginated(s, 1, 10, None, None).Content == [Entity(1, 0), Entity(2, 0)]
  {
    var s := [Entity(2, 0), Entity(1, 0)];
    assert s[1..] == [Entity(1, 0)] && s[1..][1..] == [];
    assert OrderBy(s[1..], ById) == [Entity(1, 0)];
    assert Insert(Entity(2, 0), [Entity(1, 0)], ById) == [Entity(1, 0)] + Insert(Entity(2, 0), [], ById);
    var sorted := OrderBy(s, ById);
    assert sorted == [Entity(1, 0), Entity(2, 0)];
    assert GetAll(s, None, Some(ById)) == sorted;
    var a := PageOf(sorted, 1, 10);
    assert a[0] == sorted[0] && a[1] == sorted[1];
    var b := PageOf(s, 1, 10);
    assert b[0] == s[0] && b[1] == s[1];
  }

  /**
   * Three matching entities, two per page: AsPaginated reports an ItemAmount
   * of 2, the length of the first page, while three entities match.
   */
  lemma AsPaginatedItemAmountIsPageLength()
    ensures var s := [Entity(1, 'A'), Entity(2, 'B'), Entity(3, 'C')];
            && |Filtered(s, None)| == 3
            && AsPaginated(s, 1, 2, None, None).ItemAmount == 2
            && AsPaginatedInRAM(s, 1, 2, None, None).ItemAmount == 3
  {
    var s := [Entity(1, 'A'), Entity(2, 'B'), Entity(3, 'C')];
    ItemAmountsAgreeIff(s, 1, 2, None, None);
  }

  /**
   * The corrected paginator always reports the same ItemAmount as the in-RAM
   * one, and with a caller ordering free of ties its whole result is the same.
   */
  lemma IntendedAgreesWithInRAM<V(!new)>(s: seq<Entity<V>>, page: int, pageSize: int,
                                        filter: Option<Entity<V> -> bool>, orderBy: Option<Ordering<Entity<V>>>)
    requires OffsetFits(page, pageSize)
    ensures AsPaginatedIntended(s, page, pageSize, filter, orderBy).ItemAmount ==
            AsPaginatedInRAM(s, page, pageSize, filter, orderBy).ItemAmount
    ensures orderBy.Some? && NoTies(s, orderBy.value) ==>
              AsPaginatedIntended(s, page, pageSize, filter, orderBy) == AsPaginatedInRAM(s, page, pageSize, filter, orderBy)
  {
    if orderBy.Some? && NoTies(s, orderBy.value) {
      PaginatorsAgreeOnContentGivenOrdering(s, page, pageSize, filter, orderBy);
    }
  }

  // ---------------------------------------------------------------- the store's updates

  /** The filter that keeps every entity not holding `id`. */
  function HasOtherId<V>(id: int): Entity<V> -> bool {
    (e: Entity<V>) => e.Id != id
  }

  /** The store after removing, by key, the entity holding `id`. */
  function Without<V(==,!new)>(s: seq<Entity<V>>, id: int): (r: seq<Entity<V>>)
    ensures forall e :: e in r <==> e in s && e.Id != id
    ensures multiset(r) <= multiset(s)
  {
    Where(s, HasOtherId(id))
  }

  /** Removing a key that is stored at index i removes exactly that entity and keeps the order of the rest. */
  lemma WithoutStored<V(!new)>(s: seq<Entity<V>>, i: int)
    requires UniqueIds(s) && 0 <= i < |s|
    ensures Without(s, s[i].Id) == s[..i] + s[i + 1..]
  {
    WhereDropsOne(s, HasOtherId(s[i].Id), i);
  }

  /** Removing a key that is not stored changes nothing. */
  lemma WithoutAbsent<V(!new)>(s: seq<Entity<V>>, id: int)
    requires !Exists(s, id)
    ensures Without(s, id) == s
  {
    WhereKeepsAll(s, HasOtherId(id));
  }

  /** Replacing the entity at index i by one with the same key keeps keys distinct, and the key now finds the new entity. */
  lemma ReplaceStored<V>(s: seq<Entity<V>>, i: int, e: Entity<V>)
    requires UniqueIds(s) && 0 <= i < |s| && s[i].Id == e.Id
    ensures UniqueIds(s[..i] + [e] + s[i + 1..])
    ensures GetById(s[..i] + [e] + s[i + 1..], e.Id) == Some(e)
  {
    var t := s[..i] + [e] + s[i + 1..];
    assert forall k :: 0 <= k < |t| ==> t[k].Id == s[k].Id;
    GetByIdFindsStored(t, i);
  }

  /** The store after removing, by key, every entity of a batch. */
  function WithoutAll<V(==,!new)>(s: seq<Entity<V>>, batch: seq<Entity<V>>): (r: seq<Entity<V>>)
    ensures forall e :: e in r <==> e in s && !Exists(batch, e.Id)
    ensures multiset(r) <= multiset(s)
  {
    Where(s, (e: Entity<V>) => !Exists(batch, e.Id))
  }

  /** `ExistsAsync(predicate)`: `AnyAsync(predicate)`, some stored entity satisfies it. */
  function ExistsMatching<V>(s: seq<Entity<V>>, condition: Entity<V> -> bool): (r: bool)
    ensures r <==> exists e :: e in s && condition(e)
  {
    var found := Any(s, condition);
    assert found ==> exists i :: 0 <= i < |s| && condition(s[i]);
    found
  }

  /**
   * The entity set of one session, as the repository changes it. Identities
   * stay distinct: an insert of a stored key, an update of an unknown key and
   * a batch insert that would repeat a key are refused and change nothing.
   */
  class Repository<V(==,!new)> {
    var entities: seq<Entity<V>>

    ghost predicate Valid()
      reads this
    {
      UniqueIds(entities)
    }

    constructor(initial: seq<Entity<V>>)
      requires UniqueIds(initial)
      ensures Valid() && entities == initial
    {
      entities := initial;
    }

    /** `AddAsync(entity)`: stores a new entity and returns it; a stored key is refused. */
    method Add(e: Entity<V>) returns (r: Option<Entity<V>>)
      requires Valid()
      modifies this
      ensures Valid()
      ensures Exists(old(entities), e.Id) ==> r.None? && entities == old(entities)
      ensures !Exists(old(entities), e.Id) ==> r == Some(e) && entities == old(entities) + [e]
      ensures GetById(entities, e.Id).Some?
      ensures r.Some? ==> GetById(entities, e.Id) == Some(e)
    {
      if Exists(entities, e.Id) {
        r := None;
      } else {
        entities := entities + [e];
        r := Some(e);
        GetByIdFindsStored(entities, |entities| - 1);
      }
    }

    /** `AddRangeAsync(entities)`: stores a batch of new entities; a batch repeating a key is refused whole. */
    method AddRange(batch: seq<Entity<V>>) returns (ok: bool)
      requires Valid()
      modifies this
      ensures Valid()
      ensures ok <==> UniqueIds(old(entities) + batch)
      ensures ok ==> entities == old(entities) + batch
      ensures !ok ==> entities == old(entities)
    {
      ok := UniqueIds(entities + batch);
      if ok {
        entities := entities + batch;
      }
    }

    /** `Delete(id)`: removes the entity holding `id`; an unknown key is ignored. */
    method DeleteById(id: int)
      requires Valid()
      modifies this
      ensures Valid()
      ensures !Exists(entities, id)
      ensures !Exists(old(entities), id) ==> entities == old(entities)
      ensures forall i :: 0 <= i < |old(entities)| && old(entities)[i].Id == id ==>
                entities == old(entities)[..i] + old(entities)[i + 1..]
    {
      ghost var before := entities;
      entities := Without(entities, id);
      UniqueIdsSubMultiset(before, entities);
      if Exists(before, id) {
        forall i | 0 <= i < |before| && before[i].Id == id
          ensures entities == before[..i] + before[i + 1..]
        {
          WithoutStored(before, i);
        }
      } else {
        WithoutAbsent(before, id);
      }
    }

    /** `Delete(entity)`: removes the stored entity with the key of `entity`. */
    method Delete(entity: Entity<V>)
      requires Valid()
      modifies this
      ensures Valid()
      ensures !Exists(entities, entity.Id)
      ensures entities == Without(old(entities), entity.Id)
    {
      entities := Without(entities, entity.Id);
      UniqueIdsSubMultiset(old(entities), entities);
    }

    /** `DeleteRange(entities)`: removes every stored entity whose key is the key of one in the batch. */
    method DeleteRange(batch: seq<Entity<V>>)
      requires Valid()
      modifies this
      ensures Valid()
      ensures forall e :: e in entities <==> e in old(entities) && !Exists(batch, e.Id)
      ensures multiset(entities) <= multiset(old(entities))
      ensures entities == WithoutAll(old(entities), batch)
    {
      entities := WithoutAll(entities, batch);
      UniqueIdsSubMultiset(old(entities), entities);
    }

    /**
     * `Update(entity)`: the stored entity with that key is replaced in place
     * and the new one returned; an unknown key is refused.
     */
    method Update(e: Entity<V>) returns (r: Option<Entity<V>>)
      requires Valid()
      modifies this
      ensures Valid()
      ensures !Exists(old(entities), e.Id) ==> r.None? && entities == old(entities)
      ensures Exists(old(entities), e.Id) ==>
                && r == Some(e)
                && exists i :: 0 <= i < |old(entities)| && old(entities)[i].Id == e.Id &&
                               entities == old(entities)[..i] + [e] + old(entities)[i + 1..]
      ensures r.Some? ==> GetById(entities, e.Id) == Some(e)
    {
      if Exists(entities, e.Id) {
        var i :| 0 <= i < |entities| && entities[i].Id == e.Id;
        ReplaceStored(entities, i, e);
        entities := entities[..i] + [e] + entities[i + 1..];
        assert old(entities)[i].Id == e.Id && entities == old(entities)[..i] + [e] + old(entities)[i + 1..];
        r := Some(e);
      } else {
        r := None;
      }
    }
  }
}

# Paging and query composition of a generic EF repository, in Dafny

This project models the paging and query layer of an ASP.NET application. The layer has three parts:

- The generic repository (`GenericRepository<TEntity, TEntityId>`). It composes filter, include, ordering and page window over an entity set. It looks entities up by key or by predicate, offers two paginators, and adds, updates and removes entities.
- The API paging helper (`Pagination.ApplyPaginationAsync`). It clamps the page number and size, counts the whole query, cuts the page window `Skip((page - 1) * size).Take(size)` and maps it to DTOs.
- The immutable page value `PaginatedResult<T>`. It carries one derived member, `TotalPages = ceil(TotalCount / PageSize)`.

The model is organised as follows:

- The store (the `DbSet` of one session) is a sequence of `Entity(Id, Data)` values. `UniqueIds` says their identities are distinct.
- Filters are predicates. An ordering is a comparator `le(a, b)`, read as "a may come before b".
- `OrderBy` is an insertion sort, proved to be a permutation of its input. For a total preorder it is also proved sorted.
- Include-loaders only shape the loaded object graph, so they are the identity and do not appear.
- The LINQ operators the code composes are in `linq.dfy`: `Where`, `Any`, `FirstOrDefault`, `SingleOrDefault`, `Skip`, `Take`, `Select` and `OrderBy`. Each is specified by what it means for its input. For `Where`, the lemmas `WhereAppend` and `WhereCount` also fix the order and the multiplicity of the kept elements.
- The queries of the repository are functions of the store.
- The operations that change the entity set are methods of the class `Repository`, over a `seq` field. Its invariant `Valid()` says that identities stay distinct.
- The C# `int` page offset `(page - 1) * size` must not overflow. This is a precondition (`OffsetFits`, `PagedOffsetFits`), so the page arithmetic is exact.

A page result's `ItemAmount` is meant to be the number of matching entities, which is what `AsPaginatedInRAM` reports. One might also expect both paginators to return the same content order and the same `ItemAmount`. In the code, neither holds, and the model follows the code:

- `AsPaginated` sets `ItemAmount` from the page it got back, so it reports the page length.
- Without a caller ordering, the store-level query falls back to ordering by identity. The in-RAM paginator keeps store order.

`AsPaginatedItemAmountIsPageLength`, `ItemAmountsAgreeIff` and `PaginatorsOrderDiffer` state these differences. `PaginatorsAgreeOnContentGivenOrdering` shows the two paginators agree on the page when the caller supplies an ordering under which no two stored entities tie.

Files:

- `wrappers.dfy`: `Option` and `Result`.
- `linq.dfy`: the query operators.
- `entities.dfy`: entities, distinct identities and the identity ordering.
- `paginated_result.dfy`: the page value and `TotalPages`.
- `pagination.dfy`: the API paging helper.
- `generic_repository.dfy`: the repository's queries, its paginators and the class `Repository`.

## Model

| member | source | states |
|---|---|---|
| Linq.Where | Repository/Implements/GenericRepository.cs:199-202 | the result holds exactly the elements of the input that satisfy the filter, as a sub-multiset of it and never longer |
| Linq.Filtered | Repository/Implements/GenericRepository.cs:199-202 | an absent filter keeps the query unchanged; a present one keeps exactly the satisfying elements |
| Linq.WhereAppend | Repository/Implements/GenericRepository.cs:199-202 | filtering a concatenation concatenates the filtered parts, so the kept elements stay in input order |
| Linq.WhereCount | Repository/Implements/GenericRepository.cs:199-202 | every occurrence of an accepted element is kept, and no occurrence of a rejected one |
| Linq.WhereKeepsAll | Repository/Implements/GenericRepository.cs:199-202 | a filter every element passes returns the input itself |
| Linq.WhereDropsOne | Repository/Implements/GenericRepository.cs:44-51 | a filter that rejects only index i returns the input with exactly that element removed, the rest in order |
| Linq.Any | Repository/Implements/GenericRepository.cs:53-56 | true exactly when some element satisfies the predicate |
| Linq.First | Repository/Implements/GenericRepository.cs:84 | none exactly when nothing matches; otherwise the match with no earlier match |
| Linq.Single | Repository/Implements/GenericRepository.cs:63-66 | fails exactly when two positions match; none exactly when nothing matches; otherwise the one and only match |
| Linq.Skip | API/Helper/Paging/Pagination.cs:16 | drops the first n elements (none for a negative n, all when n exceeds the length) and keeps the rest in order |
| Linq.Take | API/Helper/Paging/Pagination.cs:17 | keeps the first n elements (none for a negative n, all when n exceeds the length) |
| Linq.Window | API/Helper/Paging/Pagination.cs:15-18 | the window holds min(count, max(0, length - offset)) elements, is empty once the offset reaches the length, and its i-th element is the input's element at offset + i |
| Linq.WindowMembers | API/Helper/Paging/Pagination.cs:15-18 | a window holds only elements of the sequence it is cut from |
| Linq.Select | API/Helper/Paging/Pagination.cs:20 | the mapped list has the input's length and its i-th element is the map of the input's i-th |
| Linq.OrderBy | Repository/Implements/GenericRepository.cs:209-212 | the ordered list is a permutation (same multiset) of the input |
| Linq.InsertSorted | Repository/Implements/GenericRepository.cs:209-212 | inserting into a sorted list keeps it sorted for a total preorder |
| Linq.OrderBySorted | Repository/Implements/GenericRepository.cs:209-212 | for a total preorder, the ordered list is sorted |
| Linq.WindowSorted | Repository/Implements/GenericRepository.cs:244-249 | a page window of a sorted list is sorted |
| Entities.ByIdIsTotalPreorder | Repository/Implements/GenericRepository.cs:241 | the identity fallback ordering is total and transitive |
| Entities.UniqueIdsOccursOnce | Repository/Implements/GenericRepository.cs:92-95 | with distinct identities, every entity occurs at most once in the store |
| Entities.UniqueIdsSubMultiset | Repository/Implements/GenericRepository.cs:225-249 | any selection of the store's entities (filtered, ordered, windowed) keeps identities distinct |
| PaginatedResults.PaginatedResult.TotalPages | API/Helper/Paging/PaginatedResult.cs:9 | (TotalPages - 1) * PageSize < TotalCount <= TotalPages * PageSize, which makes it the ceiling of TotalCount / PageSize |
| PaginatedResults.CeilDiv | API/Helper/Paging/PaginatedResult.cs:9 | integer ceiling division: the bounds (r - 1) * d < n <= r * d |
| PaginatedResults.CeilDivUnique | API/Helper/Paging/PaginatedResult.cs:9 | only one integer satisfies the ceiling bounds, so TotalPages is exactly ceil(TotalCount / PageSize) |
| PaginatedResults.TotalPagesZeroIff | API/Helper/Paging/PaginatedResult.cs:9 | for a non-negative count there are no pages exactly when the count is 0 |
| PaginatedResults.TotalPagesBounds | API/Helper/Paging/PaginatedResult.cs:9 | for a positive count there is at least one page and the last page is partly or fully used |
| PaginatedResults.TotalPagesMonotone | API/Helper/Paging/PaginatedResult.cs:9 | for a fixed page size, more items never mean fewer pages |
| Pagination.ClampPage | API/Helper/Paging/Pagination.cs:11 | a page number below 1 becomes 1, and a page number of at least 1 is kept |
| Pagination.ClampPageSize | API/Helper/Paging/Pagination.cs:12 | a page size below 1 becomes 10, and a page size of at least 1 is kept |
| Pagination.Offset | API/Helper/Paging/Pagination.cs:16 | the offset of a page is never negative |
| Pagination.OffsetIsProduct | API/Helper/Paging/Pagination.cs:16 | the offset is (pageNumber - 1) * pageSize |
| Pagination.PageOf | API/Helper/Paging/Pagination.cs:15-18 | the page holds min(size, max(0, total - offset)) items, and its i-th item is the query's item at offset + i |
| Pagination.ApplyPagination | API/Helper/Paging/Pagination.cs:7-23 | page number below 1 becomes 1, otherwise kept; page size below 1 becomes 10, otherwise kept; TotalCount is the length of the whole query whatever the page; the content is the mapped page of the clamped number and size |
| Pagination.ApplyPaginationContent | API/Helper/Paging/Pagination.cs:15-20 | the content has min(size, max(0, total - offset)) DTOs, none once the offset reaches the count, and its i-th is mapToDto of the query's item at offset + i |
| Pagination.PageNonEmptyIff | API/Helper/Paging/Pagination.cs:15-22 | a requested page has content exactly when its number is at most TotalPages |
| Pagination.EveryItemOnItsPage | API/Helper/Paging/Pagination.cs:15-20 | item j of the query is the (j % size)-th DTO of page j / size + 1, and that page is one of the TotalPages pages |
| Pagination.ThreeRecordsTwoPerPage | API/Helper/Paging/Pagination.cs:7-23 | three records, two per page: page 1 holds the first two, page 2 the third, with TotalCount 3 and TotalPages 2 |
| GenericRepository.Exists | Repository/Implements/GenericRepository.cs:53-56 | true exactly when some stored entity has that identity |
| GenericRepository.ExistsMatching | Repository/Implements/GenericRepository.cs:58-61 | true exactly when some stored entity satisfies the predicate |
| GenericRepository.GetById | Repository/Implements/GenericRepository.cs:107-122 | finds an entity exactly when the identity exists; what it finds is stored and holds that identity |
| GenericRepository.GetByIdFindsStored | Repository/Implements/GenericRepository.cs:92-95 | with distinct identities, looking up a stored entity's key returns that very entity |
| GenericRepository.Find | Repository/Implements/GenericRepository.cs:63-71 | fails exactly when two entities match; none exactly when none matches; otherwise a stored match that every match equals |
| GenericRepository.FindFirst | Repository/Implements/GenericRepository.cs:73-85 | none exactly when nothing matches; otherwise the first match in store order, whatever matches follow |
| GenericRepository.FindAgreesWithFindFirst | Repository/Implements/GenericRepository.cs:63-85 | when the strict lookup does not fail, both lookups return the same result |
| GenericRepository.AmbiguousMatch | Repository/Implements/GenericRepository.cs:63-85 | with two matches, the strict lookup fails while the first-match lookup returns the first of them |
| GenericRepository.GetAll | Repository/Implements/GenericRepository.cs:185-214 | the result holds exactly the stored entities passing the filter, as a permutation of the filtered list; without an ordering it is the filtered list in store order; with a total preorder it is sorted |
| GenericRepository.GetAllPaged | Repository/Implements/GenericRepository.cs:216-252 | every entity returned is stored and passes the filter; with page number and size both at least 1 it is that page of the list ordered by the caller's ordering or else by identity, and otherwise the whole ordered list |
| GenericRepository.GetAllPagedSorted | Repository/Implements/GenericRepository.cs:235-242 | the paged query is sorted by identity when no ordering is given, and by the caller's ordering when that is a total preorder |
| GenericRepository.GetAllPagedAtMostPageSize | Repository/Implements/GenericRepository.cs:244-249 | a requested page holds at most pageSize entities |
| GenericRepository.GetAllPagedIdsIncrease | Repository/Implements/GenericRepository.cs:239-249 | without a caller ordering, identities on the page strictly increase |
| GenericRepository.AsPaginatedInRAM | Repository/Implements/GenericRepository.cs:271-293 | the page and size are clamped; ItemAmount is the size of the whole filtered list; the content, at most a page, is the clamped page of the filtered list in the caller's order, or in store order when there is none |
| GenericRepository.AsPaginated | Repository/Implements/GenericRepository.cs:295-321 | the page and size are clamped; the content is the clamped page of the list ordered by the caller's ordering or else by identity; ItemAmount equals the content's length, which is at most the page size |
| GenericRepository.AsPaginatedSortedById | Repository/Implements/GenericRepository.cs:305-316 | without a caller ordering, AsPaginated's page is sorted by identity |
| GenericRepository.AsPaginatedIntended | Repository/Implements/GenericRepository.cs:314-320 | the same page, number and size as AsPaginated, with ItemAmount the size of the whole filtered list |
| GenericRepository.PaginatorsAgreeOnContentGivenOrdering | Repository/Implements/GenericRepository.cs:271-321 | with a caller ordering under which no two stored entities tie, both paginators return the same content, page number and page size |
| GenericRepository.ItemAmountsAgreeIff | Repository/Implements/GenericRepository.cs:289-317 | the paginators' ItemAmounts agree exactly when nothing matches, or the clamped page is 1 and every match fits on it |
| GenericRepository.PaginatorsOrderDiffer | Repository/Implements/GenericRepository.cs:235-242 | without a caller ordering, the in-RAM page keeps store order while the store-level page is ordered by identity |
| GenericRepository.AsPaginatedItemAmountIsPageLength | Repository/Implements/GenericRepository.cs:317 | three matches, two per page: AsPaginated reports 2 where the in-RAM paginator reports 3 |
| GenericRepository.IntendedAgreesWithInRAM | Repository/Implements/GenericRepository.cs:289 | the corrected paginator reports the in-RAM ItemAmount, and with a caller ordering under which no two stored entities tie, its whole result equals the in-RAM one |
| GenericRepository.Without | Repository/Implements/GenericRepository.cs:44-51 | removing a key keeps exactly the entities with another key, as a sub-multiset of the store |
| GenericRepository.WithoutStored | Repository/Implements/GenericRepository.cs:44-51 | removing a stored key removes exactly the entity at its index and keeps the rest in order |
| GenericRepository.WithoutAbsent | Repository/Implements/GenericRepository.cs:44-51 | removing a key that is not stored changes nothing |
| GenericRepository.WithoutAll | Repository/Implements/GenericRepository.cs:265-269 | removing a batch keeps exactly the entities whose key is not the key of a batch entity |
| GenericRepository.ReplaceStored | Repository/Implements/GenericRepository.cs:254-258 | replacing an entity by one with the same key keeps keys distinct, and the key then finds the new entity |
| GenericRepository.Repository.constructor | Repository/Implements/GenericRepository.cs:17-20 | the repository starts from the given entity set, whose identities are distinct |
| GenericRepository.Repository.Add | Repository/Implements/GenericRepository.cs:23-27 | a new key is appended and returned, and is then found by key; a stored key is refused and nothing changes; identities stay distinct |
| GenericRepository.Repository.AddRange | Repository/Implements/GenericRepository.cs:260-263 | the batch is appended exactly when no key repeats; otherwise nothing changes |
| GenericRepository.Repository.DeleteById | Repository/Implements/GenericRepository.cs:44-51 | an absent key changes nothing and raises no error; a stored key loses exactly its entity, the rest in order; afterwards the key does not exist |
| GenericRepository.Repository.Delete | Repository/Implements/GenericRepository.cs:39-42 | the entity with the given entity's key is removed, and nothing else |
| GenericRepository.Repository.DeleteRange | Repository/Implements/GenericRepository.cs:265-269 | exactly the stored entities whose key is a batch entity's key are removed; the rest keep their order |
| GenericRepository.Repository.Update | Repository/Implements/GenericRepository.cs:254-258 | a stored key's entity is replaced in place, and the key then finds the new entity; an unknown key is refused and nothing changes |

## Left out

- Entity Framework change tracking. This covers `AsNoTracking` and the `noTracking` flags, including the discarded `AsNoTracking()` result of the parameterless `GetAllAsync`. It also covers the detached entry state of `GetByIdAsDetached`, staged inserts and deletes, and `SaveChanges`. The store is the session's entity set, and every update takes effect at once.
- Repository.Add, Repository.AddRange, Repository.Update: a duplicate or unknown key makes Entity Framework throw. The model refuses the call instead, returning `None` or `false`, and leaves the entity set unchanged.
- Repository.Delete, Repository.DeleteRange: they remove by key, as Entity Framework identifies entities. Removing an untracked entity whose key is not stored fails only at `SaveChanges`, which is not modelled; the model removes nothing for that entity and reports nothing.
- `async`, `Task`, `ToListAsync`, `CountAsync`, `FindAsync` and `AnyAsync` are modelled as their synchronous results.
- `Count()` and `CountAsync()` are the length of the store. `GetAll()`, `ToListAsReadOnly()` and both `GetAllAsync(noTracking)` overloads without a filter return the store itself (`GetAll(s, None, None)`). The `GetAllAsync(filter, orderBy)` overload is `GetAll` with no include.
- `Console.WriteLine` in both paginators is output only and is left out.
- Include-loaders are the identity, so `GetByIdAsync(id, include)` is `GetById`.
- The key type `TEntityId` is fixed to `int`, so that the identity fallback ordering is the integer order.
- `TotalPages` is computed in `double` with `Math.Ceiling` in the source. It is modelled as exact integer ceiling division, which agrees with the source for every pair of 32-bit operands. The constructor does not guard against a zero page size; `TotalPages` requires a size of at least 1.
- ApplyPagination, AsPaginatedInRAM, AsPaginated, AsPaginatedIntended: the clamped offset `(page - 1) * size` must fit a C# `int` (`OffsetFits`). The 32-bit wrap-around of that product is not modelled.
- GetAllPaged: for a requested page, the offset must fit a C# `int` (`PagedOffsetFits`). The wrap-around is not modelled.
- Linq.OrderBy: it is an insertion sort on a comparator, and it keeps input order among elements that compare equal in both directions. That stability is not proved. A SQL `ORDER BY` leaves the order of ties unspecified. Sortedness is proved only for a total preorder.
- PaginatorsAgreeOnContentGivenOrdering, IntendedAgreesWithInRAM: the paginators run two different store queries, and the store may place tied rows differently in each. The agreement is therefore stated only for an ordering under which no two stored entities tie (`NoTies`). In the model, ties get the same fixed order in both queries, so that premise is not used by the proof.
- `mapToDto` is an arbitrary function parameter.
- The declaring file of `PaginationResult<T>` is not part of this model. Its fields are the four the paginators set.
- `IUnitOfWork` and `AppDbContext` hold no logic checked here (transactions, saving).

## Findings

| source | as written | input that shows it | evidently intended | confidence | as-written member | corrected member |
|---|---|---|---|---|---|---|
| Repository/Implements/GenericRepository.cs:317 | `ItemAmount = items.Count()` counts the page that came back from the paged query | three matching entities, page 1, page size 2: ItemAmount is 2 | ItemAmount is the number of matching entities (3), which is what `AsPaginatedInRAM` reports | medium, not executed | GenericRepository.AsPaginatedItemAmountIsPageLength | GenericRepository.AsPaginatedIntended |

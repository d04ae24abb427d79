# Category service, modelled in Dafny

This project models the category service of a small Spring Boot shop back end
(`CategoryServiceImpl`). The service keeps named category records in a
repository and offers four operations: list all categories, create a category
whose name is not taken, update a category by id, and delete a category by id.
The repository (`CategoryRepository`, a `JpaRepository<Category, Long>` with a
derived `findByCategoryName` query) is modelled by its contract. It holds a map
from id to name, the live ids in insertion order (the order the model lists)
and a counter from which new ids are drawn.

Modules, one per part of the program:

- `Wrappers` (`wrappers.dfy`): `Option`, `Result`, `Outcome`. These stand in for Java's `null`, `Optional` and thrown exceptions.
- `Entities` (`entities.dfy`): the `Category` entity as a mutable object (`categoryId`, `categoryName`) and `Record`, the (id, name) snapshot the store hands back.
- `Repository` (`repository.dfy`): class `CategoryRepository` with fields `records: map<int, string>`, `order: seq<int>` and `nextId`. It also has a ghost set `issued` of every id ever handed out, and `Valid()` ties these fields together.
- `Service` (`service.dfy`): class `CategoryServiceImpl` over a repository, the two exception kinds, and the messages.
- `Decimal` (`decimal.dfy`): how Java renders a `Long` inside a string, plus a parser used to show that the rendering loses nothing.
- `Scenarios` (`scenarios.dfy`): concrete request sequences and a delete-twice property, proved from the operations' contracts alone.

Java exceptions become the `Failure`/`Fail` arm of a result. `APIException`
carries its message. `ResourceNotFoundException` carries its three
constructor arguments (`"Category"`, `"categoryId"`, the id).

Two behaviours of the code are easy to misread, and the model follows the code in both:

- `getAllCategories` on an empty store throws `APIException("no categories have been created")`. It does not return an empty list.
- `createCategory` does not require the payload to carry no id. `save` merges a payload whose id is live, so a create with a fresh name and a live id overwrites that row instead of inserting one. Both paths are modelled.

`updateCategory` checks no names, unlike `createCategory`. The model states
this asymmetry exactly. Starting from unique names, an update keeps names
unique if and only if no other live row already has the new name.
`Scenarios.RenameIntoTakenName` shows an update that leaves two live categories
named "Books".

## Model

| member | source | states |
|---|---|---|
| `Repository.CategoryRepository.FindAll` | src/main/java/ca/robertgleason/project/repositories/CategoryRepository.java:9 | `findAll` returns one row per live record, in insertion order; a row is in the result exactly when its id is live with that name |
| `Repository.CategoryRepository.FindById` | src/main/java/ca/robertgleason/project/repositories/CategoryRepository.java:9 | `findById` finds a row exactly when the id is live, and then returns that id with its stored name |
| `Repository.CategoryRepository.FindByCategoryName` | src/main/java/ca/robertgleason/project/repositories/CategoryRepository.java:11 | `findByCategoryName` finds nothing exactly when no live row has that name (exact, case-sensitive match); otherwise it returns a live row with that name |
| `Repository.FirstWithName` | src/main/java/ca/robertgleason/project/repositories/CategoryRepository.java:11 | the search behind `findByCategoryName`: a found id is listed and has the name; `None` means no listed id has it |
| `Repository.CategoryRepository.Save` | src/main/java/ca/robertgleason/project/repositories/CategoryRepository.java:9 | `save` of an entity without an id inserts it under the counter's value, an id never issued before, writes that id back into the entity, appends it to the order and advances the counter; `save` of an entity with a live id replaces that row's name and changes nothing else |
| `Repository.CategoryRepository.Delete` | src/main/java/ca/robertgleason/project/repositories/CategoryRepository.java:9 | `delete` removes exactly the row with the entity's id, drops that id from the order, and keeps the counter and the issued ids |
| `Repository.Without` | src/main/java/ca/robertgleason/project/service/CategoryServiceImpl.java:44 | the order after a delete holds exactly the other ids and stays duplicate-free |
| `Repository.ListingIsLiveRecords` | src/main/java/ca/robertgleason/project/service/CategoryServiceImpl.java:24-27 | when the order lists every live id once, the listing has one row per live record and contains exactly the live (id, name) pairs |
| `Service.CategoryServiceImpl.GetAllCategories` | src/main/java/ca/robertgleason/project/service/CategoryServiceImpl.java:23-28 | fails with `APIException("no categories have been created")` exactly when the store is empty; otherwise returns exactly the live records, one row each, in insertion order, and changes nothing |
| `Service.CategoryServiceImpl.CreateCategory` | src/main/java/ca/robertgleason/project/service/CategoryServiceImpl.java:31-37 | fails with the "already exists" `APIException` exactly when a live record has the same name, and then changes neither store nor payload; an id-less payload is inserted under a never-issued id written back into it, appended to the order, every other record unchanged; a payload with a live id overwrites that row; name uniqueness is preserved |
| `Service.CategoryServiceImpl.DeleteCategory` | src/main/java/ca/robertgleason/project/service/CategoryServiceImpl.java:40-46 | fails with not-found exactly when the id is not live, and then changes nothing; otherwise removes exactly that record, keeps the counter, and returns "category with categoryId: <id> has been deleted"; afterwards the id is never live |
| `Service.CategoryServiceImpl.UpdateCategory` | src/main/java/ca/robertgleason/project/service/CategoryServiceImpl.java:49-59 | fails with not-found exactly when the path id is not live, and then changes nothing; otherwise sets the payload's id to the path id whatever it carried, replaces that record's name, returns (path id, payload name), adds no record and keeps the order and the counter; from unique names, names stay unique exactly when no other live record has the new name |
| `Service.DeletedMessageNamesId` | src/main/java/ca/robertgleason/project/service/CategoryServiceImpl.java:45 | the delete confirmation can be read back to the id that was deleted |
| `Service.DeletedMessageInjective` | src/main/java/ca/robertgleason/project/service/CategoryServiceImpl.java:45 | deleting different ids yields different confirmations |
| `Decimal.LongToString` | src/main/java/ca/robertgleason/project/service/CategoryServiceImpl.java:45 | the rendering of the id in the confirmation starts with '-' exactly for negative ids and is otherwise all decimal digits |
| `Decimal.LongToStringRoundTrip` | src/main/java/ca/robertgleason/project/service/CategoryServiceImpl.java:45 | parsing the rendered id gives back the id |
| `Decimal.LongToStringInjective` | src/main/java/ca/robertgleason/project/service/CategoryServiceImpl.java:45 | distinct ids render differently |
| `Scenarios.CreateDuplicate` | src/main/java/ca/robertgleason/project/service/CategoryServiceImpl.java:31-37 | creating "Electronics" in an empty store lists [(1, "Electronics")]; creating it again fails with the duplicate-name error and the listing is unchanged |
| `Scenarios.CreateRename` | src/main/java/ca/robertgleason/project/service/CategoryServiceImpl.java:49-56 | renaming id 1 to "Books" with an id-less payload returns (1, "Books") and the store lists [(1, "Books")] |
| `Scenarios.CreateDelete` | src/main/java/ca/robertgleason/project/service/CategoryServiceImpl.java:40-46 | deleting id 1 returns "category with categoryId: 1 has been deleted"; listing the emptied store then fails, and a second delete of id 1 fails with not-found |
| `Scenarios.DeleteFromEmpty` | src/main/java/ca/robertgleason/project/service/CategoryServiceImpl.java:41-42 | deleting id 99 from an empty store fails with not-found |
| `Scenarios.RenameIntoTakenName` | src/main/java/ca/robertgleason/project/service/CategoryServiceImpl.java:49-56 | an update renaming id 2 to a name id 1 already has succeeds, and the store then lists two records with the same name: update does not preserve name uniqueness |
| `Scenarios.DeleteTwice` | src/main/java/ca/robertgleason/project/service/CategoryServiceImpl.java:40-45 | for any service and id, a second delete of the same id fails with not-found, and the pair of deletes removes exactly that id |

## Left out

- The REST controller (`CategoryController`): routing, status codes and the catching of `ResponseStatusException` are transport and hold no domain logic.
- Spring Data JPA itself. The repository is modelled only by the find, save and delete contract; how queries are derived from method names is not modelled.
- Repository.CategoryRepository.FindByCategoryName: when several rows have the name, which can happen after a renaming update, Spring would throw. The model returns the first match in insertion order, so a later create of that name fails with the duplicate-name error instead.
- Repository.CategoryRepository.Save: requires an entity's non-null id to be live. What `save` does with an unknown non-null id depends on the id generation strategy of the `Category` entity, which is not part of this model.
- Service.CategoryServiceImpl.CreateCategory: requires a payload id, if present, to be live. What `save` does with an unknown non-null id depends on the id generation strategy of the `Category` entity, which is not part of this model.
- Id generation is a counter starting at 1 and advancing by one per insert. The real strategy is not part of this model.
- Ids are unbounded integers. The 64-bit range of `Long` and its overflow are not modelled.
- The listing order is modelled as insertion order. The source's `findAll` runs a query with no ORDER BY, so the database decides the real order.
- Names are compared by exact string equality. The database collation is not modelled; it may make the name comparison case-insensitive.
- Null values are not modelled: null names, null payloads and null path ids.
- Records come back as (id, name) snapshots. The aliasing between returned entities and the persistence context is not modelled.
- The text of `ResourceNotFoundException`'s message is not modelled, because that class is not part of this model; its constructor arguments are.
- The race between the duplicate-name check and `save` under concurrent requests is not modelled; the model is sequential.
- The Spring container wiring (`@Service`, `CategoryServiceImpl.java:13`) and the unused `javax.swing` import are not modelled.

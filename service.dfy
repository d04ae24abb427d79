/**
 * The category service: the four operations the request handler calls, each a
 * short sequence of repository calls guarded by a duplicate-name check or an
 * existence check. Java exceptions become the `Failure`/`Fail` arm of the
 * result; the repository's state is the only state.
 */
module Service {
  import opened Wrappers
  import opened Decimal
  import opened Entities
  import opened Repository

  /** The two exceptions the service throws. */
  datatype ServiceError =
    | APIException(message: string)
    | ResourceNotFoundException(resourceName: string, fieldName: string, fieldValue: int)

  const NoCategoriesMessage: string := "no categories have been created"

  function DuplicateNameMessage(name: string): string {
    "category with the name " + name + " already exists"
  }

  const DeletedPrefix: string := "category with categoryId: "
  const DeletedSuffix: string := " has been deleted"

  /** The confirmation `deleteCategory` returns. */
  function DeletedMessage(categoryId: int): string {
    DeletedPrefix + LongToString(categoryId) + DeletedSuffix
  }

  /** Reads back the id a confirmation message names, if it is one. */
  function DeletedId(message: string): Option<int> {
    if |message| >= |DeletedPrefix| + |DeletedSuffix|
       && message[..|DeletedPrefix|] == DeletedPrefix
       && message[|message| - |DeletedSuffix|..] == DeletedSuffix
    then ParseDecimal(message[|DeletedPrefix|..|message| - |DeletedSuffix|])
    else None
  }

  /** The confirmation names exactly the id that was deleted. */
  lemma DeletedMessageNamesId(categoryId: int)
    ensures DeletedId(DeletedMessage(categoryId)) == Some(categoryId)
  {
    var digits := LongToString(categoryId);
    var m := DeletedMessage(categoryId);
    assert m[..|DeletedPrefix|] == DeletedPrefix;
    assert m[|m| - |DeletedSuffix|..] == DeletedSuffix;
    assert m[|DeletedPrefix|..|m| - |DeletedSuffix|] == digits;
    LongToStringRoundTrip(categoryId);
  }

  /** Different deletions produce different confirmations. */
  lemma DeletedMessageInjective(a: int, b: int)
    ensures DeletedMessage(a) == DeletedMessage(b) ==> a == b
  {
    DeletedMessageNamesId(a);
    DeletedMessageNamesId(b);
  }

  function NotFound(categoryId: int): ServiceError {
    ResourceNotFoundException("Category", "categoryId", categoryId)
  }

  class CategoryServiceImpl {
    const categoryRepository: CategoryRepository

    constructor (categoryRepository: CategoryRepository)
      ensures this.categoryRepository == categoryRepository
    {
      this.categoryRepository := categoryRepository;
    }

    ghost predicate Valid()
      reads this, categoryRepository
    {
      categoryRepository.Valid()
    }

    /**
     * `getAllCategories()`: fails when nothing is stored; otherwise every live
     * category, in insertion order, and nothing else.
     */
    method GetAllCategories() returns (r: Result<seq<Record>, ServiceError>)
      requires Valid()
      ensures r.Failure? <==> categoryRepository.records == map[]
      ensures r.Failure? ==> r.error == APIException(NoCategoriesMessage)
      ensures r.Success? ==>
        && (forall i | 0 <= i < |categoryRepository.order| :: categoryRepository.order[i] in categoryRepository.records)
        && |r.value| == |categoryRepository.records|
        && (forall c: Record :: c in r.value <==>
              c.id in categoryRepository.records && categoryRepository.records[c.id] == c.name)
        && r.value == Listing(categoryRepository.order, categoryRepository.records)
    {
      var categories := categoryRepository.FindAll();
      if categories == [] {
        return Failure(APIException(NoCategoriesMessage));
      }
      categories := categoryRepository.FindAll();
      r := Success(categories);
    }

    /**
     * `createCategory(category)`: rejects a name some live category already
     * has and changes nothing; otherwise saves the category. Saving a category
     * without an id inserts it under a never-used id; saving one that carries
     * a live id overwrites that row. Either way names stay unique.
     */
    method CreateCategory(category: Category) returns (r: Outcome<ServiceError>)
      requires Valid()
      requires category.categoryId.Some? ==> category.categoryId.value in categoryRepository.records
      modifies categoryRepository, category
      ensures Valid()
      ensures r.Fail? <==> exists k :: k in old(categoryRepository.records) && old(categoryRepository.records)[k] == category.categoryName
      ensures r.Fail? ==>
        && r.error == APIException(DuplicateNameMessage(category.categoryName))
        && unchanged(categoryRepository)
        && unchanged(category)
      ensures r.Pass? && old(category.categoryId).None? ==>
        && category.categoryId == Some(old(categoryRepository.nextId))
        && categoryRepository.nextId == old(categoryRepository.nextId) + 1
        && category.categoryId.value !in old(categoryRepository.issued)
        && category.categoryId.value !in old(categoryRepository.records)
        && categoryRepository.records == old(categoryRepository.records)[category.categoryId.value := category.categoryName]
        && categoryRepository.order == old(categoryRepository.order) + [category.categoryId.value]
      ensures r.Pass? && old(category.categoryId).Some? ==>
        && unchanged(category)
        && categoryRepository.records == old(categoryRepository.records)[category.categoryId.value := category.categoryName]
        && categoryRepository.order == old(categoryRepository.order)
        && categoryRepository.nextId == old(categoryRepository.nextId)
      ensures category.categoryName == old(category.categoryName)
      ensures old(categoryRepository.NamesUnique()) ==> categoryRepository.NamesUnique()
    {
      var savedCategory := categoryRepository.FindByCategoryName(category.categoryName);
      if savedCategory.Some? {
        return Fail(APIException(DuplicateNameMessage(category.categoryName)));
      }
      var _ := categoryRepository.Save(category);
      r := Pass;
    }

    /**
     * `deleteCategory(categoryId)`: not-found for an id with no live row,
     * changing nothing; otherwise removes exactly that row and confirms.
     */
    method DeleteCategory(categoryId: int) returns (r: Result<string, ServiceError>)
      requires Valid()
      modifies categoryRepository
      ensures Valid()
      ensures r.Failure? <==> categoryId !in old(categoryRepository.records)
      ensures r.Failure? ==> r.error == NotFound(categoryId) && unchanged(categoryRepository)
      ensures r.Success? ==>
        && r.value == DeletedMessage(categoryId)
        && categoryRepository.records == old(categoryRepository.records) - {categoryId}
        && categoryRepository.order == Without(old(categoryRepository.order), categoryId)
        && categoryRepository.nextId == old(categoryRepository.nextId)
      ensures categoryId !in categoryRepository.records
    {
      var category := categoryRepository.FindById(categoryId);
      if category.None? {
        return Failure(NotFound(categoryId));
      }
      categoryRepository.Delete(category.value);
      r := Success(DeletedMessage(categoryId));
    }

    /**
     * `updateCategory(category, categoryId)`: not-found for an id with no live
     * row, changing nothing; otherwise stamps the path id onto the payload,
     * whatever id it carried, and saves it over that row. No name check is
     * made, so the update keeps names unique exactly when no other live row
     * already has the new name.
     */
    method UpdateCategory(category: Category, categoryId: int) returns (r: Result<Record, ServiceError>)
      requires Valid()
      modifies categoryRepository, category
      ensures Valid()
      ensures r.Failure? <==> categoryId !in old(categoryRepository.records)
      ensures r.Failure? ==>
        && r.error == NotFound(categoryId)
        && unchanged(categoryRepository)
        && unchanged(category)
      ensures r.Success? ==>
        && r.value == Record(categoryId, old(category.categoryName))
        && category.categoryId == Some(categoryId)
        && category.categoryName == old(category.categoryName)
        && categoryRepository.records == old(categoryRepository.records)[categoryId := r.value.name]
        && categoryRepository.records.Keys == old(categoryRepository.records).Keys
        && categoryRepository.order == old(categoryRepository.order)
        && categoryRepository.nextId == old(categoryRepository.nextId)
      ensures r.Success? && old(categoryRepository.NamesUnique()) ==>
        (categoryRepository.NamesUnique() <==>
          forall k | k in old(categoryRepository.records) && k != categoryId ::
            old(categoryRepository.records)[k] != r.value.name)
    {
      var existing := categoryRepository.FindById(categoryId);
      if existing.None? {
        return Failure(NotFound(categoryId));
      }
      category.categoryId := Some(categoryId);
      var savedCategory := categoryRepository.Save(category);
      r := Success(savedCategory);
    }
  }
}

/**
 * Clients of the service: concrete request sequences whose outcomes follow
 * from the operations' contracts alone, and one property about any service.
 */
module Scenarios {
  import opened Wrappers
  import opened Entities
  import opened Repository
  import opened Service

  /** Create "Electronics", list, create it again, list again. */
  method CreateDuplicate() returns (
      listed: Result<seq<Record>, ServiceError>,
      duplicate: Outcome<ServiceError>,
      relisted: Result<seq<Record>, ServiceError>)
    ensures listed == Success([Record(1, "Electronics")])
    ensures duplicate == Fail(APIException(DuplicateNameMessage("Electronics")))
    ensures relisted == listed
  {
    var repository := new CategoryRepository();
    var service := new CategoryServiceImpl(repository);

    var electronics := new Category(None, "Electronics");
    var created := service.CreateCategory(electronics);
    assert repository.records == map[1 := "Electronics"] && repository.order == [1];
    listed := service.GetAllCategories();
    assert listed.Success? && |listed.value| == 1 && listed.value[0] == Record(1, "Electronics");
    assert listed.value == [Record(1, "Electronics")];

    var again := new Category(None, "Electronics");
    assert repository.records[1] == again.categoryName;
    duplicate := service.CreateCategory(again);
    relisted := service.GetAllCategories();
  }

  /** Create "Electronics", then rename id 1 to "Books" with a payload that carries no id. */
  method CreateRename() returns (
      renamed: Result<Record, ServiceError>,
      listed: Result<seq<Record>, ServiceError>)
    ensures renamed == Success(Record(1, "Books"))
    ensures listed == Success([Record(1, "Books")])
  {
    var repository := new CategoryRepository();
    var service := new CategoryServiceImpl(repository);

    var electronics := new Category(None, "Electronics");
    var created := service.CreateCategory(electronics);
    assert repository.records == map[1 := "Electronics"] && repository.order == [1];

    var books := new Category(None, "Books");
    renamed := service.UpdateCategory(books, 1);
    assert repository.records == map[1 := "Books"] && repository.order == [1];
    listed := service.GetAllCategories();
    assert listed.Success? && |listed.value| == 1 && listed.value[0] == Record(1, "Books");
    assert listed.value == [Record(1, "Books")];
  }

  /**
   * Create "Electronics", delete it, list, delete it again. Listing the now
   * empty store fails rather than returning an empty list.
   */
  method CreateDelete() returns (
      deleted: Result<string, ServiceError>,
      listed: Result<seq<Record>, ServiceError>,
      deletedAgain: Result<string, ServiceError>)
    ensures deleted == Success("category with categoryId: 1 has been deleted")
    ensures listed == Failure(APIException("no categories have been created"))
    ensures deletedAgain == Failure(ResourceNotFoundException("Category", "categoryId", 1))
  {
    var repository := new CategoryRepository();
    var service := new CategoryServiceImpl(repository);

    var electronics := new Category(None, "Electronics");
    var created := service.CreateCategory(electronics);
    assert repository.records == map[1 := "Electronics"];

    deleted := service.DeleteCategory(1);
    assert repository.records == map[];
    assert DeletedMessage(1) == "category with categoryId: 1 has been deleted";
    listed := service.GetAllCategories();
    deletedAgain := service.DeleteCategory(1);
  }

  /** Deleting from an empty store fails with not-found. */
  method DeleteFromEmpty() returns (missing: Result<string, ServiceError>)
    ensures missing == Failure(ResourceNotFoundException("Category", "categoryId", 99))
  {
    var repository := new CategoryRepository();
    var service := new CategoryServiceImpl(repository);
    missing := service.DeleteCategory(99);
  }

  /** A fresh service holding `first` under id 1 and `second` under id 2. */
  method ServiceWithTwo(first: string, second: string) returns (service: CategoryServiceImpl)
    requires first != second
    ensures fresh(service) && fresh(service.categoryRepository) && service.Valid()
    ensures service.categoryRepository.records == map[1 := first, 2 := second]
    ensures service.categoryRepository.order == [1, 2]
  {
    var repository := new CategoryRepository();
    service := new CategoryServiceImpl(repository);
    var one := new Category(None, first);
    var created := service.CreateCategory(one);
    assert repository.records == map[1 := first] && repository.order == [1];
    var two := new Category(None, second);
    created := service.CreateCategory(two);
  }

  /**
   * Update checks no names: renaming "Music" (id 2) to "Books" succeeds
   * although "Books" is taken by id 1, and the store then lists two
   * categories named "Books".
   */
  method RenameIntoTakenName() returns (
      renamed: Result<Record, ServiceError>,
      listed: Result<seq<Record>, ServiceError>)
    ensures renamed == Success(Record(2, "Books"))
    ensures listed == Success([Record(1, "Books"), Record(2, "Books")])
  {
    assert "Music"[0] != "Books"[0];
    var service := ServiceWithTwo("Books", "Music");
    var payload := new Category(None, "Books");
    renamed := service.UpdateCategory(payload, 2);
    listed := service.GetAllCategories();
    assert listed.Success? && |listed.value| == 2;
    assert listed.value[0] == Record(1, "Books") && listed.value[1] == Record(2, "Books");
    assert listed.value == [Record(1, "Books"), Record(2, "Books")];
  }

  /** A second delete of the same id always fails with not-found. */
  method DeleteTwice(service: CategoryServiceImpl, categoryId: int)
      returns (first: Result<string, ServiceError>, second: Result<string, ServiceError>)
    requires service.Valid()
    modifies service.categoryRepository
    ensures service.Valid()
    ensures first.Success? <==> categoryId in old(service.categoryRepository.records)
    ensures second == Failure(NotFound(categoryId))
    ensures service.categoryRepository.records == old(service.categoryRepository.records) - {categoryId}
  {
    first := service.DeleteCategory(categoryId);
    second := service.DeleteCategory(categoryId);
  }
}

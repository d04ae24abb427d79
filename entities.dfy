/**
 * The `Category` entity. The request body that reaches the service is a
 * mutable object whose id the service or the persistence layer may set; what
 * the store holds and hands back is a snapshot of an (id, name) row.
 */
module Entities {
  import opened Wrappers

  /** The entity object: `categoryId` is `None` until the store assigns one. */
  class Category {
    var categoryId: Option<int>
    var categoryName: string

    constructor (categoryId: Option<int>, categoryName: string)
      ensures this.categoryId == categoryId && this.categoryName == categoryName
    {
      this.categoryId := categoryId;
      this.categoryName := categoryName;
    }
  }

  /** A persisted category as the store returns it. */
  datatype Record = Record(id: int, name: string)
}

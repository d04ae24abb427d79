/**
 * The persistence contract the service relies on (`JpaRepository<Category, Long>`
 * plus the derived query `findByCategoryName`), modelled as a finite map from id
 * to name, the ids in insertion order (the order `findAll` reports) and the
 * counter from which new ids are drawn.
 */
module Repository {
  import opened Wrappers
  import opened Entities

  predicate Distinct(ids: seq<int>) {
    forall i, j | 0 <= i < j < |ids| :: ids[i] != ids[j]
  }

  /** `ids` with every occurrence of `id` dropped, the rest in their order. */
  function Without(ids: seq<int>, id: int): (r: seq<int>)
    ensures forall k :: k in r <==> k in ids && k != id
    ensures Distinct(ids) ==> Distinct(r)
    ensures id !in ids ==> r == ids
  {
    if ids == [] then []
    else if ids[0] == id then Without(ids[1..], id)
    else
      var rest := Without(ids[1..], id);
      assert Distinct(ids) ==> ids[0] !in rest;
      [ids[0]] + rest
  }

  /** The rows for `ids`, in that order. */
  function Listing(ids: seq<int>, records: map<int, string>): seq<Record>
    requires forall i | 0 <= i < |ids| :: ids[i] in records
  {
    seq(|ids|, i requires 0 <= i < |ids| => Record(ids[i], records[ids[i]]))
  }

  /** The id of the first row, in `ids` order, whose name is `name`. */
  function FirstWithName(ids: seq<int>, records: map<int, string>, name: string): (r: Option<int>)
    requires forall i | 0 <= i < |ids| :: ids[i] in records
    ensures r.Some? ==> r.value in ids && records[r.value] == name
    ensures r.None? ==> forall i | 0 <= i < |ids| :: records[ids[i]] != name
  {
    if ids == [] then None
    else if records[ids[0]] == name then Some(ids[0])
    else FirstWithName(ids[1..], records, name)
  }

  lemma {:induction false} DistinctCardinality(ids: seq<int>)
    requires Distinct(ids)
    ensures |set k | k in ids| == |ids|
  {
    if ids != [] {
      var last := ids[|ids| - 1];
      var init := ids[..|ids| - 1];
      DistinctCardinality(init);
      assert (set k | k in ids) == (set k | k in init) + {last};
      assert last !in init;
    }
  }

  /**
   * When `ids` enumerates the live ids once each, the listing holds exactly the
   * live records, one row per record.
   */
  lemma ListingIsLiveRecords(ids: seq<int>, records: map<int, string>)
    requires Distinct(ids)
    requires forall k :: k in records <==> k in ids
    ensures forall i | 0 <= i < |ids| :: ids[i] in records
    ensures |Listing(ids, records)| == |records|
    ensures forall c: Record :: c in Listing(ids, records) <==> c.id in records && records[c.id] == c.name
  {
    DistinctCardinality(ids);
    var live := set k | k in ids;
    assert records.Keys == live by {
      forall k | k in records.Keys ensures k in live {}
      forall k | k in live ensures k in records.Keys {}
    }
    var rows := Listing(ids, records);
    forall c: Record | c.id in records && records[c.id] == c.name
      ensures c in rows
    {
      var i :| 0 <= i < |ids| && ids[i] == c.id;
      assert rows[i] == c;
    }
  }

  class CategoryRepository {
    /** Live rows: id to name. */
    var records: map<int, string>
    /** The live ids in the order they were inserted. */
    var order: seq<int>
    /** The id the next insert receives. */
    var nextId: int
    /** Every id ever handed out, including those since deleted. */
    ghost var issued: set<int>

    ghost predicate Valid()
      reads this
    {
      && Distinct(order)
      && (forall k :: k in records <==> k in order)
      && (forall i | 0 <= i < |order| :: order[i] in records)
      && nextId >= 1
      && (forall k :: k in issued <==> 1 <= k < nextId)
      && records.Keys <= issued
    }

    /** No two live rows share a name. */
    ghost predicate NamesUnique()
      reads this
    {
      forall a, b | a in records && b in records && records[a] == records[b] :: a == b
    }

    constructor ()
      ensures Valid()
      ensures records == map[] && order == [] && nextId == 1 && issued == {}
    {
      records, order, nextId := map[], [], 1;
      issued := {};
    }

    /** `findAll()`: every live row, in insertion order. */
    method FindAll() returns (rows: seq<Record>)
      requires Valid()
      ensures forall i | 0 <= i < |order| :: order[i] in records
      ensures rows == Listing(order, records)
      ensures |rows| == |records|
      ensures forall c: Record :: c in rows <==> c.id in records && records[c.id] == c.name
    {
      ListingIsLiveRecords(order, records);
      rows := Listing(order, records);
    }

    /** `findById(id)`: the row with that id, if live. */
    method FindById(id: int) returns (r: Option<Record>)
      ensures r.Some? <==> id in records
      ensures r.Some? ==> r.value == Record(id, records[id])
    {
      if id in records {
        r := Some(Record(id, records[id]));
      } else {
        r := None;
      }
    }

    /** `findByCategoryName(name)`: a live row with exactly that name, if any. */
    method FindByCategoryName(name: string) returns (r: Option<Record>)
      requires Valid()
      ensures r.None? <==> forall k | k in records :: records[k] != name
      ensures r.Some? ==> r.value.id in records && r.value.name == name && records[r.value.id] == name
    {
      var found := FirstWithName(order, records, name);
      if found.Some? {
        r := Some(Record(found.value, name));
      } else {
        r := None;
      }
    }

    /**
     * `save(entity)`: an entity without an id is inserted under a fresh id,
     * which is written back into the entity; an entity whose id is live
     * overwrites that row in place.
     */
    method Save(entity: Category) returns (saved: Record)
      requires Valid()
      requires entity.categoryId.Some? ==> entity.categoryId.value in records
      modifies this, entity
      ensures Valid()
      ensures entity.categoryName == old(entity.categoryName)
      ensures old(entity.categoryId).None? ==>
        && saved == Record(old(nextId), entity.categoryName)
        && entity.categoryId == Some(saved.id)
        && saved.id !in old(issued)
        && records == old(records)[saved.id := saved.name]
        && order == old(order) + [saved.id]
        && nextId == old(nextId) + 1
        && issued == old(issued) + {saved.id}
      ensures old(entity.categoryId).Some? ==>
        && saved == Record(old(entity.categoryId).value, entity.categoryName)
        && unchanged(entity)
        && records == old(records)[saved.id := saved.name]
        && order == old(order)
        && nextId == old(nextId)
        && issued == old(issued)
    {
      if entity.categoryId.None? {
        var id := nextId;
        entity.categoryId := Some(id);
        records := records[id := entity.categoryName];
        order := order + [id];
        nextId := nextId + 1;
        issued := issued + {id};
        saved := Record(id, entity.categoryName);
      } else {
        var id := entity.categoryId.value;
        records := records[id := entity.categoryName];
        saved := Record(id, entity.categoryName);
      }
    }

    /** `delete(entity)`: removes the row with the entity's id, if live. */
    method Delete(row: Record)
      requires Valid()
      modifies this
      ensures Valid()
      ensures records == old(records) - {row.id}
      ensures order == Without(old(order), row.id)
      ensures nextId == old(nextId) && issued == old(issued)
    {
      records := records - {row.id};
      order := Without(order, row.id);
    }
  }
}

/** The store behind one entity type, following the five-operation repository
    interface: Create, Delete, Update, GetById, GetAll. The SQL table is an in-memory
    sequence of rows; a store fault (connection, constraint, timeout) is an input. */
module Repository {
  import opened Wrappers
  import opened Entities
  import opened Table

  /** None when the store answers the call; Some(message) when the call throws with
      that exception message. */
  type Fault = Option<string>

  class Repository<C> {
    /** The table's rows, in insertion order. */
    var rows: seq<Row<C>>
    /** The identity value the store hands to the next inserted row. */
    var nextId: int

    /** Identities are positive, below the next one to be handed out, and increase
        along the table. */
    ghost predicate Valid()
      reads this
    {
      && 0 < nextId
      && IdsIncreasing(rows)
      && (forall i | 0 <= i < |rows| :: 0 < rows[i].Id < nextId)
    }

    /** An empty table whose identity column starts at 1. */
    constructor ()
      ensures Valid() && rows == [] && nextId == 1
    {
      rows := [];
      nextId := 1;
    }

    /** INSERT: the item's Id is ignored and the store assigns the next identity. */
    method Create(item: Row<C>, fault: Fault) returns (r: Result<(), string>)
      requires Valid()
      modifies this
      ensures Valid()
      ensures fault.Some? ==> r == Failure(fault.value) && rows == old(rows) && nextId == old(nextId)
      ensures fault.None? ==> r == Success(())
                              && rows == old(rows) + [Row(old(nextId), item.columns)]
                              && nextId == old(nextId) + 1
    {
      if fault.Some? {
        return Failure(fault.value);
      }
      rows := rows + [Row(nextId, item.columns)];
      nextId := nextId + 1;
      r := Success(());
    }

    /** DELETE by identifier; deleting an absent identifier changes nothing. */
    method Delete(id: int, fault: Fault) returns (r: Result<(), string>)
      requires Valid()
      modifies this
      ensures Valid() && nextId == old(nextId)
      ensures fault.Some? ==> r == Failure(fault.value) && rows == old(rows)
      ensures fault.None? ==> r == Success(()) && rows == Remove(old(rows), id)
    {
      if fault.Some? {
        return Failure(fault.value);
      }
      RemoveKeepsOrder(rows, id);
      rows := Remove(rows, id);
      r := Success(());
    }

    /** UPDATE: every non-key column of the row with the item's identifier is overwritten. */
    method Update(item: Row<C>, fault: Fault) returns (r: Result<(), string>)
      requires Valid()
      modifies this
      ensures Valid() && nextId == old(nextId)
      ensures fault.Some? ==> r == Failure(fault.value) && rows == old(rows)
      ensures fault.None? ==> r == Success(()) && rows == Replace(old(rows), item)
    {
      if fault.Some? {
        return Failure(fault.value);
      }
      ReplaceKeepsIds(rows, item);
      rows := Replace(rows, item);
      r := Success(());
    }

    /** SELECT by identifier: the row, or None (the null the store reader leaves). */
    function GetById(id: int, fault: Fault): (r: Result<Option<Row<C>>, string>)
      reads this
      ensures fault.Some? ==> r == Failure(fault.value)
      ensures fault.None? ==> r.Success? && (r.value.None? <==> id !in Ids(rows))
      ensures r.Success? && r.value.Some? ==> r.value.value in rows && r.value.value.Id == id
    {
      if fault.Some? then Failure(fault.value) else Success(Find(rows, id))
    }

    /** SELECT of every row. */
    function GetAll(fault: Fault): (r: Result<seq<Row<C>>, string>)
      reads this
      ensures fault.Some? ==> r == Failure(fault.value)
      ensures fault.None? ==> r == Success(rows)
    {
      if fault.Some? then Failure(fault.value) else Success(rows)
    }
  }
}

/** The contents of one store table as a sequence of rows in insertion order, and the
    queries and row-level changes a repository performs on it. */
module Table {
  import opened Wrappers
  import opened Entities

  /** The identifiers present in the table. */
  function Ids<C>(rows: seq<Row<C>>): set<int>
  {
    set i | 0 <= i < |rows| :: rows[i].Id
  }

  /** Identifiers grow strictly along the table, so no identifier occurs twice. */
  predicate IdsIncreasing<C>(rows: seq<Row<C>>)
  {
    forall i, j | 0 <= i < j < |rows| :: rows[i].Id < rows[j].Id
  }

  /** The row with identifier `id`, or None when there is none (SELECT ... WHERE Id = @id). */
  function Find<C>(rows: seq<Row<C>>, id: int): (r: Option<Row<C>>)
    ensures r.None? <==> id !in Ids(rows)
    ensures r.Some? ==> r.value in rows && r.value.Id == id
  {
    if rows == [] then None
    else if rows[0].Id == id then Some(rows[0])
    else
      assert Ids(rows) == {rows[0].Id} + Ids(rows[1..]) by { IdsCons(rows); }
      Find(rows[1..], id)
  }

  /** The table without the row whose identifier is `id` (DELETE ... WHERE Id = @id). */
  function Remove<C>(rows: seq<Row<C>>, id: int): (r: seq<Row<C>>)
    ensures Ids(r) == Ids(rows) - {id}
    ensures forall j | 0 <= j < |r| :: r[j] in rows && r[j].Id != id
    ensures forall i | 0 <= i < |rows| && rows[i].Id != id :: rows[i] in r
    ensures id !in Ids(rows) ==> r == rows
  {
    if rows == [] then []
    else
      assert Ids(rows) == {rows[0].Id} + Ids(rows[1..]) by { IdsCons(rows); }
      var rest := Remove(rows[1..], id);
      if rows[0].Id == id then rest
      else
        assert Ids([rows[0]] + rest) == {rows[0].Id} + Ids(rest) by { IdsCons([rows[0]] + rest); }
        [rows[0]] + rest
  }

  /** The table with the row whose identifier is `item.Id` replaced by `item`
      (UPDATE ... WHERE Id = @id); every other row is kept. */
  function Replace<C>(rows: seq<Row<C>>, item: Row<C>): (r: seq<Row<C>>)
    ensures |r| == |rows|
    ensures forall i | 0 <= i < |rows| :: r[i] == if rows[i].Id == item.Id then item else rows[i]
  {
    if rows == [] then []
    else [if rows[0].Id == item.Id then item else rows[0]] + Replace(rows[1..], item)
  }

  /** The identifiers of a non-empty table: its first row's and the rest's. */
  lemma IdsCons<C>(rows: seq<Row<C>>)
    requires rows != []
    ensures Ids(rows) == {rows[0].Id} + Ids(rows[1..])
  {
  }

  /** In a table without repeated identifiers, Find returns THE row with that identifier. */
  lemma FindUnique<C>(rows: seq<Row<C>>, k: int)
    requires IdsIncreasing(rows) && 0 <= k < |rows|
    ensures Find(rows, rows[k].Id) == Some(rows[k])
  {
  }

  /** A row placed in front of a table with larger identifiers keeps them increasing. */
  lemma PrependIncreasing<C>(x: Row<C>, rest: seq<Row<C>>)
    requires IdsIncreasing(rest)
    requires forall j | 0 <= j < |rest| :: x.Id < rest[j].Id
    ensures IdsIncreasing([x] + rest)
  {
  }

  /** Every row Remove keeps comes from the table, so a lower bound on the table's
      identifiers holds for the result too. */
  lemma RemoveBelow<C>(rows: seq<Row<C>>, id: int, bound: int)
    requires forall i | 0 <= i < |rows| :: bound < rows[i].Id
    ensures forall j | 0 <= j < |Remove(rows, id)| :: bound < Remove(rows, id)[j].Id
  {
  }

  /** Deleting keeps the remaining rows in their order, so identifiers still increase. */
  lemma {:induction false} RemoveKeepsOrder<C>(rows: seq<Row<C>>, id: int)
    requires IdsIncreasing(rows)
    ensures IdsIncreasing(Remove(rows, id))
  {
    if rows != [] {
      var tail := rows[1..];
      assert IdsIncreasing(tail);
      RemoveKeepsOrder(tail, id);
      if rows[0].Id != id {
        assert forall i | 0 <= i < |tail| :: rows[0].Id < tail[i].Id by {
          forall i | 0 <= i < |tail| ensures rows[0].Id < tail[i].Id {
            assert tail[i] == rows[i + 1];
          }
        }
        RemoveBelow(tail, id, rows[0].Id);
        PrependIncreasing(rows[0], Remove(tail, id));
      }
    }
  }

  /** Deleting a present identifier from a table without repeats removes exactly one row;
      deleting an absent one removes none. */
  lemma {:induction false} RemoveCount<C>(rows: seq<Row<C>>, id: int)
    requires IdsIncreasing(rows)
    ensures |Remove(rows, id)| == if id in Ids(rows) then |rows| - 1 else |rows|
  {
    if rows != [] {
      var tail := rows[1..];
      IdsCons(rows);
      assert IdsIncreasing(tail);
      RemoveCount(tail, id);
      if rows[0].Id == id {
        forall i | 0 <= i < |tail| ensures tail[i].Id != id {
          assert rows[0].Id < rows[i + 1].Id;
        }
        assert id !in Ids(tail);
      }
    }
  }

  /** Replacing a row keeps the set of identifiers and their order. */
  lemma ReplaceKeepsIds<C>(rows: seq<Row<C>>, item: Row<C>)
    ensures Ids(Replace(rows, item)) == Ids(rows)
    ensures IdsIncreasing(rows) ==> IdsIncreasing(Replace(rows, item))
  {
  }

  /** A row appended with an identifier larger than every stored one is what Find
      returns for that identifier, and every other lookup is as before. */
  lemma {:induction false} FindAfterAppend<C>(rows: seq<Row<C>>, row: Row<C>, id: int)
    requires forall i | 0 <= i < |rows| :: rows[i].Id < row.Id
    ensures Find(rows + [row], id) == if id == row.Id then Some(row) else Find(rows, id)
  {
    if rows == [] {
      assert rows + [row] == [row];
    } else {
      assert (rows + [row])[1..] == rows[1..] + [row];
      FindAfterAppend(rows[1..], row, id);
    }
  }

  /** After a row is replaced, Find returns the new row for its identifier, provided the
      identifier was present, and every other lookup is as before, in any table. */
  lemma {:induction false} FindAfterReplace<C>(rows: seq<Row<C>>, item: Row<C>, id: int)
    requires id == item.Id ==> item.Id in Ids(rows)
    ensures Find(Replace(rows, item), id) == if id == item.Id then Some(item) else Find(rows, id)
  {
    if rows != [] {
      IdsCons(rows);
      assert Replace(rows, item)[1..] == Replace(rows[1..], item);
      if rows[0].Id != item.Id || id != item.Id {
        FindAfterReplace(rows[1..], item, id);
      }
    }
  }

  /** After a row is deleted, Find no longer sees its identifier, and every other lookup
      is as before. */
  lemma {:induction false} FindAfterRemove<C>(rows: seq<Row<C>>, gone: int, id: int)
    ensures Find(Remove(rows, gone), id) == if id == gone then None else Find(rows, id)
  {
    if rows != [] && id != gone {
      FindAfterRemove(rows[1..], gone, id);
      if rows[0].Id != gone {
        assert ([rows[0]] + Remove(rows[1..], gone))[1..] == Remove(rows[1..], gone);
      }
    }
  }
}

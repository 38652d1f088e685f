/** The venue service: validation, existence and name-uniqueness checks in front of
    the venue repository, with every failure surfaced as a Custom error. */
module VenueServices {
  import opened Wrappers
  import opened Entities
  import opened Table
  import opened Repository
  import opened Errors

  const NullVenue := "Null venue object."
  const DuplicateName := "An venue with such a name already exists."
  const IdMustBePositive := "Id must be positive."
  const DeleteMissing := "The venue you want to delete does not exist."
  const GetMissing := "The venue does not exist."
  const UpdateMissing := "The venue you want to update does not exist."

  /** Whether some stored venue has exactly this name (the Any over GetAll in Create). */
  function NameTaken(venues: seq<Venue>, name: string): (taken: bool)
    ensures taken <==> exists i | 0 <= i < |venues| :: venues[i].columns.Name == name
  {
    if venues == [] then false
    else venues[0].columns.Name == name || NameTaken(venues[1..], name)
  }

  /** No two stored venues share a name. */
  ghost predicate NamesUnique(venues: seq<Venue>)
  {
    forall i, j | 0 <= i < j < |venues| :: venues[i].columns.Name != venues[j].columns.Name
  }

  /** A venue appended under a name nobody has keeps the names unique. */
  lemma AppendFreshName(venues: seq<Venue>, v: Venue)
    requires NamesUnique(venues) && !NameTaken(venues, v.columns.Name)
    ensures NamesUnique(venues + [v])
  {
  }

  /** An appended venue's name is taken afterwards, so a second Create with that name
      is refused. */
  lemma NameTakenAfterAppend(venues: seq<Venue>, v: Venue)
    ensures NameTaken(venues + [v], v.columns.Name)
  {
    assert (venues + [v])[|venues|] == v;
  }

  /** Update checks only that the id exists: it can give a venue the name another venue
      already has, so unique names are kept by Create alone. */
  lemma UpdateMayRepeatName()
    ensures var venues := [Row(1, VenueColumns("Metropolis", "", "", "")), Row(2, VenueColumns("Arena", "", "", ""))];
            && NamesUnique(venues)
            && 2 in Ids(venues)
            && !NamesUnique(Replace(venues, Row(2, VenueColumns("Metropolis", "", "", ""))))
  {
    var venues := [Row(1, VenueColumns("Metropolis", "", "", "")), Row(2, VenueColumns("Arena", "", "", ""))];
    var after := Replace(venues, Row(2, VenueColumns("Metropolis", "", "", "")));
    assert venues[1].Id == 2;
    assert after[0].columns.Name == after[1].columns.Name;
  }

  class VenueService {
    const repository: Repository<VenueColumns>

    constructor (repository: Repository<VenueColumns>)
      ensures this.repository == repository
    {
      this.repository := repository;
    }

    /** Creates a venue. A missing item is refused before the store is read; then the
        stored venues are read, a taken name is refused, and the mapped item is inserted
        once. Any failure leaves the table as it was and keeps its message. */
    method Create(item: Option<VenueDto>, readFault: Fault, writeFault: Fault) returns (r: Result<(), ServiceError>)
      requires repository.Valid()
      modifies repository
      ensures repository.Valid()
      ensures r.Failure? ==> repository.rows == old(repository.rows) && repository.nextId == old(repository.nextId)
      ensures item.None? ==> r == Failure(Custom(NullVenue))
      ensures item.Some? && readFault.Some? ==> r == Failure(Custom(readFault.value))
      ensures item.Some? && readFault.None? && NameTaken(old(repository.rows), item.value.Name)
              ==> r == Failure(Custom(DuplicateName))
      ensures item.Some? && readFault.None? && !NameTaken(old(repository.rows), item.value.Name) && writeFault.Some?
              ==> r == Failure(Custom(writeFault.value))
      ensures r.Success? <==> item.Some? && readFault.None? && writeFault.None?
                              && !NameTaken(old(repository.rows), item.value.Name)
      ensures r.Success? ==> repository.rows == old(repository.rows) + [VenueToEntity(item.value).(Id := old(repository.nextId))]
      ensures r.Success? ==> repository.nextId == old(repository.nextId) + 1
      ensures NamesUnique(old(repository.rows)) ==> NamesUnique(repository.rows)
      ensures r.Success? ==> NameTaken(repository.rows, item.value.Name)
      ensures r.Success? ==> GetById(old(repository.nextId), None) == Success(item.value.(Id := old(repository.nextId)))
      ensures r.Success? ==> forall id | id != old(repository.nextId) :: GetById(id, None) == old(GetById(id, None))
    {
      if item.None? {
        return Failure(Custom(NullVenue));
      }
      var outcome: Result<(), string>;
      var venues := repository.GetAll(readFault);
      if venues.Failure? {
        outcome := Failure(venues.error);
      } else if NameTaken(venues.value, item.value.Name) {
        outcome := Failure(DuplicateName);
      } else {
        ghost var before := repository.rows;
        outcome := repository.Create(VenueToEntity(item.value), writeFault);
        if outcome.Success? {
          assert repository.rows == before + [repository.rows[|before|]];
          NameTakenAfterAppend(before, repository.rows[|before|]);
          if NamesUnique(before) {
            AppendFreshName(before, repository.rows[|before|]);
          }
          forall id ensures Find(repository.rows, id) == if id == repository.nextId - 1 then Some(repository.rows[|before|]) else Find(before, id) {
            FindAfterAppend(before, repository.rows[|before|], id);
          }
        }
      }
      r := Rewrap(outcome);
    }

    /** Deletes a venue. A non-positive id is refused before the store is touched; an
        absent id is refused; otherwise exactly that row is deleted. */
    method Delete(id: int, readFault: Fault, writeFault: Fault) returns (r: Result<(), ServiceError>)
      requires repository.Valid()
      modifies repository
      ensures repository.Valid() && repository.nextId == old(repository.nextId)
      ensures r.Failure? ==> repository.rows == old(repository.rows)
      ensures id <= 0 ==> r == Failure(Custom(IdMustBePositive))
      ensures id > 0 && readFault.Some? ==> r == Failure(Custom(readFault.value))
      ensures id > 0 && readFault.None? && id !in Ids(old(repository.rows)) ==> r == Failure(Custom(DeleteMissing))
      ensures id > 0 && readFault.None? && id in Ids(old(repository.rows)) && writeFault.Some?
              ==> r == Failure(Custom(writeFault.value))
      ensures r.Success? <==> id > 0 && readFault.None? && writeFault.None? && id in Ids(old(repository.rows))
      ensures r.Success? ==> repository.rows == Remove(old(repository.rows), id)
                             && |repository.rows| == |old(repository.rows)| - 1
                             && id !in Ids(repository.rows)
      ensures r.Success? ==> GetById(id, None) == Failure(Custom(GetMissing))
      ensures r.Success? ==> forall other | other != id :: GetById(other, None) == old(GetById(other, None))
    {
      if id <= 0 {
        return Failure(Custom(IdMustBePositive));
      }
      var outcome: Result<(), string>;
      var venue := repository.GetById(id, readFault);
      if venue.Failure? {
        outcome := Failure(venue.error);
      } else if venue.value.None? {
        outcome := Failure(DeleteMissing);
      } else {
        RemoveCount(repository.rows, id);
        ghost var before := repository.rows;
        outcome := repository.Delete(id, writeFault);
        forall other ensures Find(Remove(before, id), other) == if other == id then None else Find(before, other) {
          FindAfterRemove(before, id, other);
        }
      }
      r := Rewrap(outcome);
    }

    /** Every stored venue, mapped to DTOs in table order. */
    function GetAll(fault: Fault): (r: Result<seq<VenueDto>, ServiceError>)
      reads repository
      ensures fault.Some? ==> r == Failure(Custom(fault.value))
      ensures fault.None? ==> r.Success? && |r.value| == |repository.rows|
                              && forall i | 0 <= i < |r.value| :: VenueToEntity(r.value[i]) == repository.rows[i]
    {
      Rewrap(match repository.GetAll(fault)
             case Failure(message) => Failure(message)
             case Success(venues) => Success(VenuesToDtos(venues)))
    }

    /** The venue with this id. A non-positive id is refused before the store is read;
        an absent id is refused; otherwise the stored row is returned as a DTO. */
    function GetById(id: int, fault: Fault): (r: Result<VenueDto, ServiceError>)
      reads repository
      ensures id <= 0 ==> r == Failure(Custom(IdMustBePositive))
      ensures id > 0 && fault.Some? ==> r == Failure(Custom(fault.value))
      ensures id > 0 && fault.None? && id !in Ids(repository.rows) ==> r == Failure(Custom(GetMissing))
      ensures r.Success? <==> id > 0 && fault.None? && id in Ids(repository.rows)
      ensures r.Success? ==> r.value.Id == id && VenueToEntity(r.value) in repository.rows
    {
      if id <= 0 then Failure(Custom(IdMustBePositive))
      else
        Rewrap(match repository.GetById(id, fault)
               case Failure(message) => Failure(message)
               case Success(None) => Failure(GetMissing)
               case Success(Some(venue)) => Success(VenueToDto(venue)))
    }

    /** Updates a venue. A missing item is refused; an id with no stored row (which
        includes every non-positive id) is refused; otherwise the row with the item's id
        is overwritten by the mapped item and every other row is kept. */
    method Update(item: Option<VenueDto>, readFault: Fault, writeFault: Fault) returns (r: Result<(), ServiceError>)
      requires repository.Valid()
      modifies repository
      ensures repository.Valid() && repository.nextId == old(repository.nextId)
      ensures r.Failure? ==> repository.rows == old(repository.rows)
      ensures item.None? ==> r == Failure(Custom(NullVenue))
      ensures item.Some? && readFault.Some? ==> r == Failure(Custom(readFault.value))
      ensures item.Some? && readFault.None? && item.value.Id !in Ids(old(repository.rows))
              ==> r == Failure(Custom(UpdateMissing))
      ensures item.Some? && readFault.None? && item.value.Id <= 0 ==> r == Failure(Custom(UpdateMissing))
      ensures item.Some? && readFault.None? && item.value.Id in Ids(old(repository.rows)) && writeFault.Some?
              ==> r == Failure(Custom(writeFault.value))
      ensures r.Success? <==> item.Some? && readFault.None? && writeFault.None? && item.value.Id in Ids(old(repository.rows))
      ensures r.Success? ==> repository.rows == Replace(old(repository.rows), VenueToEntity(item.value))
                             && Ids(repository.rows) == Ids(old(repository.rows))
      ensures r.Success? ==> GetById(item.value.Id, None) == Success(item.value)
      ensures r.Success? ==> forall id | id != item.value.Id :: GetById(id, None) == old(GetById(id, None))
    {
      if item.None? {
        return Failure(Custom(NullVenue));
      }
      var outcome: Result<(), string>;
      var venue := repository.GetById(item.value.Id, readFault);
      if venue.Failure? {
        outcome := Failure(venue.error);
      } else if venue.value.None? {
        outcome := Failure(UpdateMissing);
      } else {
        ReplaceKeepsIds(repository.rows, VenueToEntity(item.value));
        ghost var before := repository.rows;
        outcome := repository.Update(VenueToEntity(item.value), writeFault);
        forall id ensures Find(Replace(before, VenueToEntity(item.value)), id)
                          == if id == item.value.Id then Some(VenueToEntity(item.value)) else Find(before, id) {
          FindAfterReplace(before, VenueToEntity(item.value), id);
        }
      }
      r := Rewrap(outcome);
    }
  }
}

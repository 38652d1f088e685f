/** The area service: Create with a null check and a (LayoutId, Description) uniqueness
    check, and GetAll; Delete, GetById and Update are not implemented. */
module AreaServices {
  import opened Wrappers
  import opened Entities
  import opened Table
  import opened Repository
  import opened Errors

  const NullArea := "Null area object."
  const DuplicateDescription := "An area with such a description already exists in this layout."

  /** Whether some area has both this layout and this description (the Any in Create). */
  function DescriptionTaken(areas: seq<AreaDto>, layoutId: int, description: string): (taken: bool)
    ensures taken <==> exists i | 0 <= i < |areas| :: areas[i].LayoutId == layoutId && areas[i].Description == description
  {
    if areas == [] then false
    else (areas[0].LayoutId == layoutId && areas[0].Description == description)
         || DescriptionTaken(areas[1..], layoutId, description)
  }

  /** No two areas of one layout share a description. */
  ghost predicate DescriptionsUniquePerLayout(areas: seq<Area>)
  {
    forall i, j | 0 <= i < j < |areas| ::
      areas[i].columns.LayoutId != areas[j].columns.LayoutId || areas[i].columns.Description != areas[j].columns.Description
  }

  /** The check is per pair: an area that differs from every stored one in its layout or
      in its description is not refused, whatever else it shares with them. */
  lemma DistinctPairAccepted(areas: seq<AreaDto>, d: AreaDto)
    requires forall i | 0 <= i < |areas| :: areas[i].LayoutId != d.LayoutId || areas[i].Description != d.Description
    ensures !DescriptionTaken(areas, d.LayoutId, d.Description)
  {
  }

  /** The check on mapped DTOs is the same as on the stored rows: an area appended under
      a free pair keeps the pairs unique. */
  lemma AppendFreshPair(areas: seq<Area>, a: Area)
    requires DescriptionsUniquePerLayout(areas)
    requires !DescriptionTaken(AreasToDtos(areas), a.columns.LayoutId, a.columns.Description)
    ensures DescriptionsUniquePerLayout(areas + [a])
  {
  }

  /** An appended area's (LayoutId, Description) pair is taken afterwards. */
  lemma PairTakenAfterAppend(areas: seq<Area>, a: Area)
    ensures DescriptionTaken(AreasToDtos(areas + [a]), a.columns.LayoutId, a.columns.Description)
  {
    var after := AreasToDtos(areas + [a]);
    assert AreaToEntity(after[|areas|]) == a;
  }

  class AreaService {
    const repository: Repository<AreaColumns>

    constructor (repository: Repository<AreaColumns>)
      ensures this.repository == repository
    {
      this.repository := repository;
    }

    /** Creates an area. A missing item is refused; then the service's own GetAll is
        read (its failure is already a Custom error and passes through), a taken
        (LayoutId, Description) pair is refused, and the mapped item is inserted once.
        Any failure leaves the table as it was and keeps its message. */
    method Create(item: Option<AreaDto>, readFault: Fault, writeFault: Fault) returns (r: Result<(), ServiceError>)
      requires repository.Valid()
      modifies repository
      ensures repository.Valid()
      ensures r.Failure? ==> repository.rows == old(repository.rows) && repository.nextId == old(repository.nextId)
      ensures item.None? ==> r == Failure(Custom(NullArea))
      ensures item.Some? && readFault.Some? ==> r == Failure(Custom(readFault.value))
      ensures item.Some? && readFault.None?
              && DescriptionTaken(AreasToDtos(old(repository.rows)), item.value.LayoutId, item.value.Description)
              ==> r == Failure(Custom(DuplicateDescription))
      ensures item.Some? && readFault.None? && writeFault.Some?
              && !DescriptionTaken(AreasToDtos(old(repository.rows)), item.value.LayoutId, item.value.Description)
              ==> r == Failure(Custom(writeFault.value))
      ensures r.Success? <==> item.Some? && readFault.None? && writeFault.None?
                              && !DescriptionTaken(AreasToDtos(old(repository.rows)), item.value.LayoutId, item.value.Description)
      ensures r.Success? ==> repository.rows == old(repository.rows) + [AreaToEntity(item.value).(Id := old(repository.nextId))]
      ensures r.Success? ==> repository.nextId == old(repository.nextId) + 1
      ensures DescriptionsUniquePerLayout(old(repository.rows)) ==> DescriptionsUniquePerLayout(repository.rows)
      ensures r.Success? ==> DescriptionTaken(AreasToDtos(repository.rows), item.value.LayoutId, item.value.Description)
    {
      if item.None? {
        return Failure(Custom(NullArea));
      }
      var areas := GetAll(readFault);
      if areas.Failure? {
        return Failure(areas.error);
      }
      if DescriptionTaken(areas.value, item.value.LayoutId, item.value.Description) {
        return Failure(Custom(DuplicateDescription));
      }
      ghost var before := repository.rows;
      var outcome := repository.Create(AreaToEntity(item.value), writeFault);
      if outcome.Success? {
        var added := repository.rows[|before|];
        assert repository.rows == before + [added];
        PairTakenAfterAppend(before, added);
        if DescriptionsUniquePerLayout(before) {
          AppendFreshPair(before, added);
        }
      }
      r := Rewrap(outcome);
    }

    /** Not implemented: always throws, and has no store access at all. */
    method Delete(id: int) returns (r: Result<(), ServiceError>)
      ensures r == Failure(NotImplemented)
    {
      r := Failure(NotImplemented);
    }

    /** Every stored area, mapped to DTOs in table order. */
    function GetAll(fault: Fault): (r: Result<seq<AreaDto>, ServiceError>)
      reads repository
      ensures fault.Some? ==> r == Failure(Custom(fault.value))
      ensures fault.None? ==> r.Success? && |r.value| == |repository.rows|
                              && forall i | 0 <= i < |r.value| :: AreaToEntity(r.value[i]) == repository.rows[i]
    {
      Rewrap(match repository.GetAll(fault)
             case Failure(message) => Failure(message)
             case Success(areas) => Success(AreasToDtos(areas)))
    }

    /** Not implemented: always throws. */
    method GetById(id: int) returns (r: Result<AreaDto, ServiceError>)
      ensures r == Failure(NotImplemented)
    {
      r := Failure(NotImplemented);
    }

    /** Not implemented: always throws, and has no store access at all. */
    method Update(item: Option<AreaDto>) returns (r: Result<(), ServiceError>)
      ensures r == Failure(NotImplemented)
    {
      r := Failure(NotImplemented);
    }
  }
}

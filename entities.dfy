/** Entities (rows of the store) and DTOs (what callers see) for venues and areas,
    and the field-for-field mapping between them. */
module Entities {

  /** A stored row: the identity column the store assigns, and the row's other columns. */
  datatype Row<C> = Row(Id: int, columns: C)

  /** The non-key columns of the Venue table. */
  datatype VenueColumns = VenueColumns(Name: string, Description: string, Address: string, Phone: string)

  /** The non-key columns of the Area table. */
  datatype AreaColumns = AreaColumns(LayoutId: int, Description: string, CoordX: int, CoordY: int)

  type Venue = Row<VenueColumns>
  type Area = Row<AreaColumns>

  datatype VenueDto = VenueDto(Id: int, Name: string, Description: string, Address: string, Phone: string)
  datatype AreaDto = AreaDto(Id: int, LayoutId: int, Description: string, CoordX: int, CoordY: int)

  /** Maps a venue entity to its DTO, property by property of the same name. */
  function VenueToDto(e: Venue): (d: VenueDto)
    ensures d.Id == e.Id && d.Name == e.columns.Name && d.Description == e.columns.Description
    ensures d.Address == e.columns.Address && d.Phone == e.columns.Phone
  {
    VenueDto(e.Id, e.columns.Name, e.columns.Description, e.columns.Address, e.columns.Phone)
  }

  /** Maps a venue DTO back to an entity; it is the inverse of VenueToDto. */
  function VenueToEntity(d: VenueDto): (e: Venue)
    ensures VenueToDto(e) == d
  {
    Row(d.Id, VenueColumns(d.Name, d.Description, d.Address, d.Phone))
  }

  /** Entity to DTO and back gives the entity again. */
  lemma VenueMappingRoundTrip(e: Venue)
    ensures VenueToEntity(VenueToDto(e)) == e
  {
  }

  /** Maps an area entity to its DTO, property by property of the same name. */
  function AreaToDto(e: Area): (d: AreaDto)
    ensures d.Id == e.Id && d.LayoutId == e.columns.LayoutId && d.Description == e.columns.Description
    ensures d.CoordX == e.columns.CoordX && d.CoordY == e.columns.CoordY
  {
    AreaDto(e.Id, e.columns.LayoutId, e.columns.Description, e.columns.CoordX, e.columns.CoordY)
  }

  /** Maps an area DTO back to an entity; it is the inverse of AreaToDto. */
  function AreaToEntity(d: AreaDto): (e: Area)
    ensures AreaToDto(e) == d
  {
    Row(d.Id, AreaColumns(d.LayoutId, d.Description, d.CoordX, d.CoordY))
  }

  /** Entity to DTO and back gives the entity again. */
  lemma AreaMappingRoundTrip(e: Area)
    ensures AreaToEntity(AreaToDto(e)) == e
  {
  }

  /** Maps a sequence of venue entities, element by element and in order. */
  function VenuesToDtos(s: seq<Venue>): (r: seq<VenueDto>)
    ensures |r| == |s|
    ensures forall i | 0 <= i < |s| :: VenueToEntity(r[i]) == s[i]
  {
    if s == [] then [] else [VenueToDto(s[0])] + VenuesToDtos(s[1..])
  }

  /** Maps a sequence of area entities, element by element and in order. */
  function AreasToDtos(s: seq<Area>): (r: seq<AreaDto>)
    ensures |r| == |s|
    ensures forall i | 0 <= i < |s| :: AreaToEntity(r[i]) == s[i]
  {
    if s == [] then [] else [AreaToDto(s[0])] + AreasToDtos(s[1..])
  }
}

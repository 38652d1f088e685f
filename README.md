# Ticket management: venue and area services

A Dafny model of the business-rule layer of a ticket-management back end. Two services
sit between callers and a per-entity repository:

- **VenueService** implements Create, Delete, GetAll, GetById and Update for venues.
  Before touching the store it checks for a null item, for a positive id (Delete,
  GetById), that the row exists (Delete, GetById, Update) and that the name is free
  (Create).
- **AreaService** implements Create, with a null check and a uniqueness check on the
  (LayoutId, Description) pair, and GetAll. Delete, GetById and Update are stubs that
  throw `NotImplementedException`.

Every failure inside a venue operation, and every store failure in an area operation,
reaches the caller as one exception kind, `CustomException`, carrying only a message.

## How the model is built

- `wrappers.dfy`: `Option`, which stands for a reference that may be null, and
  `Result`, which stands for a call that may throw.
- `entities.dfy`: a stored row is `Row(Id, columns)`, the identity column plus the
  table's other columns. `Venue` and `Area` are rows. `VenueDto` and `AreaDto` are
  the flat records callers see. The AutoMapper profiles map properties of the same
  name, so the mapping is the field-for-field identity, in both directions and over
  sequences.
- `table.dfy`: one table's contents as a sequence of rows in insertion order. It
  defines lookup (`Find`), deletion (`Remove`) and replacement (`Replace`) by
  identifier, with lemmas on how a lookup sees each change.
- `repository.dfy`: the class `Repository<C>`, following the five-method
  `IRepository<T>` interface. It holds the rows and the next identity value. Its
  invariant `Valid` says that identities are positive, below the next one, and
  strictly increasing. A store fault is an input to each call: `None` means the store
  answers, `Some(message)` means the call throws with that message and changes nothing.
- `errors.dfy`: `ServiceError = Custom(message) | NotImplemented`. `Rewrap` is the
  services' catch-all clause, which rethrows the caught exception's message as a
  `CustomException`.
- `venue_service.dfy` and `area_service.dfy`: the two service classes. Each holds its
  repository. Every operation that reads and then writes the store takes two fault
  inputs: `readFault` for the read (GetAll or GetById) and `writeFault` for the write.
  A null argument is `None` of `Option<Dto>`.

The methods that change the table state their whole new table in terms of the old
one, and relate it to the read-only operations: after a successful Create, GetById of
the new id returns the input; after Update, it returns the item; after Delete, it
fails with "The venue does not exist."; every other lookup is unchanged.

Venue Update checks only that the id exists, not that the new name is free. So unique
venue names are kept by Create alone, and `UpdateMayRepeatName` exhibits an Update that
gives two venues the same name.

## Model

| member | source | states |
|---|---|---|
| VenueServices.VenueService.Create | EvgeniyaSirotkina/src/EPAM.TicketManagement.BLL/Services/VenueService.cs:29-51 | None gives "Null venue object." before any store access. A read fault's message is passed through. A name already stored gives "An venue with such a name already exists.". A write fault's message is passed through. Every failure leaves the table and the identity counter unchanged. Success happens exactly when none of these apply; then exactly one row is appended, with the store's next identity and the input's other fields, and the identity counter advances by one. GetById of that id returns the input, other lookups are unchanged, and unique names stay unique. |
| VenueServices.VenueService.Delete | EvgeniyaSirotkina/src/EPAM.TicketManagement.BLL/Services/VenueService.cs:53-75 | An id ≤ 0 gives "Id must be positive." whatever the store would do. A read fault's message is passed through. An absent id gives "The venue you want to delete does not exist.". A write fault's message is passed through. Failures change nothing. On success exactly that row is removed, the count drops by one, GetById of the id fails with "The venue does not exist.", and every other lookup is unchanged. |
| VenueServices.VenueService.GetAll | EvgeniyaSirotkina/src/EPAM.TicketManagement.BLL/Services/VenueService.cs:77-87 | A fault surfaces as Custom with the same message. Otherwise every stored venue is returned, mapped field for field, in table order. It is a function, so it does not change the table. |
| VenueServices.VenueService.GetById | EvgeniyaSirotkina/src/EPAM.TicketManagement.BLL/Services/VenueService.cs:89-111 | An id ≤ 0 gives "Id must be positive.". A fault's message is passed through. An absent id gives "The venue does not exist.". Success happens exactly when the id is positive and stored, and returns a DTO whose id is the requested one and which maps back to a stored row. |
| VenueServices.VenueService.Update | EvgeniyaSirotkina/src/EPAM.TicketManagement.BLL/Services/VenueService.cs:113-135 | None gives "Null venue object.". A read fault's message is passed through. An id not in the table, including every id ≤ 0, gives "The venue you want to update does not exist.". A write fault's message is passed through. Failures change nothing. On success the row with the item's id is replaced by the mapped item and every other row is kept. The set of ids is unchanged, GetById returns the item, and other lookups are unchanged. |
| VenueServices.NameTaken | EvgeniyaSirotkina/src/EPAM.TicketManagement.BLL/Services/VenueService.cs:38-43 | True exactly when some stored venue has the same name, by exact string equality. |
| VenueServices.AppendFreshName | EvgeniyaSirotkina/src/EPAM.TicketManagement.BLL/Services/VenueService.cs:38-45 | Appending a venue whose name is not taken keeps venue names unique. |
| VenueServices.NameTakenAfterAppend | EvgeniyaSirotkina/src/EPAM.TicketManagement.BLL/Services/VenueService.cs:38-45 | After a venue is added its name is taken, so a second Create with the same name is refused and the count rises only once. |
| VenueServices.UpdateMayRepeatName | EvgeniyaSirotkina/src/EPAM.TicketManagement.BLL/Services/VenueService.cs:113-135 | Update does not check names: a table with unique names and an Update of an existing id can end with two venues of the same name. |
| AreaServices.AreaService.Create | EvgeniyaSirotkina/src/EPAM.TicketManagement.BLL/Services/AreaService.cs:28-48 | None gives "Null area object.". A read fault in the service's GetAll passes through as Custom with the same message. A stored area with the same LayoutId and Description gives "An area with such a description already exists in this layout.". A write fault's message is passed through. Every failure leaves the table unchanged. Success happens exactly when none of these apply; then exactly one row is appended, with the next identity and the input's LayoutId, Description, CoordX and CoordY, and the identity counter advances by one. Afterwards the pair is taken, and pairs that were unique per layout stay unique. |
| AreaServices.DescriptionTaken | EvgeniyaSirotkina/src/EPAM.TicketManagement.BLL/Services/AreaService.cs:35 | True exactly when some area matches on both LayoutId and Description. |
| AreaServices.DistinctPairAccepted | EvgeniyaSirotkina/src/EPAM.TicketManagement.BLL/Services/AreaService.cs:35 | The check is per pair: an area whose layout or description differs from every stored area's is not refused. |
| AreaServices.AppendFreshPair | EvgeniyaSirotkina/src/EPAM.TicketManagement.BLL/Services/AreaService.cs:35-42 | Checking the mapped DTOs is the same as checking the stored rows: appending an area under a free pair keeps (LayoutId, Description) unique. |
| AreaServices.PairTakenAfterAppend | EvgeniyaSirotkina/src/EPAM.TicketManagement.BLL/Services/AreaService.cs:35-42 | After an area is added its pair is taken, so a second identical Create is refused. |
| AreaServices.AreaService.GetAll | EvgeniyaSirotkina/src/EPAM.TicketManagement.BLL/Services/AreaService.cs:55-65 | A fault surfaces as Custom with the same message. Otherwise every stored area is returned, mapped field for field, in table order, and the table is not changed. |
| AreaServices.AreaService.Delete | EvgeniyaSirotkina/src/EPAM.TicketManagement.BLL/Services/AreaService.cs:50-53 | Always fails with NotImplemented. It has no access to the store. |
| AreaServices.AreaService.GetById | EvgeniyaSirotkina/src/EPAM.TicketManagement.BLL/Services/AreaService.cs:67-70 | Always fails with NotImplemented. |
| AreaServices.AreaService.Update | EvgeniyaSirotkina/src/EPAM.TicketManagement.BLL/Services/AreaService.cs:72-75 | Always fails with NotImplemented. It has no access to the store. |
| Errors.Rewrap | EvgeniyaSirotkina/src/EPAM.TicketManagement.BLL/Services/VenueService.cs:47-50 | A caught exception is rethrown as Custom with its message unchanged, so validation messages thrown inside the try block keep their text. A completed block passes its value through. |
| Entities.VenueToDto | EvgeniyaSirotkina/src/EPAM.TicketManagement.BLL/MapperProfiles/ServiceProfile.cs:14 | The DTO has the entity's Id, Name, Description, Address and Phone. |
| Entities.VenueToEntity | EvgeniyaSirotkina/src/EPAM.TicketManagement.BLL/MapperProfiles/ServiceProfile.cs:14 | The reverse map: mapping back to a DTO gives the original DTO. |
| Entities.VenueMappingRoundTrip | EvgeniyaSirotkina/src/EPAM.TicketManagement.BLL/MapperProfiles/ServiceProfile.cs:14 | Entity to DTO and back gives the original entity. |
| Entities.AreaToDto | EvgeniyaSirotkina/src/EPAM.TicketManagement.BLL/MapperProfiles/AreaProfile.cs:11 | The DTO has the entity's Id, LayoutId, Description, CoordX and CoordY. |
| Entities.AreaToEntity | EvgeniyaSirotkina/src/EPAM.TicketManagement.BLL/MapperProfiles/AreaProfile.cs:11 | The reverse map: mapping back to a DTO gives the original DTO. |
| Entities.AreaMappingRoundTrip | EvgeniyaSirotkina/src/EPAM.TicketManagement.BLL/MapperProfiles/AreaProfile.cs:11 | Entity to DTO and back gives the original entity. |
| Entities.VenuesToDtos | EvgeniyaSirotkina/src/EPAM.TicketManagement.BLL/Services/VenueService.cs:81 | The sequence map keeps the length and maps each element back to the entity at the same position. |
| Entities.AreasToDtos | EvgeniyaSirotkina/src/EPAM.TicketManagement.BLL/Services/AreaService.cs:59 | The sequence map keeps the length and maps each element back to the entity at the same position. |
| Repository.Repository.Create | EvgeniyaSirotkina/src/EPAM.TicketManagement.DAL/Interfaces/IRepository.cs:8 | A fault changes nothing. Otherwise the row is appended with the next identity, ignoring the item's Id, and the identity counter advances by one. |
| Repository.Repository.Delete | EvgeniyaSirotkina/src/EPAM.TicketManagement.DAL/Interfaces/IRepository.cs:10 | A fault changes nothing. Otherwise the table loses the row with that id; an absent id changes nothing. |
| Repository.Repository.Update | EvgeniyaSirotkina/src/EPAM.TicketManagement.DAL/Interfaces/IRepository.cs:12 | A fault changes nothing. Otherwise the row with the item's id is replaced. |
| Repository.Repository.GetById | EvgeniyaSirotkina/src/EPAM.TicketManagement.DAL/Interfaces/IRepository.cs:14 | A fault's message is returned. Otherwise the result is None exactly when the id is absent, and a stored row with that id when it is present. |
| Repository.Repository.GetAll | EvgeniyaSirotkina/src/EPAM.TicketManagement.DAL/Interfaces/IRepository.cs:16 | A fault's message is returned. Otherwise all rows are returned. |
| Table.Find | EvgeniyaSirotkina/src/EPAM.TicketManagement.DAL/Repositories/VenueRepository.cs:81-113 | None exactly when no row has the id; otherwise a stored row with that id. |
| Table.Remove | EvgeniyaSirotkina/src/EPAM.TicketManagement.DAL/Repositories/VenueRepository.cs:35-48 | Removes the id from the set of ids. Keeps exactly the rows with another id. An absent id leaves the table as it is. |
| Table.Replace | EvgeniyaSirotkina/src/EPAM.TicketManagement.DAL/Repositories/VenueRepository.cs:115-137 | Same length. Each row with the item's id becomes the item and every other row is kept. |
| Table.FindUnique | EvgeniyaSirotkina/src/EPAM.TicketManagement.DAL/Repositories/VenueRepository.cs:81-113 | In a table with increasing ids, the row Find returns is the one stored under that id. |
| Table.RemoveKeepsOrder | EvgeniyaSirotkina/src/EPAM.TicketManagement.DAL/Repositories/VenueRepository.cs:35-48 | Deleting keeps the ids increasing. |
| Table.RemoveCount | EvgeniyaSirotkina/src/EPAM.TicketManagement.DAL/Repositories/VenueRepository.cs:35-48 | With increasing ids, deleting a present id removes exactly one row and deleting an absent id removes none. |
| Table.ReplaceKeepsIds | EvgeniyaSirotkina/src/EPAM.TicketManagement.DAL/Repositories/VenueRepository.cs:115-137 | Replacing keeps the set of ids and their increasing order. |
| Table.FindAfterAppend | EvgeniyaSirotkina/src/EPAM.TicketManagement.DAL/Repositories/VenueRepository.cs:17-33 | A row appended with a larger id is what Find returns for that id; other lookups are unchanged. |
| Table.FindAfterReplace | EvgeniyaSirotkina/src/EPAM.TicketManagement.DAL/Repositories/VenueRepository.cs:115-137 | After replacing a present id, Find returns the new row for it. In any table, lookups of other ids are unchanged. |
| Table.FindAfterRemove | EvgeniyaSirotkina/src/EPAM.TicketManagement.DAL/Repositories/VenueRepository.cs:35-48 | After deleting an id, Find returns None for it; other lookups are unchanged. |

## Left out

- The SQL of the repositories is not modelled: connections, commands, readers and statement text. The store is the in-memory table of `Repository<C>`. Defects in that text, such as the Area Update naming the Venue table or the Venue Update writing an `[Adress]` column, are store-level and are not modelled. Update is taken to replace all non-key columns.
- Which store calls fail, and with what message, is an input. The model does not say when a real store faults, and it takes a faulting statement to change nothing.
- The order GetAll returns is the insertion order of the table. The store guarantees no order for a SELECT without ORDER BY.
- Identities are unbounded integers. The 32-bit range of the C# `int` and of the identity column is not modelled.
- AutoMapper's configuration is not modelled. The mapping is the field-for-field identity that the two profiles declare.
- The inner-exception and serialization constructors of `CustomException` are not modelled. Only the message is kept.
- Concurrent callers racing on one id are not modelled. The services hold no locks, and every call here is one atomic step.
- Layout, Seat, Event, EventArea and EventSeat services and repositories are not part of this model.
- No lookup-after-Create property is stated for areas: `AreaService.GetById` is a stub that throws `NotImplementedException`, so the service offers no such lookup.

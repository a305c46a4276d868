/** Field-for-field conversion between the wire record and the storage record. */
module Mapper {
  import opened Wrappers
  import opened Entity
  import opened Dto

  /** toDTO: copies all six fields, the id included. */
  function ToDTO(e: Employee): (d: EmployeeDTO)
    ensures Dto.Valid(d) <==> ValidRow(e)
    ensures DtoViolations(d) == RowViolations(e)
  {
    EmployeeDTO(e.id, e.name, e.email, e.department, e.salary, e.joiningDate)
  }

  /** toEntity: copies the five data fields and leaves the id unset for the store to assign. */
  function ToEntity(d: EmployeeDTO): (e: Employee)
    ensures e.id.None?
    ensures ToDTO(e) == d.(id := None)
  {
    Employee(None, d.name, d.email, d.department, d.salary, d.joiningDate)
  }

  /** Maps a list of rows to wire records, element by element. */
  function ToDTOs(rows: seq<Employee>): (ds: seq<EmployeeDTO>)
    ensures |ds| == |rows|
    ensures forall i :: 0 <= i < |rows| ==> ds[i] == ToDTO(rows[i])
  {
    seq(|rows|, i requires 0 <= i < |rows| => ToDTO(rows[i]))
  }

  /** toDTO keeps every field of the row. */
  lemma ToDTOCopiesAllFields(e: Employee)
    ensures var d := ToDTO(e);
      d.id == e.id && d.name == e.name && d.email == e.email && d.department == e.department
      && d.salary == e.salary && d.joiningDate == e.joiningDate
  {
  }

  /** Mapping a row to the wire and back loses only the id. */
  lemma EntityRoundTrip(e: Employee)
    ensures ToEntity(ToDTO(e)) == e.(id := None)
  {
  }

  /** Mapping a DTO to a row and back loses only the id. */
  lemma DtoRoundTrip(d: EmployeeDTO)
    ensures ToDTO(ToEntity(d)) == d.(id := None)
  {
  }

  /** Once the store has set the id, the saved row maps back to the request with that id. */
  lemma SavedRoundTrip(d: EmployeeDTO, id: nat)
    ensures ToDTO(ToEntity(d).(id := Some(id))) == d.(id := Some(id))
  {
  }

  /** A client-supplied id never reaches the row: DTOs that differ only in id map to the same row. */
  lemma ClientIdIgnored(d1: EmployeeDTO, d2: EmployeeDTO)
    requires d1.(id := None) == d2.(id := None)
    ensures ToEntity(d1) == ToEntity(d2)
  {
  }

  /** The DTO and the row carry the same constraints, so a DTO is valid exactly when its row is. */
  lemma ValidityTransfers(d: EmployeeDTO)
    ensures Dto.Valid(d) <==> ValidRow(ToEntity(d))
    ensures DtoViolations(d) == RowViolations(ToEntity(d))
  {
  }
}

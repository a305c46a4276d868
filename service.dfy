/**
 * The employee service over the repository. The repository's state (the
 * rows and the identity column's next value) lives in the service object,
 * which is the only holder of the table in the model.
 */
module Service {
  import opened Wrappers
  import opened Fields
  import opened Entity
  import opened Dto
  import opened Mapper
  import opened Store
  import Decimal

  /** Why the store refused to save a row. */
  datatype Violation =
    | InvalidRow(messages: set<string>)   // bean validation of the entity before it is written
    | UniqueEmailTaken(email: string)     // the unique column constraint on email

  /** The exceptions a service call can raise. */
  datatype Failure =
    | NotFound(message: string)             // ResourceNotFoundException
    | ConstraintViolation(violation: Violation)
    | IllegalArgument(message: string)      // raised while building a page request
    | UnknownProperty(property: string)     // sorting by a property Employee does not have
    | OffsetTooLarge(offset: nat)           // a page offset beyond Integer.MAX_VALUE

  function NotFoundWithId(id: nat): string {
    "Employee not found with id: " + Decimal.NatToString(id)
  }

  /** deleteEmployee spells its message with an upper-case ID. */
  function NotFoundWithUpperId(id: nat): string {
    "Employee not found with ID: " + Decimal.NatToString(id)
  }

  /** How a save of row e over table t turns out: the failure it raises, if any. */
  function SaveRefusal(t: Table, e: Employee): (f: Option<Failure>)
    ensures f.None? <==> ValidRow(e) && !EmailClash(t, e.email, e.id)
    ensures f.Some? ==> f.value.ConstraintViolation?
  {
    if !ValidRow(e) then Some(ConstraintViolation(InvalidRow(RowViolations(e))))
    else if EmailClash(t, e.email, e.id) then Some(ConstraintViolation(UniqueEmailTaken(e.email.value)))
    else None
  }

  class EmployeeService {
    var table: Table
    var nextId: nat

    ghost predicate Valid()
      reads this
    {
      TableInvariant(table, nextId)
    }

    /** An empty table whose identity column starts at 1. */
    constructor ()
      ensures Valid() && table == map[] && nextId == 1
    {
      table := map[];
      nextId := 1;
      EmptyTableInvariant();
    }

    /**
     * The repository's save: a row without id is inserted under the next
     * identity value, a row with an id overwrites the stored row of that id.
     * Either way the row is validated and the email constraint is enforced
     * first; a refused save changes nothing.
     */
    method Save(e: Employee) returns (r: Result<Employee, Failure>)
      requires Valid()
      requires e.id.Some? ==> e.id.value in table
      modifies this
      ensures Valid()
      ensures SaveRefusal(old(table), e).Some? ==>
        r == Err(SaveRefusal(old(table), e).value) && table == old(table) && nextId == old(nextId)
      ensures SaveRefusal(old(table), e).None? && e.id.None? ==>
        var saved := e.(id := Some(old(nextId)));
        && old(nextId) !in old(table)
        && r == Ok(saved) && table == old(table)[old(nextId) := saved] && nextId == old(nextId) + 1
      ensures SaveRefusal(old(table), e).None? && e.id.Some? ==>
        r == Ok(e) && table == old(table)[e.id.value := e] && nextId == old(nextId)
    {
      var refusal := SaveRefusal(table, e);
      if refusal.Some? {
        return Err(refusal.value);
      }
      if e.id.None? {
        var saved := e.(id := Some(nextId));
        NextIdIsFree(table, nextId);
        table := table[nextId := saved];
        nextId := nextId + 1;
        r := Ok(saved);
      } else {
        table := table[e.id.value := e];
        r := Ok(e);
      }
    }

    /**
     * addEmployee: maps the DTO to a row, saves it, and returns the saved row
     * as a DTO. The service does not check the email itself; the store's
     * constraint refuses a duplicate.
     */
    method AddEmployee(dto: EmployeeDTO) returns (r: Result<EmployeeDTO, Failure>)
      requires Valid()
      modifies this
      ensures Valid()
      ensures var e := ToEntity(dto);
        if SaveRefusal(old(table), e).None? then
          && old(nextId) !in old(table)
          && r == Ok(dto.(id := Some(old(nextId))))
          && table == old(table)[old(nextId) := e.(id := Some(old(nextId)))]
          && nextId == old(nextId) + 1
        else
          r == Err(SaveRefusal(old(table), e).value) && table == old(table) && nextId == old(nextId)
    {
      var employee := ToEntity(dto);
      var saved := Save(employee);
      match saved
      case Ok(s) =>
        SavedRoundTrip(dto, s.id.value);
        r := Ok(ToDTO(s));
      case Err(f) =>
        r := Err(f);
    }

    /** getAllEmployees(): every stored row as a DTO, in id order. */
    method GetAllEmployees() returns (list: seq<EmployeeDTO>)
      requires Valid()
      ensures list == ToDTOs(Rows(table, nextId))
      ensures |list| == |table|
      ensures forall k :: k in table ==> ToDTO(table[k]) in list
      ensures forall i :: 0 <= i < |list| ==> exists k :: k in table && list[i] == ToDTO(table[k]) && list[i].id == Some(k)
    {
      var rows := Rows(table, nextId);
      list := ToDTOs(rows);
      RowsAreTable(table, nextId);
      forall k | k in table
        ensures ToDTO(table[k]) in list
      {
        var i :| 0 <= i < |rows| && rows[i] == table[k];
        assert list[i] == ToDTO(table[k]);
      }
    }

    /**
     * getAllEmployees(pageable): the store's page, each row mapped to a DTO,
     * with the page's metadata unchanged. Sorting by a name that is not a
     * property of Employee fails while the query is built; then an offset
     * (page times size) beyond Integer.MAX_VALUE is refused, since JPA takes
     * the first result as an int. The model orders every page by id; for any
     * other sort property the contract states only which rows can appear.
     */
    method GetAllEmployeesPaged(req: PageRequest) returns (r: Result<Page<EmployeeDTO>, Failure>)
      requires Valid()
      requires WellFormedRequest(req)
      ensures r.Ok? <==> IsEmployeeProperty(req.sortBy) && OffsetFits(req)
      ensures !IsEmployeeProperty(req.sortBy) ==> r == Err(UnknownProperty(req.sortBy))
      ensures IsEmployeeProperty(req.sortBy) && !OffsetFits(req) ==> r == Err(OffsetTooLarge(req.page * req.size))
      ensures r.Ok? ==>
        && r.value.number == req.page && r.value.size == req.size && r.value.totalElements == |table|
        && |r.value.content| == |PageOf(Rows(table, nextId), req.page, req.size)|
        && forall i :: 0 <= i < |r.value.content| ==>
             exists k :: k in table && r.value.content[i] == ToDTO(table[k])
      ensures r.Ok? && req.sortBy == "id" ==>
        r.value.content == ToDTOs(PageOf(Rows(table, nextId), req.page, req.size))
    {
      if !IsEmployeeProperty(req.sortBy) {
        return Err(UnknownProperty(req.sortBy));
      }
      if !OffsetFits(req) {
        return Err(OffsetTooLarge(req.page * req.size));
      }
      var rows := Rows(table, nextId);
      var content := PageOf(rows, req.page, req.size);
      var dtos := ToDTOs(content);
      RowsAreTable(table, nextId);
      PageOfStoredRows(table, rows, req.page, req.size);
      forall i | 0 <= i < |dtos|
        ensures exists k :: k in table && dtos[i] == ToDTO(table[k])
      {
        assert dtos[i] == ToDTO(table[content[i].id.value]);
      }
      r := Ok(Page(dtos, req.page, req.size, |rows|));
    }

    /** getEmployeeById: the row as a DTO, or NotFound for an unknown id. */
    method GetEmployeeById(id: nat) returns (r: Result<EmployeeDTO, Failure>)
      requires Valid()
      ensures id in table ==> r == Ok(ToDTO(table[id])) && r.value.id == Some(id)
      ensures id !in table ==> r == Err(NotFound(NotFoundWithId(id)))
    {
      var found := FindById(table, id);
      if found.None? {
        return Err(NotFound(NotFoundWithId(id)));
      }
      r := Ok(ToDTO(found.value));
    }

    /**
     * updateEmployee: fetches the row, overwrites its five data fields from
     * the DTO one after another, and saves it. The stored id is kept whatever
     * id the DTO carries; the email is not re-checked here, so a clash with
     * another row surfaces as the store's constraint violation.
     */
    method UpdateEmployee(id: nat, dto: EmployeeDTO) returns (r: Result<EmployeeDTO, Failure>)
      requires Valid()
      modifies this
      ensures Valid()
      ensures nextId == old(nextId)
      ensures id !in old(table) ==> r == Err(NotFound(NotFoundWithId(id))) && table == old(table)
      ensures id in old(table) ==>
        var updated := ToEntity(dto).(id := Some(id));
        if SaveRefusal(old(table), updated).None? then
          r == Ok(dto.(id := Some(id))) && table == old(table)[id := updated]
        else
          r == Err(SaveRefusal(old(table), updated).value) && table == old(table)
    {
      var found := FindById(table, id);
      if found.None? {
        return Err(NotFound(NotFoundWithId(id)));
      }
      var existing := found.value;
      existing := existing.(name := dto.name);
      existing := existing.(email := dto.email);
      existing := existing.(department := dto.department);
      existing := existing.(salary := dto.salary);
      existing := existing.(joiningDate := dto.joiningDate);
      assert existing == ToEntity(dto).(id := Some(id));
      var saved := Save(existing);
      match saved
      case Ok(s) =>
        SavedRoundTrip(dto, id);
        r := Ok(ToDTO(s));
      case Err(f) =>
        r := Err(f);
    }

    /** deleteEmployee: removes the row, or fails with NotFound and removes nothing. */
    method DeleteEmployee(id: nat) returns (r: Result<(), Failure>)
      requires Valid()
      modifies this
      ensures Valid()
      ensures nextId == old(nextId)
      ensures id in old(table) ==> r == Ok(()) && table == old(table) - {id} && id !in table
      ensures id !in old(table) ==> r == Err(NotFound(NotFoundWithUpperId(id))) && table == old(table)
    {
      if id !in table {
        return Err(NotFound(NotFoundWithUpperId(id)));
      }
      UniqueEmailsAfterRemove(table, id);
      table := table - {id};
      r := Ok(());
    }

    /** existsById. */
    method ExistsById(id: nat) returns (b: bool)
      ensures b <==> id in table
    {
      b := id in table;
    }

    /** existsByEmail: whether some row has exactly this email (null asks for a row without one). */
    method ExistsByEmail(email: Option<string>) returns (b: bool)
      ensures b <==> exists k :: k in table && table[k].email == email
    {
      b := EmailInUse(table, email);
    }
  }
}

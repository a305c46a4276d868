/**
 * The HTTP handlers of /api/employees as decisions from the service's state
 * and the request to a status code and a response body. Request validation
 * (@Valid on the request body) runs before a handler's body does.
 */
module Controller {
  import opened Wrappers
  import opened Fields
  import opened Entity
  import opened Dto
  import opened Mapper
  import opened Store
  import opened Service
  import Decimal

  const OK: int := 200
  const CREATED: int := 201
  const BAD_REQUEST: int := 400
  const NOT_FOUND: int := 404
  const INTERNAL_SERVER_ERROR: int := 500

  const DefaultPage: int := 0
  const DefaultSize: int := 10
  const DefaultSortBy: string := "id"

  const AddFailed: string := "An error occurred while adding the employee: "
  const FetchAllFailed: string := "An error occurred while fetching employees: "
  const FetchFailed: string := "An error occurred while fetching the employee: "
  const UpdateFailed: string := "An error occurred while updating the employee: "
  const DeleteFailed: string := "An error occurred while deleting the employee: "

  /** What a response carries. */
  datatype Body =
    | Text(text: string)                      // a plain string
    | One(employee: EmployeeDTO)
    | Many(employees: seq<EmployeeDTO>)
    | Paged(page: Page<EmployeeDTO>)
    | Failed(prefix: string, cause: Failure)  // prefix + the exception's message
    | Invalid(violations: set<string>)        // the framework's reply to a body that fails validation

  datatype Response = Response(status: int, body: Body)

  /** A nullable string in a Java string concatenation. */
  function Show(s: Option<string>): string {
    match s
    case None => "null"
    case Some(v) => v
  }

  function NoEmployeeWithId(id: nat): string {
    "No employee found with ID: " + Decimal.NatToString(id)
  }

  /**
   * An int request parameter with a default value: the default stands in
   * when it is absent. An empty value counts as absent before it gets here.
   */
  function IntParam(p: Option<int>, default: int): (v: int)
    ensures p.None? ==> v == default
    ensures p.Some? ==> v == p.value
  {
    if p.Some? then p.value else default
  }

  /** A string request parameter with a default value: the default stands in when it is absent or empty. */
  function StringParam(p: Option<string>, default: string): (s: string)
    ensures p.Some? && p.value != "" ==> s == p.value
    ensures p.None? || p.value == "" ==> s == default
    ensures default != "" ==> s != ""
  {
    if p.Some? && p.value != "" then p.value else default
  }

  /**
   * PageRequest.of(page, size, Sort.by(sortBy)). Sort.by is evaluated first
   * and refuses a property without text; PageRequest.of then refuses a
   * negative page index and a page size below one.
   */
  function PageRequestOf(page: int, size: int, sortBy: string): (r: Result<PageRequest, Failure>)
    ensures r.Ok? <==> HasText(sortBy) && page >= 0 && size >= 1
    ensures r.Ok? ==> r.value == PageRequest(page, size, sortBy) && WellFormedRequest(r.value)
  {
    if !HasText(sortBy) then Err(IllegalArgument("Property must not be null or empty"))
    else if page < 0 then Err(IllegalArgument("Page index must not be less than zero"))
    else if size < 1 then Err(IllegalArgument("Page size must not be less than one"))
    else Ok(PageRequest(page, size, sortBy))
  }

  class EmployeeController {
    const service: EmployeeService

    constructor (service: EmployeeService)
      ensures this.service == service
    {
      this.service := service;
    }

    /**
     * POST /api/employees. An invalid body is refused with 400, a taken email
     * with 400 before anything is saved; otherwise the row is added and 201
     * returns it with its new id. In this sequential model the save cannot
     * fail, so the 500 path is never taken.
     */
    method AddEmployee(dto: EmployeeDTO) returns (resp: Response)
      requires service.Valid()
      modifies service
      ensures service.Valid()
      ensures resp.status != INTERNAL_SERVER_ERROR
      ensures !Dto.Valid(dto) ==>
        resp == Response(BAD_REQUEST, Invalid(DtoViolations(dto))) && unchanged(service)
      ensures Dto.Valid(dto) && EmailInUse(old(service.table), dto.email) ==>
        resp == Response(BAD_REQUEST, Text("Email already exists: " + Show(dto.email))) && unchanged(service)
      ensures Dto.Valid(dto) && !EmailInUse(old(service.table), dto.email) ==>
        var id := old(service.nextId);
        && id !in old(service.table)
        && resp == Response(CREATED, One(dto.(id := Some(id))))
        && service.table == old(service.table)[id := ToEntity(dto).(id := Some(id))]
        && service.nextId == id + 1
    {
      if !Dto.Valid(dto) {
        return Response(BAD_REQUEST, Invalid(DtoViolations(dto)));
      }
      var taken := service.ExistsByEmail(dto.email);
      if taken {
        return Response(BAD_REQUEST, Text("Email already exists: " + Show(dto.email)));
      }
      ValidityTransfers(dto);
      var saved := service.AddEmployee(dto);
      match saved
      case Ok(d) =>
        resp := Response(CREATED, One(d));
      case Err(f) =>
        resp := Response(INTERNAL_SERVER_ERROR, Failed(AddFailed, f));
    }

    /** GET /api/employees: 200 with every row as a DTO, in id order. */
    method GetAllEmployees() returns (resp: Response)
      requires service.Valid()
      ensures resp.status == OK && resp.body.Many?
      ensures resp.body.employees == ToDTOs(Rows(service.table, service.nextId))
      ensures |resp.body.employees| == |service.table|
      ensures forall k :: k in service.table ==> ToDTO(service.table[k]) in resp.body.employees
    {
      var employees := service.GetAllEmployees();
      resp := Response(OK, Many(employees));
    }

    /**
     * GET /api/employees/paged. Missing or empty parameters take the defaults
     * page 0, size 10, sort by id. A malformed request, an unknown sort
     * property or an offset beyond the int range becomes a 500; otherwise 200
     * with the page.
     */
    method GetAllEmployeesPaged(page: Option<int>, size: Option<int>, sortBy: Option<string>)
      returns (resp: Response)
      requires service.Valid()
      ensures var p, z, s := IntParam(page, DefaultPage), IntParam(size, DefaultSize), StringParam(sortBy, DefaultSortBy);
        && (PageRequestOf(p, z, s).Err? ==>
              resp == Response(INTERNAL_SERVER_ERROR, Failed(FetchAllFailed, PageRequestOf(p, z, s).error)))
        && (PageRequestOf(p, z, s).Ok? && !IsEmployeeProperty(s) ==>
              resp == Response(INTERNAL_SERVER_ERROR, Failed(FetchAllFailed, UnknownProperty(s))))
        && (PageRequestOf(p, z, s).Ok? && IsEmployeeProperty(s) && !OffsetFits(PageRequestOf(p, z, s).value) ==>
              resp == Response(INTERNAL_SERVER_ERROR, Failed(FetchAllFailed, OffsetTooLarge(p * z))))
        && (PageRequestOf(p, z, s).Ok? && IsEmployeeProperty(s) && OffsetFits(PageRequestOf(p, z, s).value) ==>
              && resp.status == OK && resp.body.Paged?
              && resp.body.page.number == p && resp.body.page.size == z
              && resp.body.page.totalElements == |service.table|
              && |resp.body.page.content| == |PageOf(Rows(service.table, service.nextId), p, z)|
              && forall i :: 0 <= i < |resp.body.page.content| ==>
                   exists k :: k in service.table && resp.body.page.content[i] == ToDTO(service.table[k]))
        && (PageRequestOf(p, z, s).Ok? && s == "id" && OffsetFits(PageRequestOf(p, z, s).value) ==>
              resp == Response(OK, Paged(Page(ToDTOs(PageOf(Rows(service.table, service.nextId), p, z)),
                                             p, z, |service.table|))))
    {
      var p, z, s := IntParam(page, DefaultPage), IntParam(size, DefaultSize), StringParam(sortBy, DefaultSortBy);
      var pageable := PageRequestOf(p, z, s);
      if pageable.Err? {
        return Response(INTERNAL_SERVER_ERROR, Failed(FetchAllFailed, pageable.error));
      }
      var employees := service.GetAllEmployeesPaged(pageable.value);
      match employees
      case Ok(pg) =>
        resp := Response(OK, Paged(pg));
      case Err(f) =>
        resp := Response(INTERNAL_SERVER_ERROR, Failed(FetchAllFailed, f));
    }

    /**
     * GET /api/employees/{id}: 404 for an unknown id before the service is
     * asked for the row, otherwise 200 with it. The service's own NotFound,
     * and so the 500 path, cannot be reached.
     */
    method GetEmployeeById(id: nat) returns (resp: Response)
      requires service.Valid()
      ensures id !in service.table ==> resp == Response(NOT_FOUND, Text(NoEmployeeWithId(id)))
      ensures id in service.table ==> resp == Response(OK, One(ToDTO(service.table[id])))
    {
      var known := service.ExistsById(id);
      if !known {
        return Response(NOT_FOUND, Text(NoEmployeeWithId(id)));
      }
      var employee := service.GetEmployeeById(id);
      match employee
      case Ok(d) =>
        resp := Response(OK, One(d));
      case Err(f) =>
        resp := Response(INTERNAL_SERVER_ERROR, Failed(FetchFailed, f));
    }

    /**
     * PUT /api/employees/{id}: 400 for an invalid body, 404 for an unknown id,
     * both without any change; otherwise the row's data fields are replaced
     * and 200 returns it under its own id. Because the email is not re-checked,
     * taking another row's email is refused by the store and becomes a 500.
     */
    method UpdateEmployee(id: nat, dto: EmployeeDTO) returns (resp: Response)
      requires service.Valid()
      modifies service
      ensures service.Valid()
      ensures service.nextId == old(service.nextId)
      ensures !Dto.Valid(dto) ==>
        resp == Response(BAD_REQUEST, Invalid(DtoViolations(dto))) && unchanged(service)
      ensures Dto.Valid(dto) && id !in old(service.table) ==>
        resp == Response(NOT_FOUND, Text(NoEmployeeWithId(id))) && unchanged(service)
      ensures Dto.Valid(dto) && id in old(service.table) && EmailClash(old(service.table), dto.email, Some(id)) ==>
        && resp == Response(INTERNAL_SERVER_ERROR, Failed(UpdateFailed, ConstraintViolation(UniqueEmailTaken(dto.email.value))))
        && service.table == old(service.table)
      ensures Dto.Valid(dto) && id in old(service.table) && !EmailClash(old(service.table), dto.email, Some(id)) ==>
        && resp == Response(OK, One(dto.(id := Some(id))))
        && service.table == old(service.table)[id := ToEntity(dto).(id := Some(id))]
    {
      if !Dto.Valid(dto) {
        return Response(BAD_REQUEST, Invalid(DtoViolations(dto)));
      }
      var known := service.ExistsById(id);
      if !known {
        return Response(NOT_FOUND, Text(NoEmployeeWithId(id)));
      }
      ValidityTransfers(dto);
      var updated := service.UpdateEmployee(id, dto);
      match updated
      case Ok(d) =>
        resp := Response(OK, One(d));
      case Err(f) =>
        resp := Response(INTERNAL_SERVER_ERROR, Failed(UpdateFailed, f));
    }

    /**
     * DELETE /api/employees/{id}: 404 for an unknown id with nothing removed,
     * otherwise the row is removed and 200 confirms it. The 500 path cannot
     * be reached.
     */
    method DeleteEmployee(id: nat) returns (resp: Response)
      requires service.Valid()
      modifies service
      ensures service.Valid()
      ensures service.nextId == old(service.nextId)
      ensures id !in old(service.table) ==>
        resp == Response(NOT_FOUND, Text(NoEmployeeWithId(id))) && unchanged(service)
      ensures id in old(service.table) ==>
        && resp == Response(OK, Text("Employee deleted successfully with ID: " + Decimal.NatToString(id)))
        && service.table == old(service.table) - {id}
    {
      var known := service.ExistsById(id);
      if !known {
        return Response(NOT_FOUND, Text(NoEmployeeWithId(id)));
      }
      var deleted := service.DeleteEmployee(id);
      match deleted
      case Ok(_) =>
        resp := Response(OK, Text("Employee deleted successfully with ID: " + Decimal.NatToString(id)));
      case Err(f) =>
        resp := Response(INTERNAL_SERVER_ERROR, Failed(DeleteFailed, f));
    }
  }

  /** With no parameters the paged endpoint serves the first ten rows by id, and counts all rows. */
  lemma DefaultPageIsFirstTen(rows: seq<Employee>)
    ensures PageRequestOf(IntParam(None, DefaultPage), IntParam(None, DefaultSize), StringParam(None, DefaultSortBy))
      == Ok(PageRequest(0, 10, "id"))
    ensures |PageOf(rows, 0, 10)| == Min(|rows|, 10)
    ensures PageOf(rows, 0, 10) == rows[..Min(|rows|, 10)]
  {
    assert "id"[0] == 'i' && !JavaWhitespace('i');
  }
}

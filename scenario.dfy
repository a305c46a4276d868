/**
 * A client of the handlers: the create, read, update, delete walk-through
 * on an empty table, proved from the handlers' contracts alone.
 */
module Scenario {
  import opened Wrappers
  import opened Fields
  import opened Dto
  import opened Service
  import opened Controller
  import Decimal

  method CrudWalkthrough() {
    var service := new EmployeeService();
    var controller := new EmployeeController(service);

    var a := EmployeeDTO(None, Some("A"), Some("a@x.com"), None, Some(1000.0), None);
    assert "A"[0] == 'A';
    assert "a@x.com"[1] == '@';
    assert Dto.Valid(a);
    assert Decimal.NatToString(1) == "1";

    // POST: 201 with id 1.
    var created := controller.AddEmployee(a);
    assert created == Response(CREATED, One(a.(id := Some(1))));

    // POST again with the same email: 400 and nothing saved.
    var again := controller.AddEmployee(a.(name := Some("A2")));
    assert again.status == BAD_REQUEST;
    assert 1 in service.table && |service.table| == 1;

    // GET /1: 200 with the same fields.
    var fetched := controller.GetEmployeeById(1);
    assert fetched == Response(OK, One(a.(id := Some(1))));

    // PUT /1 with a new name, the same email and a client id of 7: 200, id stays 1.
    var b := EmployeeDTO(Some(7), Some("B"), Some("a@x.com"), None, Some(2000.0), None);
    assert "B"[0] == 'B';
    assert Dto.Valid(b);
    var updated := controller.UpdateEmployee(1, b);
    assert updated == Response(OK, One(b.(id := Some(1))));

    // DELETE /1: 200; then GET /1: 404.
    var deleted := controller.DeleteEmployee(1);
    assert deleted.status == OK;
    assert 1 !in service.table;
    assert NoEmployeeWithId(1) == "No employee found with ID: 1";
    var gone := controller.GetEmployeeById(1);
    assert gone == Response(NOT_FOUND, Text("No employee found with ID: 1"));
  }
}

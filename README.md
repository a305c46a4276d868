# Employee management backend: a verified model

This project models the core of a small Spring Boot CRUD service for employee
records, in Dafny. The service exposes `/api/employees` for create, read
(single, list, paged), update and delete. The model covers five pieces:

- the storage record `Employee` and the wire record `EmployeeDTO`, with their
  constraint annotations (`@NotBlank`, `@Email`, `@Positive`) and the unique
  email column;
- the mapper between the two records;
- the service over the repository. The repository is a finite map from id to
  row, plus the identity column's next value;
- the controller. Its handlers are decisions from the service's state and the
  request to an HTTP status code and a response body.

Modules, one per component:

| module | file | models |
|---|---|---|
| `Wrappers` | wrappers.dfy | nullable values (`Option`) and thrown exceptions (`Result`) |
| `Fields` | fields.dfy | the semantics of the validation annotations; `LocalDate` as a triple |
| `Decimal` | decimal.dfy | the decimal rendering of an id inside the response messages |
| `Entity` | entity.dfy | `Employee`, row validity, the `Table` type, email uniqueness |
| `Dto` | dto.dfy | `EmployeeDTO` and its validity |
| `Mapper` | mapper.dfy | `toDTO`, `toEntity` and their round trips |
| `Store` | store.dfy | repository queries: `findById`, `existsByEmail`, the `findAll` order, paging |
| `Service` | service.dfy | `EmployeeServiceImpl` as a class owning the table |
| `Controller` | controller.dfy | `EmployeeController` as a class holding the service |
| `Scenario` | scenario.dfy | a client that steps through a create, read, update, delete sequence, proved from the handlers' contracts |

The service class keeps an object invariant, `Valid()`, with four parts:

- every key is at least 1 and below the next identity value;
- every row carries its own key as its id;
- every stored row passed validation;
- no two rows share a non-null email.

Every state-changing method preserves `Valid()`. Each one also says exactly
what the table is afterwards, in terms of the table before.

The model follows the code where its behaviour is easy to misread:

- The service never checks email uniqueness. Only the POST handler pre-checks
  it (`EmployeeController.java:45`). A duplicate that reaches the store is
  refused by the unique column as a constraint violation, not as a
  duplicate-email error.
- Email is optional on both records: `@Email` accepts null and there is no
  `@NotBlank` on it.
- Update does not re-check uniqueness. A PUT that takes another row's email is
  refused by the store's constraint, and the handler turns that into a 500.
- `existsByEmail` is a derived query. A null argument becomes an `IS NULL`
  condition, so a POST without an email gets a 400 ("Email already exists:
  null") once some row has no email.
- The two not-found messages differ: get and update say "with id:", delete
  says "with ID:".
- `PageRequest.of` accepts any non-negative page index, however large, but the JPA query takes its first
  result as an int. Once the sort property has resolved, a page whose offset
  page × size exceeds Integer.MAX_VALUE is refused, and the paged handler
  answers 500.

## Model

| member | source | states |
|---|---|---|
| `Fields.Violations` | src/main/java/com/emp/mgmt/dto/EmployeeDTO.java:15-24 | violation messages are empty exactly when the name is non-blank, the email (if given) is well-formed and the salary (if given) is positive; each message appears exactly when its constraint fails |
| `Entity.RowViolations` | src/main/java/com/emp/mgmt/entity/Employee.java:25-35 | a row's violation set is empty exactly when the row is valid |
| `Dto.DtoViolations` | src/main/java/com/emp/mgmt/dto/EmployeeDTO.java:15-24 | a DTO's violation set is empty exactly when the DTO is valid |
| `Dto.NameAloneIsValid` | src/main/java/com/emp/mgmt/dto/EmployeeDTO.java:13-26 | id, email, department, salary and date may all be absent: a non-blank name alone makes a valid DTO |
| `Mapper.ToEntity` | src/main/java/com/emp/mgmt/mapper/EmployeeMapper.java:19-27 | the new row has no id, and mapping it back gives the DTO with its id cleared |
| `Mapper.ToDTOCopiesAllFields` | src/main/java/com/emp/mgmt/mapper/EmployeeMapper.java:8-17 | toDTO keeps all six fields, the id included |
| `Mapper.EntityRoundTrip` | src/main/java/com/emp/mgmt/mapper/EmployeeMapper.java:8-27 | toEntity(toDTO(e)) is e with its id cleared |
| `Mapper.DtoRoundTrip` | src/main/java/com/emp/mgmt/mapper/EmployeeMapper.java:8-27 | toDTO(toEntity(d)) is d with its id cleared |
| `Mapper.ClientIdIgnored` | src/main/java/com/emp/mgmt/mapper/EmployeeMapper.java:19-27 | DTOs that differ only in id map to the same row |
| `Mapper.SavedRoundTrip` | src/main/java/com/emp/mgmt/service/EmployeeServiceImpl.java:29-31 | a DTO mapped to a row, given an id by the store and mapped back, is the DTO with that id: every data field survives |
| `Mapper.ValidityTransfers` | src/main/java/com/emp/mgmt/entity/Employee.java:25-35 | a DTO is valid exactly when its row is, with the same violations, so the controller's validation implies the store's |
| `Entity.UniqueEmailsAfterRemove` | src/main/java/com/emp/mgmt/entity/Employee.java:28-30 | deleting a row keeps non-null emails unique |
| `Store.EmptyTableInvariant` | src/main/java/com/emp/mgmt/entity/Employee.java:21-23 | the empty table with identity value 1 satisfies the table invariant |
| `Store.NextIdIsFree` | src/main/java/com/emp/mgmt/entity/Employee.java:21-23 | under the invariant the next identity value is not a stored id, and the invariant survives advancing it |
| `Store.Rows` | src/main/java/com/emp/mgmt/service/EmployeeServiceImpl.java:37 | the model's findAll yields one entry per stored key, each a stored row |
| `Store.PageOf` | src/main/java/com/emp/mgmt/service/EmployeeServiceImpl.java:43 | a page holds at most `size` entries, all taken from the listing |
| `Store.EmailInUse` | src/main/java/com/emp/mgmt/repository/EmployeeRepository.java:11 | when existsByEmail is false for an email, inserting a new row with it cannot clash with the unique column |
| `Mapper.ToDTO` | src/main/java/com/emp/mgmt/mapper/EmployeeMapper.java:8-17 | a row and its DTO are valid together and carry the same violation messages, so a stored row always maps to a valid DTO |
| `Controller.IntParam` | src/main/java/com/emp/mgmt/controller/EmployeeController.java:76-77 | an int query parameter is its value when given and the declared default when absent |
| `Controller.StringParam` | src/main/java/com/emp/mgmt/controller/EmployeeController.java:78 | a string query parameter is its value when given and non-empty, and the declared default when absent or empty; it is never empty while the default is not |
| `Decimal.NatToString` | src/main/java/com/emp/mgmt/controller/EmployeeController.java:102 | the id renders as a non-empty string of digits with no leading zero |
| `Decimal.DigitsValueOfNatToString` | src/main/java/com/emp/mgmt/controller/EmployeeController.java:102 | reading the rendered digits back gives the id |
| `Decimal.NatToStringInjective` | src/main/java/com/emp/mgmt/controller/EmployeeController.java:147 | different ids give different messages |
| `Store.FindById` | src/main/java/com/emp/mgmt/service/EmployeeServiceImpl.java:49-50 | a row is found exactly when its id is stored, and it is the stored row |
| `Store.SortedKeysExact` | src/main/java/com/emp/mgmt/service/EmployeeServiceImpl.java:37 | the model's findAll order lists exactly the stored keys, in strictly increasing order (the source leaves the order to the database; the model fixes id order) |
| `Store.SortedKeysCount` | src/main/java/com/emp/mgmt/service/EmployeeServiceImpl.java:37 | the findAll order lists as many keys as there are stored keys below the bound |
| `Store.RowsAreTable` | src/main/java/com/emp/mgmt/service/EmployeeServiceImpl.java:35-38 | the model's findAll returns as many rows as the table holds, every stored row and only stored rows; it lists them in increasing id order, an order the model chooses because the query has none |
| `Store.PageContents` | src/main/java/com/emp/mgmt/service/EmployeeServiceImpl.java:41-44 | a page holds `size` rows (fewer on the last page, none past the end), taken in order from offset page × size |
| `Store.PagesTile` | src/main/java/com/emp/mgmt/service/EmployeeServiceImpl.java:41-44 | row i is on page i / size at position i % size, so paging loses and duplicates nothing |
| `Store.PageOfStoredRows` | src/main/java/com/emp/mgmt/service/EmployeeServiceImpl.java:43 | a page of stored rows holds only stored rows |
| `Service.SaveRefusal` | src/main/java/com/emp/mgmt/entity/Employee.java:25-35 | the store refuses a save exactly when the row is invalid or its non-null email belongs to another row, and the refusal is a constraint violation |
| `Service.EmployeeService.constructor` | src/main/java/com/emp/mgmt/repository/EmployeeRepository.java:9-11 | the table starts empty with identity value 1, satisfying the invariant |
| `Service.EmployeeService.Save` | src/main/java/com/emp/mgmt/entity/Employee.java:21-30 | a new row gets the next identity value and nothing else changes; an existing row is overwritten under its id; a refused save changes nothing; the invariant is kept |
| `Service.EmployeeService.AddEmployee` | src/main/java/com/emp/mgmt/service/EmployeeServiceImpl.java:27-32 | saves exactly one row built from the DTO, returns the DTO with its new id, and leaves the other rows alone; otherwise fails with the store's refusal and changes nothing |
| `Service.EmployeeService.GetAllEmployees` | src/main/java/com/emp/mgmt/service/EmployeeServiceImpl.java:35-38 | returns every row mapped by toDTO, one per row, without changing the table; listed in the model's id order |
| `Service.EmployeeService.GetAllEmployeesPaged` | src/main/java/com/emp/mgmt/service/EmployeeServiceImpl.java:41-44 | maps the store's page through toDTO and keeps its metadata (number, size, total = row count), each entry a stored row; fails with UnknownProperty when the sort property is not an Employee property, otherwise with OffsetTooLarge when page × size exceeds Integer.MAX_VALUE, and succeeds exactly when neither holds |
| `Service.EmployeeService.GetEmployeeById` | src/main/java/com/emp/mgmt/service/EmployeeServiceImpl.java:47-52 | returns toDTO of the row for a stored id, NotFound("Employee not found with id: " + id) otherwise, and changes nothing |
| `Service.EmployeeService.UpdateEmployee` | src/main/java/com/emp/mgmt/service/EmployeeServiceImpl.java:55-68 | unknown id: NotFound, table unchanged; otherwise the row becomes the DTO's five fields under the stored id, whatever id the DTO carries, and no other row changes, unless the store refuses the save |
| `Service.EmployeeService.DeleteEmployee` | src/main/java/com/emp/mgmt/service/EmployeeServiceImpl.java:71-77 | a stored id is removed and nothing else; an unknown id fails with NotFound("Employee not found with ID: " + id) and removes nothing |
| `Service.EmployeeService.ExistsById` | src/main/java/com/emp/mgmt/service/EmployeeServiceImpl.java:80-82 | true exactly when the id is stored; read-only |
| `Service.EmployeeService.ExistsByEmail` | src/main/java/com/emp/mgmt/service/EmployeeServiceImpl.java:85-87 | true exactly when some row has this email, null included; read-only |
| `Controller.PageRequestOf` | src/main/java/com/emp/mgmt/controller/EmployeeController.java:82 | a page request is built exactly when the sort property has text, the page is not negative and the size is at least one, checked in that order |
| `Controller.EmployeeController.constructor` | src/main/java/com/emp/mgmt/controller/EmployeeController.java:37-38 | the controller holds the given service |
| `Controller.EmployeeController.AddEmployee` | src/main/java/com/emp/mgmt/controller/EmployeeController.java:42-56 | invalid body: 400 with the violations; taken email: 400 "Email already exists: " + email; both with no insert; otherwise 201 with the DTO and its new id and exactly one row added; never 500 |
| `Controller.EmployeeController.GetAllEmployees` | src/main/java/com/emp/mgmt/controller/EmployeeController.java:61-73 | 200 with every row mapped, one per row; listed in the model's id order |
| `Controller.EmployeeController.GetAllEmployeesPaged` | src/main/java/com/emp/mgmt/controller/EmployeeController.java:76-93 | absent or empty parameters default to 0, 10 and "id"; a malformed request, an unknown property or an offset page × size beyond Integer.MAX_VALUE gives 500 with the failure; otherwise 200 with a page whose metadata is the request's, whose total is the row count and whose entries are stored rows |
| `Controller.EmployeeController.GetEmployeeById` | src/main/java/com/emp/mgmt/controller/EmployeeController.java:97-113 | unknown id: 404 "No employee found with ID: " + id; otherwise 200 with the row; the service's NotFound cannot be reached |
| `Controller.EmployeeController.UpdateEmployee` | src/main/java/com/emp/mgmt/controller/EmployeeController.java:117-133 | invalid body: 400; unknown id: 404; both change nothing; another row's email: 500 with the store's refusal; otherwise 200 with the DTO under the stored id and only that row replaced |
| `Controller.EmployeeController.DeleteEmployee` | src/main/java/com/emp/mgmt/controller/EmployeeController.java:137-154 | unknown id: 404 with nothing removed; otherwise 200 "Employee deleted successfully with ID: " + id and only that row removed; never 500 |
| `Controller.DefaultPageIsFirstTen` | src/main/java/com/emp/mgmt/controller/EmployeeController.java:76-78 | with no parameters the request is page 0, size 10, sort "id", and the page holds the first min(N, 10) rows |

## Left out

- Logging, the OpenAPI annotations and their configuration, and dependency injection: no behaviour.
- HTTP transport, JSON serialisation and the parsing of path and query parameters. A non-numeric id or page is refused by the framework before any handler runs. An empty `page` or `size` value falls back to its default during parsing, so the handler's int parameters see it as absent.
- Negative path ids are outside the model, because ids are natural numbers. Such an id matches no row, and the source answers 404.
- Database and connection failures. Without them, `getAllEmployees` cannot fail, so the 500 branch of the list handler is not modelled.
- Concurrent requests. Under races, the store's unique constraint alone keeps emails unique; the model is sequential.
- The exact email syntax. `WellFormedEmail` checks only the outer shape (empty is accepted; otherwise a non-empty local part and domain around the last '@'). Nothing proved depends on it except the walk-through's sample address.
- Floating point: salary is a real number and is only compared with zero.
- Exception message texts from the persistence layer and the framework's validation error body. They are kept as structured values (`Failure`, `Invalid`), not as strings.
- Email comparison in the unique constraint is exact string equality. Database collation, such as case-insensitive matching, is not modelled.
- Derived page metadata (totalPages, hasNext, the sort carried by the page) and `Pageable.unpaged()`.
- `EmployeeService.java` is an interface with no logic. The class's method signatures follow it.
- Service.EmployeeService.GetAllEmployeesPaged: for a sort property other than id, the contract states only the size, metadata and membership of the page, not its order. The model orders by id, and the database's ordering by other columns (null placement, collation, ties) is not modelled.
- Controller.EmployeeController.GetAllEmployeesPaged: same limit for sort properties other than id. Also, only the exact property names count as known; the library's lenient matching of capitalised names is not modelled.
- Service.EmployeeService.GetAllEmployees: the source's findAll() has no ORDER BY, so the database decides the order of the list; the model fixes increasing id order, and the contract's order is that choice, not a promise of the source.
- Controller.EmployeeController.GetAllEmployees: the same; the order of the 200 body is the model's id order.
- Controller.EmployeeController.GetAllEmployeesPaged: query values outside Java's int range are refused by the framework before the handler runs; page and size are unbounded integers here.
- Service.EmployeeService.Save: in the model a refused insert leaves the identity counter unchanged. Whether a real database uses up an identity value on a failed insert depends on the database.

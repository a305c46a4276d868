/**
 * The storage record: one row of the employees table, its field constraints,
 * and the table-wide uniqueness of email addresses.
 */
module Entity {
  import opened Wrappers
  import opened Fields

  /**
   * An Employee row. The id is generated by the store and is None before the
   * row is first saved; every other field may be null.
   */
  datatype Employee = Employee(
    id: Option<nat>,
    name: Option<string>,
    email: Option<string>,
    department: Option<string>,
    salary: Option<real>,
    joiningDate: Option<Date>)

  /** The constraints the entity's annotations place on a row. */
  predicate ValidRow(e: Employee) {
    FieldsValid(e.name, e.email, e.salary)
  }

  /** The messages of the constraints a row violates; none exactly when the row is valid. */
  function RowViolations(e: Employee): (v: set<string>)
    ensures v == {} <==> ValidRow(e)
  {
    Violations(e.name, e.email, e.salary)
  }

  /** The employees table, keyed by id. */
  type Table = map<nat, Employee>

  /** The unique column constraint on email: no two rows share a non-null email. */
  predicate UniqueEmails(t: Table) {
    forall j, k :: j in t && k in t && j != k && t[j].email.Some? ==> t[j].email != t[k].email
  }

  /** Deleting a row never breaks the constraint. */
  lemma UniqueEmailsAfterRemove(t: Table, k: nat)
    requires UniqueEmails(t)
    ensures UniqueEmails(t - {k})
  {
  }
}

# OrangeHRM emergency contacts and subordinate leave entitlements, in Dafny

This project models two small parts of the OrangeHRM HR application.

**Emergency-contact DAO** (`EmergencyContacts`, in `emergency_contacts.dfy`).
The contact table is a sequence of rows keyed by (employee number, seqNo). It
sits in the `table` field of the class `EmpEmergencyContactDao`.
- `SaveEmployeeEmergencyContact` resolves the seqNo of the caller's entity
  (class `EmpEmergencyContact`). When the entity's seqNo is exactly the string
  `"0"`, it assigns one more than the employee's largest stored seqNo, or 1
  when the employee has none. The assigned number is written into the entity
  as a decimal string, before the range check, and read back with `intval`.
  Any other value is only read with `intval`. A final seqNo outside 1..99 is
  rejected before anything is stored; the entity keeps the number written
  into it. Otherwise the contact is persisted and returned.
- `DeleteEmployeeEmergencyContacts` removes the employee's rows whose seqNo is
  listed and returns how many it removed.
- The lookup by key (`Lookup`) and the per-employee list ordered by name
  (`ContactList`) are pure functions of the table.
- The class invariant says every stored seqNo is in 1..99 and no two rows share
  a key. Save and delete keep it.

PHP's string-to-integer reading (`intval`) and integer-to-string coercion are
modelled in `PhpStrings` (`php_strings.dfy`).

**Subordinate leave-entitlement endpoint** (`SubordinateLeaveEntitlementApi`).
- `GetFilters` checks that the requested employee is accessible to the caller.
  With no dates it takes the current leave period; otherwise it asks the
  leave-period validator. It then parses the `deletedLeaveTypes` flag.
- `GetLeaveEntitlements` raises not-found only when the search result is empty.
  Otherwise it walks the results in order. It skips entitlements of deleted
  leave types unless the flag is set. Each survivor gets the balance for
  (employee, its leave type id) and its own leave type.
- The collaborators are parameters:
  - the caller's accessible employee numbers, as a set;
  - the current leave period, as a pair;
  - the period validator, as a predicate;
  - the entitlement search and the balance lookup, as functions.
- `GetLeaveEntitlements` is proved against `Survivors`, a reference filter.
  Lemmas show that `Survivors` keeps exactly the visible results, in search
  order, and keeps all of them when the flag is set.

On two points the code is subtler than it looks; the model follows the code:
- The auto-assign sentinel is the *string* `"0"`, compared strictly. The
  entity's seqNo is a string field. A value such as `"00"` or `" 0"` is not
  the sentinel: it reads as 0 and is rejected.
- "No dates supplied" uses PHP `empty`, so a date parameter equal to `"0"`
  counts as absent, as does `""`.

## Model

| member | source | states |
|---|---|---|
| PhpStrings.IntValOfDecimal | symfony/plugins/orangehrmPimPlugin/Dao/EmpEmergencyContactDao.php:57-59 | storing an integer seqNo in the string field and reading it back with `intval` gives the same integer, for every integer |
| EmergencyContacts.MaxSeqNo | symfony/plugins/orangehrmPimPlugin/Dao/EmpEmergencyContactDao.php:47-52 | the MAX query is null exactly when the employee has no rows; otherwise it is the seqNo of one of the employee's rows, and no row of that employee has a larger seqNo |
| EmergencyContacts.NextSeqNo | symfony/plugins/orangehrmPimPlugin/Dao/EmpEmergencyContactDao.php:53-56 | the auto-assigned seqNo is 1 when the employee has no rows; otherwise it is one more than an existing seqNo of that employee, and larger than all of them |
| EmergencyContacts.SeqNoText | symfony/plugins/orangehrmPimPlugin/Dao/EmpEmergencyContactDao.php:46-57 | the entity's seqNo after resolution is unchanged unless it was exactly "0"; then it is a string that `intval` reads as the auto-assigned number |
| EmergencyContacts.ResavedEntityNotReassigned | symfony/plugins/orangehrmPimPlugin/Dao/EmpEmergencyContactDao.php:46-61 | on a well-formed table the number written into the entity is never "0", so saving the same entity again, even after a rejection, checks that number and does not auto-assign anew |
| EmergencyContacts.FinalSeqNo | symfony/plugins/orangehrmPimPlugin/Dao/EmpEmergencyContactDao.php:46-59 | when the seqNo is exactly "0", the checked seqNo is the auto-assigned one; any other value is never reassigned, only read with `intval` |
| EmergencyContacts.AutoAssignAfter99Rejected | symfony/plugins/orangehrmPimPlugin/Dao/EmpEmergencyContactDao.php:53-61 | auto-assignment for an employee whose largest seqNo is 99 yields 100, which is out of range |
| EmergencyContacts.AutoAssignAccepted | symfony/plugins/orangehrmPimPlugin/Dao/EmpEmergencyContactDao.php:53-61 | on a well-formed table, an auto-assigned seqNo passes the range check exactly when every seqNo the employee has is below 99 |
| EmergencyContacts.AutoAssignedKeyIsFresh | symfony/plugins/orangehrmPimPlugin/Dao/EmpEmergencyContactDao.php:46-57 | an auto-assigned seqNo is not the key of any existing row, so the lookup for it finds nothing |
| EmergencyContacts.EmpEmergencyContactDao.SaveEmployeeEmergencyContact | symfony/plugins/orangehrmPimPlugin/Dao/EmpEmergencyContactDao.php:44-66 | the entity's seqNo becomes the resolved text whether or not save succeeds, its other fields unchanged; save fails with the invalid-seqNo error exactly when the final seqNo is outside 1..99, and then the table is unchanged; on success it returns the contact with its final seqNo, and the table is the old one with that contact persisted; the table invariant is kept |
| EmergencyContacts.Lookup | symfony/plugins/orangehrmPimPlugin/Dao/EmpEmergencyContactDao.php:75-85 | a returned contact is a row of the table with both the employee number and the seqNo asked for; null is returned exactly when no row has that key |
| EmergencyContacts.Persist | symfony/plugins/orangehrmPimPlugin/Dao/EmpEmergencyContactDao.php:64 | after persist the contact is in the table, and every other row was already there |
| EmergencyContacts.PersistFreshAppends | symfony/plugins/orangehrmPimPlugin/Dao/EmpEmergencyContactDao.php:64 | persisting a contact whose key is new appends it and leaves the other rows as they were |
| EmergencyContacts.PersistWellFormed | symfony/plugins/orangehrmPimPlugin/Dao/EmpEmergencyContactDao.php:59-64 | persisting an in-range contact keeps every seqNo in 1..99 and every key unique |
| EmergencyContacts.PersistThenLookup | symfony/plugins/orangehrmPimPlugin/Dao/EmpEmergencyContactDao.php:64-65 | after a save, the saved key finds the saved contact, and every other key finds what it found before |
| EmergencyContacts.Selection | symfony/plugins/orangehrmPimPlugin/Dao/EmpEmergencyContactDao.php:102-107 | the rows the delete matches are exactly the employee's rows whose seqNo is in the list |
| EmergencyContacts.Remove | symfony/plugins/orangehrmPimPlugin/Dao/EmpEmergencyContactDao.php:102-108 | a row remains after the delete exactly when it was in the table and was not matched |
| EmergencyContacts.RemovePartition | symfony/plugins/orangehrmPimPlugin/Dao/EmpEmergencyContactDao.php:102-108 | the old table is, as a multiset, the rows kept plus the rows matched, so the number removed is the number matched |
| EmergencyContacts.RemoveKeepsOrder | symfony/plugins/orangehrmPimPlugin/Dao/EmpEmergencyContactDao.php:102-108 | the delete distributes over any split of the table, so the kept rows stay in table order |
| EmergencyContacts.RemoveKeepsOtherKeys | symfony/plugins/orangehrmPimPlugin/Dao/EmpEmergencyContactDao.php:102-108 | a key the delete did not select finds the same contact after the delete as before |
| EmergencyContacts.RemoveThenLookup | symfony/plugins/orangehrmPimPlugin/Dao/EmpEmergencyContactDao.php:102-108 | after the delete, every deleted key finds nothing, and every other key finds what it found before |
| EmergencyContacts.RemoveWellFormed | symfony/plugins/orangehrmPimPlugin/Dao/EmpEmergencyContactDao.php:102-108 | a delete keeps seqNos in range and keys unique |
| EmergencyContacts.EmpEmergencyContactDao.DeleteEmployeeEmergencyContacts | symfony/plugins/orangehrmPimPlugin/Dao/EmpEmergencyContactDao.php:99-112 | the new table is the old one without the matched rows; the returned count is the number of matched rows; the table invariant is kept |
| EmergencyContacts.NameLeTotal | symfony/plugins/orangehrmPimPlugin/Dao/EmpEmergencyContactDao.php:125 | any two names are comparable in the ascending name order |
| EmergencyContacts.NameLeTransitive | symfony/plugins/orangehrmPimPlugin/Dao/EmpEmergencyContactDao.php:125 | the ascending name order is transitive |
| EmergencyContacts.NameLeAntisymmetric | symfony/plugins/orangehrmPimPlugin/Dao/EmpEmergencyContactDao.php:125 | two names each ordered before the other are equal |
| EmergencyContacts.SortByName | symfony/plugins/orangehrmPimPlugin/Dao/EmpEmergencyContactDao.php:125 | the ordering step returns a permutation of its input, sorted by name ascending |
| EmergencyContacts.ForEmployee | symfony/plugins/orangehrmPimPlugin/Dao/EmpEmergencyContactDao.php:122-124 | the WHERE clause keeps exactly the rows of the given employee, each as many times as the table holds it, and no other row |
| EmergencyContacts.ContactList | symfony/plugins/orangehrmPimPlugin/Dao/EmpEmergencyContactDao.php:119-131 | the list is a permutation of exactly the employee's rows, sorted by name ascending |
| SubordinateLeaveEntitlementApi.GetFilters | symfony/plugins/orangehrmRESTPlugin/lib/Api/User/SubordinateLeaveEntitlementAPI.php:185-217 | access is checked first ("Access Denied"), then the dates ("No Leave Period Found"), then the flag (invalid `deletedLeaveTypes`); success exactly when all three pass; then the employee is the requested one, the dates are the current period when none are given and the supplied ones otherwise, and the flag is true exactly when the text, "false" by default, is "true" |
| SubordinateLeaveEntitlementApi.SearchParamsFollowRequest | symfony/plugins/orangehrmRESTPlugin/lib/Api/User/SubordinateLeaveEntitlementAPI.php:223-229 | the search parameters built from accepted filters carry the requested employee and either the current period or the supplied dates |
| SubordinateLeaveEntitlementApi.Survivors | symfony/plugins/orangehrmRESTPlugin/lib/Api/User/SubordinateLeaveEntitlementAPI.php:150-153 | an entitlement is kept exactly when it is in the search result and its leave type is not deleted or the flag is set; never more entries than the search returned |
| SubordinateLeaveEntitlementApi.SurvivorsInSearchOrder | symfony/plugins/orangehrmRESTPlugin/lib/Api/User/SubordinateLeaveEntitlementAPI.php:150-153 | the kept entitlements sit at strictly increasing positions of the search result, and those positions are exactly the ones of visible entries |
| SubordinateLeaveEntitlementApi.SurvivorsKeepAll | symfony/plugins/orangehrmRESTPlugin/lib/Api/User/SubordinateLeaveEntitlementAPI.php:150-153 | with the flag set, every search result is kept, in order |
| SubordinateLeaveEntitlementApi.AllDeletedLeavesNothing | symfony/plugins/orangehrmRESTPlugin/lib/Api/User/SubordinateLeaveEntitlementAPI.php:147-153 | when every result has a deleted leave type and the flag is off, nothing is kept |
| SubordinateLeaveEntitlementApi.GetLeaveEntitlements | symfony/plugins/orangehrmRESTPlugin/lib/Api/User/SubordinateLeaveEntitlementAPI.php:141-175 | "No Records Found" exactly when the search result is empty; otherwise one entry per kept entitlement, in search order; each entry carries the balance for (filter employee, its leave type id) and its own leave type |
| SubordinateLeaveEntitlementApi.GetSubordinateLeaveEntitlement | symfony/plugins/orangehrmRESTPlugin/lib/Api/User/SubordinateLeaveEntitlementAPI.php:128-133 | a filter error is returned as is, so access denial comes before any search; otherwise the result is that of the entitlement step for the accepted filters |
| SubordinateLeaveEntitlementApi.DefaultRequestExample | symfony/plugins/orangehrmRESTPlugin/lib/Api/User/SubordinateLeaveEntitlementAPI.php:196-215 | employee 5 with no dates and no flag gets the current period 2024-01-01..2024-12-31 and the flag off; of a live and a deleted leave type's entitlements, only the live one is kept |

## Left out

- The Doctrine query building and execution, and the wrapping of ORM failures in `DaoException`. The ORM is the contact table; storage failures are not modelled.
- EmergencyContacts.EmpEmergencyContactDao.SaveEmployeeEmergencyContact: the stored row's seqNo is the value `intval` read. The source persists the entity's raw string, and the database's own conversion of a non-canonical string such as `" 7"` or `"5.9"` is not modelled; it need not equal what `intval` read (`"5.9"` reads as 5).
- EmergencyContacts.Persist: a new entity whose key already exists would fail at flush with a uniqueness violation. The model instead replaces the row with that key. That is what happens when a loaded, managed entity is saved again.
- Contacts with the same name come back in an order the database does not fix. The model keeps them in table order.
- Names are compared lexicographically by character code. Locale collation is not modelled.
- PhpStrings.IntVal does not read exponent notation (`"1e1"`) or fractions as PHP 7.1+ does. It also does not saturate at 64 bits. A value out of 1..99 is rejected either way.
- The read-max-then-write race between two concurrent saves for one employee. The model is sequential.
- The lazily created service accessors and their setters. They only wire dependencies.
- `getAccessibleEmpNumbers` and the user-role manager. The accessible employee numbers are an input set.
- The employee number is an integer. PHP's loose `in_array` comparison of the URL string against integers is not modelled.
- The current leave period for today's date is an input. The wall clock, the inside of `LeavePeriodService`, `validateLeavePeriods`, `searchLeaveEntitlements` and `getLeaveBalance` are not part of this model. They are parameters.
- The `Y-m-d` format rules for the date parameters. They belong to the request validator, which runs before this code.
- The leave type's `deleted` column is compared loosely with `'1'`. It is modelled as a boolean.
- `getQueryParam` substitutes the default `"false"` only when the parameter is absent.
- The array serialisation of entitlements, balances and leave types, and the `Response` object. Each response entry is a record of the entitlement, its balance and its leave type.

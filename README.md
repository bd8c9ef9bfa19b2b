# UserManager — an in-memory user registry, modelled in Dafny

The repository fixes, through its Jest suite `src/user.spec.ts`, the behaviour
of a `UserManager`: an in-memory registry of `User` records `{ id, name, email }`
with four operations — `addUser` stamps a new record with the next id from a
counter starting at 1 and appends it; `findUserById` returns the record with a
given id or `undefined`; `deleteUser` removes the record with a given id and
says whether there was one; `getAllUsers` lists the records in insertion order.
The `./user` module that holds the implementation is not part of this model;
what is modelled is the contract the suite pins down. `addUser`'s ids are read
as a counter that deletion does not touch, and the model keeps the invariant
that stored ids lie in `[1, nextId)` and grow with insertion order, so they are
distinct. That a deleted id is never handed out again follows from this counter
reading, not from the suite: no scenario of the suite adds a record after a
deletion.

Files:

- `user_table.dfy`, module `UserTable`: the `User` record, `Option` (whose
  `None` stands for `undefined`), and the pure specification of the table —
  `Find` (first record with an id) and `Remove` (the table without the records
  of an id) — with the lemmas relating lookup to appending and removal.
- `user_manager.dfy`, module `Registry`: class `UserManager` with a `users`
  sequence and a `nextId` counter that its methods update in place.
  `AddUser` and `FindUserById` are proved against `Find`, `DeleteUser` against
  `Find` and `Remove`; `GetAllUsers` returns the stored sequence, whose order
  the other methods' contracts fix.
- `user_suite.dfy`, module `RegistrySuite`: client scenarios, each on a fresh
  registry (the suite's `beforeEach`). Most restate one scenario of the suite,
  with its fixed names, emails and unused id 999 turned into parameters.
  `AddInOrder` generalises the two-add scenarios to any number of adds,
  `DeleteTwice` combines two delete scenarios, and the listing clause of
  `DeleteKeepsOthers` adds `getAllUsers` to the delete-one-of-two scenario.
  `NoIdReuse` and `DeletedIdNotReused` follow from the counter reading of
  `addUser`, not from the suite.

## Model

| member | source | states |
|---|---|---|
| UserTable.Find | src/user.spec.ts:30-41 | the lookup result, when present, is a stored record carrying the asked id; it is absent exactly when no stored record carries that id |
| UserTable.Remove | src/user.spec.ts:44-65 | a record survives removal of an id exactly when it was stored and carries another id; removal never lengthens the table |
| UserTable.FindAt | src/user.spec.ts:31-35 | with increasing ids, looking up the id of any stored record returns that very record |
| UserTable.FindFirst | src/user.spec.ts:30-41 | a lookup returns the first record carrying the id |
| UserTable.FindAppend | src/user.spec.ts:31-35 | appending a record keeps every earlier successful lookup and makes the new record findable by its id when that id was absent; other lookups stay absent |
| UserTable.FindRemoveOther | src/user.spec.ts:58-64 | removing one id leaves the lookup of every other id exactly as it was |
| UserTable.RemoveIncreasing | src/user.spec.ts:58-64 | removal keeps ids increasing in insertion order, so remaining records keep their relative order |
| UserTable.RemoveAbsent | src/user.spec.ts:53-55 | removing an id no record carries leaves the table unchanged |
| UserTable.RemoveAt | src/user.spec.ts:58-64 | with increasing ids, removing the id of the record at position i yields the table with exactly that record cut out |
| UserTable.RemoveShrinksByOne | src/user.spec.ts:44-51 | with increasing ids, removing a present id shortens the table by exactly one |
| Registry.UserManager.constructor | src/user.spec.ts:6-8 | a fresh registry holds no records and its counter is 1 |
| Registry.UserManager.AddUser | src/user.spec.ts:11-26 | the returned record carries the old counter and exactly the given name and email, is appended to the table, was not stored before and is findable afterwards; the counter grows by one; other lookups are unchanged; the invariant is kept |
| Registry.UserManager.FindUserById | src/user.spec.ts:30-41 | the result is the specification lookup: a stored record with that id, or absent exactly when no stored record has it |
| Registry.UserManager.DeleteUser | src/user.spec.ts:44-65 | returns true exactly when the id was stored; the new table is the old one with that record cut out in place (unchanged when false); the id is then absent, every other lookup unchanged, the counter unchanged, the invariant kept |
| Registry.UserManager.GetAllUsers | src/user.spec.ts:68-81 | returns the stored records in insertion order, ids increasing and below the counter |
| RegistrySuite.AddToFresh | src/user.spec.ts:11-18 | addUser on a fresh registry returns id 1 with the given name and email |
| RegistrySuite.AddTwice | src/user.spec.ts:21-26 | two addUser calls on a fresh registry return ids 1 and 2 with their names and emails |
| RegistrySuite.AddInOrder | src/user.spec.ts:74-80 | generalising the two-add scenarios: the k-th of any number of addUser calls on a fresh registry gets id k + 1, and getAllUsers then lists exactly those records in call order |
| RegistrySuite.FindAfterAdd | src/user.spec.ts:31-35 | findUserById on the id addUser returned yields the record returned |
| RegistrySuite.FindOnFresh | src/user.spec.ts:38-40 | findUserById on a fresh registry is absent for every id |
| RegistrySuite.DeleteAfterAdd | src/user.spec.ts:45-50 | deleteUser of an added id returns true, after which findUserById of that id is absent |
| RegistrySuite.DeleteOnFresh | src/user.spec.ts:53-55 | deleteUser of an id no record carries returns false |
| RegistrySuite.DeleteTwice | src/user.spec.ts:45-55 | combining two scenarios of the suite: deleting the same id twice returns true and then false |
| RegistrySuite.DeleteKeepsOthers | src/user.spec.ts:58-64 | after deleting the first of two records, the second is found unchanged with id 2; beyond the suite, it is also all that getAllUsers lists |
| RegistrySuite.DeletedIdNotReused | src/user.spec.ts:21-26 | under the counter reading of addUser (the suite never adds after a delete): on any valid registry, deleting a stored id then adding gives the new record a different id, and the deleted id stays absent |
| RegistrySuite.NoIdReuse | src/user.spec.ts:21-26 | under the counter reading of addUser (the suite never adds after a delete): after the record with id 1 is deleted, the next addUser gets id 2 |
| RegistrySuite.ListFresh | src/user.spec.ts:69-72 | getAllUsers on a fresh registry is empty |
| RegistrySuite.ListAfterTwo | src/user.spec.ts:74-80 | getAllUsers after two addUser calls lists exactly the two returned records, in call order, with ids 1 and 2 |

## Left out

- The `./user` module holding the implementation is not part of this model: only the behaviour its suite asserts is modelled, and `DeleteUser` is written as "find the position, cut it out", which under distinct ids agrees with any removal that deletes the matching record.
- The Jest harness (`describe`, `it`, `beforeEach`, `expect`) and the module import: scaffolding, not behaviour; `beforeEach` is the constructor.
- Ids are unbounded naturals: JavaScript numbers lose precision past 2^53, which the suite never reaches. Lookups take any integer; non-integer numbers as ids are not modelled.
- Records and listings are values in the model: the records `addUser` and `findUserById` return and the array `getAllUsers` returns cannot be mutated by a caller, so whether they alias the registry's internal state, and what a caller's mutation of them would do to the registry, is not captured.
- Name or email validation and duplicate rejection: the suite asserts none of them.

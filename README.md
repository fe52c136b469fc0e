# Edit command of the address book, modelled in Dafny

The address book's `edit` command replaces the person at a 1-based position of
the last displayed listing by a newly built record. It does so in two steps:
it removes the target, then inserts the replacement. When the address book
refuses the replacement as a duplicate, the command re-inserts the removed
record. Every execution reports exactly one of five outcomes:

- `Edited(original)`: success, echoing the original record;
- `InvalidIndex`: the index is outside the listing;
- `PersonNotInAddressBook`: the book no longer holds the listed record or a duplicate of it;
- `DuplicatePerson`: the replacement was refused and the edit rolled back;
- `DuplicatePersonOriginalLost`: the rollback was refused too.

Files:

- `wrappers.dfy`: `Option` and `Result`.
- `persons.dfy`: the person record (name, three contact details with privacy flags, a set of tags) and the validated fields.
- `unique_persons.dfy`: the address book's uniqueness rule on its contents as a multiset, and the lemmas that insertion and removal keep it.
- `address_book.dfy`: the `AddressBook` class the command borrows. Its field `persons: seq<Person>` is updated in place by `AddPerson` and `RemovePerson`. Its invariant `Valid()` says the book holds no duplicates.
- `edit_command.dfy`: the command's construction (`NewEditCommand`, `BuildTagSet`), the resolution of the target (`TargetPerson`), the specification `Edit`, and the class `EditCommand` whose `Execute` is proved to follow `Edit`.
- `edit_properties.dfy`: per-outcome lemmas about `Edit`.
- `edit_scenarios.dfy`: three concrete executions (success, rollback, lost record).

Design decisions:

- Duplicates are decided by an abstract identity key `key: Person -> K`. The duplicate message reads as name equality; the real rule is in the person list, which is not part of this model. Full-record equality is the case where `key` is the identity.
- The person list uses one equality for both its duplicate check and its removal. The model does the same: `RemovePerson(p)` removes the held record with `p`'s key (`HeldDuplicate`), which is `p` itself when the listing is current.
- So with a stale listing and a key coarser than the whole record, the removal takes away the held record, but a rollback re-inserts the record as listed. For example, with duplicates decided by name, the book holds Bob with phone 5 and the listing still shows Bob with phone 2. A refused rename of Bob is then reported as a duplicate, yet Bob's phone reverts to 2 (`EditScenarios.StaleListingRollbackRestoresListedRecord`).
- The address book's contents are stated as a multiset. Where the list places an inserted record is not part of any contract. So after a rollback, the contents are the pre-call contents, but the order may differ.
- Format validation of names, phones, emails, addresses and tags is an opaque parameter `valid: (Field, string) -> bool`.
- Concurrent mutation enters only through `Execute`'s parameter `interleaved`. It is a record another holder of the book tries to insert between the refused insertion and the rollback; `None` means the command runs alone. This is the only way the lost-record outcome can occur.
- The source guards the rollback with `removed != null`. On the duplicate path the guard always holds, because only the insertion of the replacement can raise a duplicate, and that insertion runs after `removed` is set. The model has straight-line control flow instead of the guard.
- If the other holder inserts the very record that was removed, the rollback is still refused and the lost-record outcome is reported, yet the record is present. `EditProperties.LostRecordNeedsInterleaving` states this exactly: the target is absent unless the interleaved record is the target itself.
- The rollback restores the contents but not necessarily the order. The code re-inserts the original through the same insertion as any new record, so the model does not claim that the original order ([A, B, C]) comes back.
- A non-numeric index fails in integer parsing. That failure is not a validation error of the command, and parsing is left out, so the index is an `int`.

## Model

| member | source | states |
|---|---|---|
| `AddressBooks.AddressBook.constructor` | src/seedu/addressbook/commands/EditCommand.java:75 | a new book is empty and free of duplicates; it only establishes `Valid()`, which is assumed of the book used at line 75 |
| `AddressBooks.AddressBook.IndexOf` | src/seedu/addressbook/commands/EditCommand.java:75 | returns the first position holding a record with the given record's key, or -1 exactly when no held record has that key |
| `AddressBooks.AddressBook.HasDuplicateOf` | src/seedu/addressbook/commands/EditCommand.java:77 | true exactly when some held record has the same identity key as the given one |
| `AddressBooks.AddressBook.AddPerson` | src/seedu/addressbook/commands/EditCommand.java:77 | refuses exactly a record that clashes with a member, leaving the contents unchanged; otherwise adds it; keeps the book free of duplicates |
| `AddressBooks.AddressBook.RemovePerson` | src/seedu/addressbook/commands/EditCommand.java:75 | reports not-found exactly when no held record is a duplicate of the given one, leaving the contents unchanged; otherwise removes exactly that held duplicate; keeps the book free of duplicates |
| `UniquePersons.InsertKeepsUnique` | src/seedu/addressbook/commands/EditCommand.java:77 | inserting a record that clashes with no member keeps the contents free of duplicates |
| `UniquePersons.RemoveKeepsUnique` | src/seedu/addressbook/commands/EditCommand.java:75 | removing a record keeps the contents free of duplicates |
| `UniquePersons.HeldDuplicateIsOnly` | src/seedu/addressbook/commands/EditCommand.java:75 | in duplicate-free contents, the record a removal takes away is the only member with the given record's key |
| `UniquePersons.RemovedMemberNoLongerClashes` | src/seedu/addressbook/commands/EditCommand.java:87-89 | after a member is removed from duplicate-free contents, nothing left clashes with any record of its key, so re-inserting the target is accepted |
| `EditCommands.BuildTagSet` | src/seedu/addressbook/commands/EditCommand.java:49-52 | succeeds exactly when every tag name is valid, and then holds one tag per given name and no other; otherwise names an invalid given tag |
| `EditCommands.FirstInvalidDetail` | src/seedu/addressbook/commands/EditCommand.java:53-57 | none exactly when name, phone, email and address are all valid; otherwise an invalid one of them |
| `EditCommands.NewEditCommand` | src/seedu/addressbook/commands/EditCommand.java:43-62 | succeeds exactly when all tags and fields are valid, and then keeps the index and a replacement with the given fields, privacy flags and tag set; tag errors come first, then the first invalid of name, phone, email, address; no address book is involved |
| `EditCommands.EditCommand.constructor` | src/seedu/addressbook/commands/EditCommand.java:53-61 | keeps the replacement record and the target index |
| `EditCommands.TargetPerson` | src/seedu/addressbook/commands/EditCommand.java:74 | yields a record exactly when the index is within 1 to the listing's length, and then the listing's record at that position |
| `EditCommands.EditCommand.Execute` | src/seedu/addressbook/commands/EditCommand.java:69-94 | returns one outcome, leaves the book free of duplicates, and the outcome and new contents are those of the specification `Edit` on the old contents |
| `EditProperties.EditedSwapsTarget` | src/seedu/addressbook/commands/EditCommand.java:74-78 | success exactly when the index is in range, the book holds a duplicate of the target and the replacement clashes with no other member; it then echoes the listed original (not the replacement), and the contents become the old ones minus that held duplicate plus the replacement; with a current listing, minus the target itself |
| `EditProperties.InvalidIndexChangesNothing` | src/seedu/addressbook/commands/EditCommand.java:80-81 | invalid index exactly when the index is outside the listing, and then the contents are unchanged |
| `EditProperties.StaleTargetChangesNothing` | src/seedu/addressbook/commands/EditCommand.java:82-83 | not-in-address-book exactly when no held record is a duplicate of the listed one, and then the contents are unchanged |
| `EditProperties.DuplicateRollsBack` | src/seedu/addressbook/commands/EditCommand.java:84-92 | on a duplicate rejection the removed held duplicate is replaced by the listed target (plus an interleaved insertion, if any), so the replacement was not added; with a current listing and nothing interleaved the contents are exactly the old ones; the clash was with a member other than the one removed |
| `EditProperties.LostRecordNeedsInterleaving` | src/seedu/addressbook/commands/EditCommand.java:86-89 | the lost-record outcome needs an interleaved insertion of a duplicate of the target; the contents are then the old ones minus the removed held duplicate plus that record, and the target is absent unless that record is the target itself |
| `EditProperties.RollbackCannotFailAlone` | src/seedu/addressbook/commands/EditCommand.java:75-89 | with duplicate-free contents and nothing interleaved, the lost-record outcome is unreachable |
| `EditProperties.EditKeepsUnique` | src/seedu/addressbook/commands/EditCommand.java:69-93 | every path keeps the contents free of duplicates |
| `EditProperties.DuplicateRejectionRepeats` | src/seedu/addressbook/commands/EditCommand.java:84-92 | repeating a rejected edit alone is rejected again with the same contents |
| `EditScenarios.EditWithFreshNameSucceeds` | src/seedu/addressbook/commands/EditCommand.java:74-78 | editing Bob in [Alice, Bob, Carol] to a fresh name reports Bob and holds Alice, Carol and the replacement |
| `EditScenarios.EditToExistingNameRollsBack` | src/seedu/addressbook/commands/EditCommand.java:84-92 | renaming Bob to Alice is rejected and the contents are exactly Alice, Bob and Carol |
| `EditScenarios.InterleavedDuplicateLosesOriginal` | src/seedu/addressbook/commands/EditCommand.java:86-89 | a second Bob inserted during the rollback makes the rollback fail and Bob is lost |
| `EditScenarios.StaleListingRollbackRestoresListedRecord` | src/seedu/addressbook/commands/EditCommand.java:75-92 | with duplicates by name and a listing that shows Bob with an old phone, a refused rename to Alice is reported as a duplicate and the book holds Bob as listed |

`EditCommands.Edit` is the specification function that `Execute` follows. It has no contract of its own. The lemmas of `EditProperties` state what it promises.

## Left out

- Format validation of `Name`, `Phone`, `Email`, `Address` and `Tag`: the rules live in classes that are not part of this model. Validity is the parameter `valid`.
- `EditCommands.NewEditCommand`: assumes the `Name`, `Phone`, `Email`, `Address` and `Tag` constructors keep the raw string unchanged. Those classes are not part of this model and could normalise the value.
- Integer parsing of the index string (line 61): a library call whose failure is handled by the caller of the constructor. The index is taken as an `int`.
- The internals of the target lookup, of the address book and of its person list: the listing snapshot, the duplicate rule and where an inserted record is placed. They appear only through the contracts of `TargetPerson`, `AddressBook` and the key parameter.
- Message texts and their formatting (lines 21-34, 78): outcomes are the datatype `Outcome`.
- The cast at line 76 and the getter `getPerson` (lines 64-66): a Java typing detail and a plain accessor.
- Concurrent mutation other than one insertion between the refused insertion and the rollback: the model has no other point where another holder can act.
- `AddressBooks.AddressBook.AddPerson`: states contents as a multiset, not the position of the inserted record, because the placement rule is not visible.

/**
 * The edit command: replaces the person at a position of the last displayed
 * listing by a newly built record, as a removal followed by an insertion,
 * and re-inserts the removed record when the insertion is refused as a
 * duplicate.
 */
module EditCommands {
  import opened Wrappers
  import opened Persons
  import opened UniquePersons
  import opened AddressBooks

  /** The raw field values the command is built from. */
  datatype RawPerson = RawPerson(
    name: string,
    phone: string, isPhonePrivate: bool,
    email: string, isEmailPrivate: bool,
    address: string, isAddressPrivate: bool,
    tags: set<string>)

  /** A raw value that fails the format rule of its field. */
  datatype ValidationError = InvalidValue(field: Field, value: string)

  /** The one result an execution reports. */
  datatype Outcome =
    | Edited(original: Person)
    | InvalidIndex
    | PersonNotInAddressBook
    | DuplicatePerson
    | DuplicatePersonOriginalLost

  /** Every tag name passes the tag format rule. */
  predicate TagsValid(tagNames: set<string>, valid: (Field, string) -> bool)
  {
    forall t :: t in tagNames ==> valid(TagField, t)
  }

  /**
   * The first of name, phone, email and address, in the order the record's
   * fields are built, whose raw value fails its format rule.
   */
  function FirstInvalidDetail(raw: RawPerson, valid: (Field, string) -> bool): (e: Option<ValidationError>)
    ensures e.None? <==>
      valid(NameField, raw.name) && valid(PhoneField, raw.phone) &&
      valid(EmailField, raw.email) && valid(AddressField, raw.address)
    ensures e.Some? ==> e.value.field != TagField && !valid(e.value.field, e.value.value)
  {
    if !valid(NameField, raw.name) then Some(InvalidValue(NameField, raw.name))
    else if !valid(PhoneField, raw.phone) then Some(InvalidValue(PhoneField, raw.phone))
    else if !valid(EmailField, raw.email) then Some(InvalidValue(EmailField, raw.email))
    else if !valid(AddressField, raw.address) then Some(InvalidValue(AddressField, raw.address))
    else None
  }

  /**
   * Builds the set of tags from the given tag names, one tag per iteration;
   * fails on a name that is not a valid tag (which one, when several are
   * invalid, depends on the iteration order of the set).
   */
  method BuildTagSet(tagNames: set<string>, valid: (Field, string) -> bool)
    returns (r: Result<set<Tag>, ValidationError>)
    ensures r.Success? <==> TagsValid(tagNames, valid)
    ensures r.Success? ==> forall n :: Tag(n) in r.value <==> n in tagNames
    ensures r.Failure? ==>
      r.error.field == TagField && r.error.value in tagNames && !valid(TagField, r.error.value)
  {
    var tagSet: set<Tag> := {};
    var remaining := tagNames;
    while remaining != {}
      invariant remaining <= tagNames
      invariant forall t :: t in tagNames && t !in remaining ==> valid(TagField, t)
      invariant forall n :: Tag(n) in tagSet <==> n in tagNames && n !in remaining
      decreases remaining
    {
      var t :| t in remaining;
      if !valid(TagField, t) {
        return Failure(InvalidValue(TagField, t));
      }
      tagSet := tagSet + {Tag(t)};
      remaining := remaining - {t};
    }
    r := Success(tagSet);
  }

  /**
   * Builds an edit command: validates the tags, then name, phone, email and
   * address, and keeps the replacement record and the target index. The
   * address book is not involved.
   */
  method NewEditCommand(index: int, raw: RawPerson, valid: (Field, string) -> bool)
    returns (r: Result<EditCommand, ValidationError>)
    ensures r.Success? <==> TagsValid(raw.tags, valid) && FirstInvalidDetail(raw, valid).None?
    ensures r.Success? ==>
      && r.value.targetIndex == index
      && r.value.toAdd.name == raw.name
      && r.value.toAdd.phone == Contact(raw.phone, raw.isPhonePrivate)
      && r.value.toAdd.email == Contact(raw.email, raw.isEmailPrivate)
      && r.value.toAdd.address == Contact(raw.address, raw.isAddressPrivate)
      && (forall n :: Tag(n) in r.value.toAdd.tags <==> n in raw.tags)
    ensures r.Failure? && !TagsValid(raw.tags, valid) ==>
      r.error.field == TagField && r.error.value in raw.tags && !valid(TagField, r.error.value)
    ensures r.Failure? && TagsValid(raw.tags, valid) ==>
      FirstInvalidDetail(raw, valid) == Some(r.error)
  {
    var tags := BuildTagSet(raw.tags, valid);
    if tags.Failure? {
      return Failure(tags.error);
    }
    var invalid := FirstInvalidDetail(raw, valid);
    if invalid.Some? {
      return Failure(invalid.value);
    }
    var toAdd := Person(
      raw.name,
      Contact(raw.phone, raw.isPhonePrivate),
      Contact(raw.email, raw.isEmailPrivate),
      Contact(raw.address, raw.isAddressPrivate),
      tags.value);
    var command := new EditCommand(toAdd, index);
    r := Success(command);
  }

  /**
   * The person at the 1-based `index` of the last displayed listing, or None
   * when the index is outside the listing.
   */
  function TargetPerson(listing: seq<Person>, index: int): (r: Option<Person>)
    ensures r.Some? <==> 1 <= index <= |listing|
    ensures r.Some? ==> r.value in listing && r.value == listing[index - 1]
  {
    if 1 <= index <= |listing| then Some(listing[index - 1]) else None
  }

  /** The contents after another holder of the address book tries to insert `p`. */
  ghost function InsertedByOthers<K>(key: Person -> K, m: multiset<Person>, p: Option<Person>): multiset<Person>
  {
    if p.Some? && !Clashes(key, m, p.value) then m + multiset{p.value} else m
  }

  /** The outcome of an execution together with the address book's contents afterwards. */
  datatype EditResult = EditResult(outcome: Outcome, contents: multiset<Person>)

  /**
   * What one execution does to contents `m`: resolve the target, remove the
   * held record it is a duplicate of, insert the replacement and, when that
   * is refused, re-insert the target as listed.
   * `interleaved` is a record another holder of the address book inserts
   * between the refused insertion and the re-insertion (None when the
   * command runs alone).
   */
  ghost function Edit<K>(key: Person -> K, m: multiset<Person>, listing: seq<Person>,
                         toAdd: Person, index: int, interleaved: Option<Person>): EditResult
  {
    match TargetPerson(listing, index)
    case None => EditResult(InvalidIndex, m)
    case Some(target) =>
      if !Clashes(key, m, target) then EditResult(PersonNotInAddressBook, m)
      else
        var afterRemoval := m - multiset{HeldDuplicate(key, m, target)};
        if !Clashes(key, afterRemoval, toAdd) then
          EditResult(Edited(target), afterRemoval + multiset{toAdd})
        else
          var beforeRollback := InsertedByOthers(key, afterRemoval, interleaved);
          if Clashes(key, beforeRollback, target) then
            EditResult(DuplicatePersonOriginalLost, beforeRollback)
          else
            EditResult(DuplicatePerson, beforeRollback + multiset{target})
  }

  class EditCommand {
    /** The replacement record. */
    const toAdd: Person
    /** The 1-based position of the target in the last displayed listing. */
    const targetIndex: int

    constructor (toAdd: Person, targetIndex: int)
      ensures this.toAdd == toAdd && this.targetIndex == targetIndex
    {
      this.toAdd := toAdd;
      this.targetIndex := targetIndex;
    }

    /**
     * Runs the edit against `book`, resolving the target through `listing`.
     * Every path reports exactly one outcome and leaves the book free of
     * duplicates; outcome and contents are those `Edit` describes.
     */
    method Execute<K(==)>(book: AddressBook<K>, listing: seq<Person>, interleaved: Option<Person>)
      returns (outcome: Outcome)
      requires book.Valid()
      modifies book
      ensures book.Valid()
      ensures EditResult(outcome, book.Contents()) ==
              Edit(book.key, old(book.Contents()), listing, toAdd, targetIndex, interleaved)
    {
      var target := TargetPerson(listing, targetIndex);
      if target.None? {
        return InvalidIndex;
      }
      var removed := book.RemovePerson(target.value);
      if !removed {
        return PersonNotInAddressBook;
      }
      var added := book.AddPerson(toAdd);
      if added {
        return Edited(target.value);
      }
      if interleaved.Some? {
        var othersAdded := book.AddPerson(interleaved.value);
      }
      var restored := book.AddPerson(target.value);
      if !restored {
        return DuplicatePersonOriginalLost;
      }
      return DuplicatePerson;
    }
  }
}

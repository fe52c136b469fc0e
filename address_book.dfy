/**
 * The address book the edit command borrows: a list of person records that
 * refuses duplicates on insertion and reports a missing record on removal.
 * Only the behaviour the edit command relies on is modelled, through the
 * contracts below; the list's placement of a new record is not part of them.
 */
module AddressBooks {
  import opened Persons
  import opened UniquePersons

  class AddressBook<K(==)> {
    /** The identity key that decides which records are duplicates. */
    const key: Person -> K
    /** The records in the order the list keeps them. */
    var persons: seq<Person>

    /** The records held, without their order. */
    ghost function Contents(): multiset<Person>
      reads this
    {
      multiset(persons)
    }

    /** The list's invariant: it holds no duplicates. */
    ghost predicate Valid()
      reads this
    {
      Unique(key, Contents())
    }

    constructor (key: Person -> K)
      ensures Valid()
      ensures this.key == key && Contents() == multiset{}
    {
      this.key := key;
      persons := [];
    }

    /**
     * The position of the first held record that `p` is a duplicate of, or -1
     * when there is none.
     */
    method IndexOf(p: Person) returns (i: int)
      ensures -1 <= i < |persons|
      ensures i == -1 <==> !Clashes(key, Contents(), p)
      ensures 0 <= i ==> key(persons[i]) == key(p)
      ensures 0 <= i ==> forall j :: 0 <= j < i ==> key(persons[j]) != key(p)
    {
      i := 0;
      while i < |persons|
        invariant 0 <= i <= |persons|
        invariant forall j :: 0 <= j < i ==> key(persons[j]) != key(p)
      {
        if key(persons[i]) == key(p) {
          assert persons[i] in Contents();
          return;
        }
        i := i + 1;
      }
      i := -1;
    }

    /** Whether some held record is a duplicate of `p`. */
    method HasDuplicateOf(p: Person) returns (found: bool)
      ensures found <==> Clashes(key, Contents(), p)
    {
      var i := IndexOf(p);
      found := 0 <= i;
    }

    /**
     * Inserts `p` unless a held record is a duplicate of it; `added` is false
     * exactly when the insertion is refused as a duplicate, and then nothing
     * changes.
     */
    method AddPerson(p: Person) returns (added: bool)
      requires Valid()
      modifies this
      ensures Valid()
      ensures added <==> !Clashes(key, old(Contents()), p)
      ensures Contents() == if added then old(Contents()) + multiset{p} else old(Contents())
    {
      var duplicate := HasDuplicateOf(p);
      if duplicate {
        return false;
      }
      InsertKeepsUnique(key, Contents(), p);
      persons := persons + [p];
      added := true;
    }

    /**
     * Removes the held record that `p` is a duplicate of; `removed` is false
     * exactly when there is none, and then nothing changes.
     */
    method RemovePerson(p: Person) returns (removed: bool)
      requires Valid()
      modifies this
      ensures Valid()
      ensures removed <==> Clashes(key, old(Contents()), p)
      ensures Contents() ==
        if removed then old(Contents()) - multiset{HeldDuplicate(key, old(Contents()), p)}
        else old(Contents())
    {
      var i := IndexOf(p);
      if i < 0 {
        return false;
      }
      var held := persons[i];
      assert held in Contents();
      HeldDuplicateIsOnly(key, Contents(), p, held);
      RemoveKeepsUnique(key, Contents(), held);
      assert persons == persons[..i] + [held] + persons[i + 1..];
      assert multiset(persons[..i] + persons[i + 1..]) == Contents() - multiset{held};
      persons := persons[..i] + persons[i + 1..];
      removed := true;
    }
  }
}

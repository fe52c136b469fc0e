/**
 * Three concrete executions against the address book [Alice, Bob, Carol],
 * with duplicates decided by name, editing the second listed person.
 */
module EditScenarios {
  import opened Wrappers
  import opened Persons
  import opened UniquePersons
  import opened EditCommands

  function NamedPerson(name: string, phone: string): Person
  {
    Person(name, Contact(phone, false), Contact(name + "@example.com", false), Contact("Clementi", true), {})
  }

  function ByName(p: Person): string
  {
    p.name
  }

  /** A replacement with a fresh name is accepted and echoes the original. */
  lemma EditWithFreshNameSucceeds()
    ensures var alice, bob, carol := NamedPerson("Alice", "1"), NamedPerson("Bob", "2"), NamedPerson("Carol", "3");
      var bobby := NamedPerson("Bobby", "2");
      Edit(ByName, multiset{alice, bob, carol}, [alice, bob, carol], bobby, 2, None)
        == EditResult(Edited(bob), multiset{alice, carol, bobby})
  {
    var alice, bob, carol := NamedPerson("Alice", "1"), NamedPerson("Bob", "2"), NamedPerson("Carol", "3");
    var bobby := NamedPerson("Bobby", "2");
    assert multiset{alice, bob, carol} - multiset{bob} == multiset{alice, carol};
  }

  /** Renaming Bob to Alice is rejected and the book is exactly as before. */
  lemma EditToExistingNameRollsBack()
    ensures var alice, bob, carol := NamedPerson("Alice", "1"), NamedPerson("Bob", "2"), NamedPerson("Carol", "3");
      var alice2 := NamedPerson("Alice", "9");
      Edit(ByName, multiset{alice, bob, carol}, [alice, bob, carol], alice2, 2, None)
        == EditResult(DuplicatePerson, multiset{alice, bob, carol})
  {
    var alice, bob, carol := NamedPerson("Alice", "1"), NamedPerson("Bob", "2"), NamedPerson("Carol", "3");
    var alice2 := NamedPerson("Alice", "9");
    var afterRemoval := multiset{alice, bob, carol} - multiset{bob};
    assert afterRemoval == multiset{alice, carol};
    assert alice in afterRemoval && ByName(alice) == ByName(alice2);
  }

  /**
   * When another holder adds a second "Bob" while the edit is rolling back,
   * the rollback is refused and the original Bob is lost.
   */
  lemma InterleavedDuplicateLosesOriginal()
    ensures var alice, bob, carol := NamedPerson("Alice", "1"), NamedPerson("Bob", "2"), NamedPerson("Carol", "3");
      var alice2, otherBob := NamedPerson("Alice", "9"), NamedPerson("Bob", "7");
      Edit(ByName, multiset{alice, bob, carol}, [alice, bob, carol], alice2, 2, Some(otherBob))
        == EditResult(DuplicatePersonOriginalLost, multiset{alice, carol, otherBob})
  {
    var alice, bob, carol := NamedPerson("Alice", "1"), NamedPerson("Bob", "2"), NamedPerson("Carol", "3");
    var alice2, otherBob := NamedPerson("Alice", "9"), NamedPerson("Bob", "7");
    var afterRemoval := multiset{alice, bob, carol} - multiset{bob};
    assert afterRemoval == multiset{alice, carol};
    assert alice in afterRemoval && ByName(alice) == ByName(alice2);
    var beforeRollback := afterRemoval + multiset{otherBob};
    assert otherBob in beforeRollback && ByName(otherBob) == ByName(bob);
  }

  /**
   * With a stale listing that shows Bob with an old phone, renaming him to
   * Alice removes the held Bob, is refused, and the rollback re-inserts Bob
   * as listed: the edit is rejected and Bob's phone reverts to the old one.
   */
  lemma StaleListingRollbackRestoresListedRecord()
    ensures var alice, bob, carol := NamedPerson("Alice", "1"), NamedPerson("Bob", "5"), NamedPerson("Carol", "3");
      var listedBob, alice2 := NamedPerson("Bob", "2"), NamedPerson("Alice", "9");
      Edit(ByName, multiset{alice, bob, carol}, [alice, listedBob, carol], alice2, 2, None)
        == EditResult(DuplicatePerson, multiset{alice, listedBob, carol})
  {
    var alice, bob, carol := NamedPerson("Alice", "1"), NamedPerson("Bob", "5"), NamedPerson("Carol", "3");
    var listedBob, alice2 := NamedPerson("Bob", "2"), NamedPerson("Alice", "9");
    var m := multiset{alice, bob, carol};
    assert bob in m && ByName(bob) == ByName(listedBob);
    var held := HeldDuplicate(ByName, m, listedBob);
    assert held == bob;
    var afterRemoval := m - multiset{bob};
    assert afterRemoval == multiset{alice, carol};
    assert alice in afterRemoval && ByName(alice) == ByName(alice2);
    assert afterRemoval + multiset{listedBob} == multiset{alice, listedBob, carol};
  }
}

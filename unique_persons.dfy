/**
 * The uniqueness rule of the address book's person list, on its contents as a
 * multiset (where the list places a record is not part of the rule).
 *
 * Two records are duplicates when they have the same identity key. The key is
 * a parameter: the record's name under the reading of the duplicate message,
 * the whole record under full equality. The same rule decides which held
 * record a removal takes away.
 */
module UniquePersons {
  import opened Persons

  /** Some member of `m` is a duplicate of `p`: inserting `p` would be refused. */
  ghost predicate Clashes<K>(key: Person -> K, m: multiset<Person>, p: Person)
  {
    exists a :: a in m && key(a) == key(p)
  }

  /** No record occurs twice and no two members are duplicates of each other. */
  ghost predicate Unique<K>(key: Person -> K, m: multiset<Person>)
  {
    && (forall a :: a in m ==> m[a] == 1)
    && (forall a, b :: a in m && b in m && key(a) == key(b) ==> a == b)
  }

  /** Inserting a record that clashes with no member keeps the list unique. */
  lemma InsertKeepsUnique<K>(key: Person -> K, m: multiset<Person>, p: Person)
    requires Unique(key, m) && !Clashes(key, m, p)
    ensures p !in m
    ensures Unique(key, m + multiset{p})
  {
  }

  /** Removing any record (present or not) keeps the list unique. */
  lemma RemoveKeepsUnique<K>(key: Person -> K, m: multiset<Person>, p: Person)
    requires Unique(key, m)
    ensures Unique(key, m - multiset{p})
  {
  }

  /** The held record that `p` is a duplicate of: the one a removal of `p` takes away. */
  ghost function HeldDuplicate<K>(key: Person -> K, m: multiset<Person>, p: Person): (a: Person)
    requires Clashes(key, m, p)
    ensures a in m && key(a) == key(p)
  {
    var a :| a in m && key(a) == key(p); a
  }

  /** In a unique list the held duplicate of `p` is the only member with `p`'s key. */
  lemma HeldDuplicateIsOnly<K>(key: Person -> K, m: multiset<Person>, p: Person, a: Person)
    requires Unique(key, m) && a in m && key(a) == key(p)
    ensures HeldDuplicate(key, m, p) == a
  {
  }

  /**
   * In a unique list, once member `h` is removed nothing left clashes with a
   * record `t` of the same key, so inserting `t` is accepted: a rollback that
   * follows the removal directly cannot be refused.
   */
  lemma RemovedMemberNoLongerClashes<K>(key: Person -> K, m: multiset<Person>, h: Person, t: Person)
    requires Unique(key, m) && h in m && key(h) == key(t)
    ensures !Clashes(key, m - multiset{h}, t)
  {
  }
}

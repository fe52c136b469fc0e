/**
 * What one execution of the edit command does, stated per outcome, about the
 * specification `Edit` that `EditCommand.Execute` is proved to follow.
 */
module EditProperties {
  import opened Wrappers
  import opened Persons
  import opened UniquePersons
  import opened EditCommands

  /**
   * The edit succeeds exactly when the index is inside the listing, the book
   * holds a duplicate of the listed record and the replacement clashes with
   * none of the other members; it then reports the listed record (not the
   * replacement), and the replacement takes the place of the held duplicate,
   * which is the listed record itself when the listing is current.
   */
  lemma EditedSwapsTarget<K>(key: Person -> K, m: multiset<Person>, listing: seq<Person>,
                             toAdd: Person, index: int, interleaved: Option<Person>)
    ensures Edit(key, m, listing, toAdd, index, interleaved).outcome.Edited? <==>
      && 1 <= index <= |listing|
      && Clashes(key, m, listing[index - 1])
      && !Clashes(key, m - multiset{HeldDuplicate(key, m, listing[index - 1])}, toAdd)
    ensures var r := Edit(key, m, listing, toAdd, index, interleaved);
      r.outcome.Edited? ==>
        && r.outcome.original == listing[index - 1]
        && r.contents == m - multiset{HeldDuplicate(key, m, listing[index - 1])} + multiset{toAdd}
    ensures var r := Edit(key, m, listing, toAdd, index, interleaved);
      r.outcome.Edited? && Unique(key, m) && listing[index - 1] in m ==>
        r.contents == m - multiset{listing[index - 1]} + multiset{toAdd}
  {
    if 1 <= index <= |listing| && listing[index - 1] in m && Unique(key, m) {
      HeldDuplicateIsOnly(key, m, listing[index - 1], listing[index - 1]);
    }
  }

  /** An index outside the listing is reported as such, and nothing is removed. */
  lemma InvalidIndexChangesNothing<K>(key: Person -> K, m: multiset<Person>, listing: seq<Person>,
                                      toAdd: Person, index: int, interleaved: Option<Person>)
    ensures Edit(key, m, listing, toAdd, index, interleaved).outcome == InvalidIndex <==>
      !(1 <= index <= |listing|)
    ensures var r := Edit(key, m, listing, toAdd, index, interleaved);
      r.outcome == InvalidIndex ==> r.contents == m
  {
  }

  /**
   * A listed record of which the address book holds no duplicate any more (a
   * stale listing) is reported as missing, and nothing changes.
   */
  lemma StaleTargetChangesNothing<K>(key: Person -> K, m: multiset<Person>, listing: seq<Person>,
                                     toAdd: Person, index: int, interleaved: Option<Person>)
    ensures Edit(key, m, listing, toAdd, index, interleaved).outcome == PersonNotInAddressBook <==>
      1 <= index <= |listing| && !Clashes(key, m, listing[index - 1])
    ensures var r := Edit(key, m, listing, toAdd, index, interleaved);
      r.outcome == PersonNotInAddressBook ==> r.contents == m
  {
  }

  /**
   * A refused replacement is reported as a duplicate and rolled back: the
   * held duplicate of the listed record is replaced by the listed record
   * (plus whatever another holder inserted meanwhile), so the replacement was
   * not added; with a current listing and nothing interleaved the contents
   * are exactly those before the call. What the replacement clashed with is
   * a member other than the one removed.
   */
  lemma DuplicateRollsBack<K>(key: Person -> K, m: multiset<Person>, listing: seq<Person>,
                              toAdd: Person, index: int, interleaved: Option<Person>)
    requires Unique(key, m)
    ensures var r := Edit(key, m, listing, toAdd, index, interleaved);
      r.outcome == DuplicatePerson ==>
        && 1 <= index <= |listing|
        && Clashes(key, m, listing[index - 1])
        && var t, h := listing[index - 1], HeldDuplicate(key, m, listing[index - 1]);
           && (interleaved.None? ==> r.contents == m - multiset{h} + multiset{t})
           && (interleaved.Some? ==>
                 r.contents == m - multiset{h} + multiset{t} ||
                 r.contents == m - multiset{h} + multiset{t, interleaved.value})
           && (interleaved.None? && t in m ==> r.contents == m)
           && exists a :: a in m && a != h && key(a) == key(toAdd)
  {
    var r := Edit(key, m, listing, toAdd, index, interleaved);
    if r.outcome == DuplicatePerson {
      var t := listing[index - 1];
      var h := HeldDuplicate(key, m, t);
      if t in m {
        HeldDuplicateIsOnly(key, m, t, t);
      }
      var afterRemoval := m - multiset{h};
      var a :| a in afterRemoval && key(a) == key(toAdd);
      assert m[h] == 1 && afterRemoval[h] == 0;
      assert a in m && a != h;
    }
  }

  /**
   * The record is lost only when, between the refused insertion and the
   * rollback, another holder inserted a duplicate of the target: that record
   * took the place of the removed one, and the target is absent unless that
   * record is the target itself.
   */
  lemma LostRecordNeedsInterleaving<K>(key: Person -> K, m: multiset<Person>, listing: seq<Person>,
                                       toAdd: Person, index: int, interleaved: Option<Person>)
    requires Unique(key, m)
    ensures var r := Edit(key, m, listing, toAdd, index, interleaved);
      r.outcome == DuplicatePersonOriginalLost ==>
        && 1 <= index <= |listing|
        && Clashes(key, m, listing[index - 1])
        && interleaved.Some?
        && key(interleaved.value) == key(listing[index - 1])
        && (listing[index - 1] in r.contents <==> interleaved.value == listing[index - 1])
        && r.contents == m - multiset{HeldDuplicate(key, m, listing[index - 1])} + multiset{interleaved.value}
  {
    var r := Edit(key, m, listing, toAdd, index, interleaved);
    if r.outcome == DuplicatePersonOriginalLost {
      var t := listing[index - 1];
      RemovedMemberNoLongerClashes(key, m, HeldDuplicate(key, m, t), t);
    }
  }

  /**
   * When nothing else touches the address book during the call, the rollback
   * cannot be refused: the lost-record outcome is unreachable.
   */
  lemma RollbackCannotFailAlone<K>(key: Person -> K, m: multiset<Person>, listing: seq<Person>,
                                   toAdd: Person, index: int)
    requires Unique(key, m)
    ensures Edit(key, m, listing, toAdd, index, None).outcome != DuplicatePersonOriginalLost
  {
    if 1 <= index <= |listing| && Clashes(key, m, listing[index - 1]) {
      var t := listing[index - 1];
      RemovedMemberNoLongerClashes(key, m, HeldDuplicate(key, m, t), t);
    }
  }

  /** Every path leaves the address book free of duplicates. */
  lemma EditKeepsUnique<K>(key: Person -> K, m: multiset<Person>, listing: seq<Person>,
                           toAdd: Person, index: int, interleaved: Option<Person>)
    requires Unique(key, m)
    ensures Unique(key, Edit(key, m, listing, toAdd, index, interleaved).contents)
  {
    if 1 <= index <= |listing| && Clashes(key, m, listing[index - 1]) {
      var t := listing[index - 1];
      var afterRemoval := m - multiset{HeldDuplicate(key, m, t)};
      RemoveKeepsUnique(key, m, HeldDuplicate(key, m, t));
      if !Clashes(key, afterRemoval, toAdd) {
        InsertKeepsUnique(key, afterRemoval, toAdd);
      } else {
        var beforeRollback := InsertedByOthers(key, afterRemoval, interleaved);
        if interleaved.Some? && !Clashes(key, afterRemoval, interleaved.value) {
          InsertKeepsUnique(key, afterRemoval, interleaved.value);
        }
        if !Clashes(key, beforeRollback, t) {
          InsertKeepsUnique(key, beforeRollback, t);
        }
      }
    }
  }

  /**
   * Repeating an edit that was rejected as a duplicate, with nothing else
   * touching the address book, is rejected again and leaves the same contents.
   */
  lemma DuplicateRejectionRepeats<K>(key: Person -> K, m: multiset<Person>, listing: seq<Person>,
                                     toAdd: Person, index: int)
    requires Unique(key, m)
    requires Edit(key, m, listing, toAdd, index, None).outcome == DuplicatePerson
    ensures var r := Edit(key, m, listing, toAdd, index, None);
      Edit(key, r.contents, listing, toAdd, index, None) == r
  {
    var t := listing[index - 1];
    var h := HeldDuplicate(key, m, t);
    DuplicateRollsBack(key, m, listing, toAdd, index, None);
    RemovedMemberNoLongerClashes(key, m, h, t);
    var m2 := m - multiset{h} + multiset{t};
    EditKeepsUnique(key, m, listing, toAdd, index, None);
    HeldDuplicateIsOnly(key, m2, t, t);
    assert m2 - multiset{t} == m - multiset{h};
  }
}

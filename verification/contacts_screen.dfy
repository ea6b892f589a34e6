/** The contacts screen: the in-memory `contactsList` loaded from the store,
    the Delete button, and the add/edit dialog's Save button with its
    duplicate check. The preference store is one string cell. */
module ContactsScreen {
  import opened Wrappers
  import opened KotlinStrings
  import opened ContactCodec

  /** The screen's state: the list it shows and the string in the store.
      The two agree after every successful operation but can drift apart
      (see `EditRejectionDropsOld`). */
  datatype Screen = Screen(contacts: seq<string>, stored: string)

  /** The list shows exactly what the store holds. */
  predicate InSync(s: Screen) {
    Parse(s.stored) == s.contacts
  }

  /** Every entry occurs at most once. */
  predicate NoDuplicates(xs: seq<string>) {
    forall x | x in xs :: multiset(xs)[x] <= 1
  }

  /** Opening the screen loads the list from the store. */
  function Load(stored: string): (s: Screen)
    ensures s.stored == stored && InSync(s)
    ensures Storable(s.contacts)
  {
    Screen(Parse(stored), stored)
  }

  /** `MutableList.remove(x)`: drops the first occurrence of `x`, if any. */
  function RemoveFirst(xs: seq<string>, x: string): (ys: seq<string>)
    ensures x !in xs ==> ys == xs
    ensures multiset(ys) == multiset(xs) - multiset{x}
  {
    if |xs| == 0 then []
    else if xs[0] == x then
      assert xs == [x] + xs[1..];
      xs[1..]
    else
      assert xs == [xs[0]] + xs[1..];
      [xs[0]] + RemoveFirst(xs[1..], x)
  }

  /** Only the first occurrence goes; the entries before and after it keep
      their order. */
  lemma {:induction false} RemoveFirstShape(xs: seq<string>, x: string, k: nat)
    requires k < |xs| && xs[k] == x && x !in xs[..k]
    ensures RemoveFirst(xs, x) == xs[..k] + xs[k + 1..]
  {
    if k == 0 {
      assert xs[..0] == [];
    } else {
      var tail := xs[1..];
      assert xs[0] == xs[..k][0];
      assert tail[..k - 1] == xs[1..k];
      RemoveFirstShape(tail, x, k - 1);
      assert RemoveFirst(xs, x) == [xs[0]] + (tail[..k - 1] + tail[k..]);
      assert tail[k..] == xs[k + 1..];
      assert xs[..k] == [xs[0]] + xs[1..k];
      ConcatAssoc([xs[0]], xs[1..k], xs[k + 1..]);
    }
  }

  /** Removing an entry keeps the others storable, and a storable list
      reloads from its saved form. */
  lemma RemoveFirstStorable(xs: seq<string>, x: string)
    ensures Storable(xs) ==> Storable(RemoveFirst(xs, x))
    ensures Storable(xs) ==>
      Parse(Serialize(RemoveFirst(xs, x))) == RemoveFirst(xs, x)
  {
    forall y | y in RemoveFirst(xs, x)
      ensures y in xs
    {
      assert multiset(RemoveFirst(xs, x))[y] > 0;
    }
    if Storable(xs) {
      ParseSerialize(RemoveFirst(xs, x));
    }
  }

  /** The Delete button: remove the entry from the list, then store the
      joined list. */
  function Delete(s: Screen, entry: string): (r: Screen)
    ensures r.contacts == RemoveFirst(s.contacts, entry) && r.stored == Serialize(r.contacts)
    ensures multiset(r.contacts) == multiset(s.contacts) - multiset{entry}
    ensures Storable(s.contacts) ==> InSync(r) && Storable(r.contacts)
    ensures NoDuplicates(s.contacts) ==> NoDuplicates(r.contacts) && entry !in r.contacts
  {
    var contacts := RemoveFirst(s.contacts, entry);
    RemoveFirstStorable(s.contacts, entry);
    Screen(contacts, Serialize(contacts))
  }

  /** Delete takes out the first copy of the entry only; the entries before
      and after it keep their order. */
  lemma DeleteKeepsOrder(s: Screen, entry: string, k: nat)
    requires k < |s.contacts| && s.contacts[k] == entry && entry !in s.contacts[..k]
    ensures Delete(s, entry).contacts == s.contacts[..k] + s.contacts[k + 1..]
    ensures Delete(s, entry).stored == Join(s.contacts[..k] + s.contacts[k + 1..], ListSeparator)
  {
    RemoveFirstShape(s.contacts, entry, k);
  }

  /** What pressing Save did to the screen, and why it refused if it did. */
  datatype SaveResult = SaveResult(screen: Screen, error: Option<SaveError>)

  /** The list once the entry being edited is taken out (ContactsScreen.kt
      removes it before the duplicate check). */
  function Remaining(contacts: seq<string>, editing: Option<string>): seq<string> {
    match editing
    case None => contacts
    case Some(previous) => RemoveFirst(contacts, previous)
  }

  /** The Save button of the add/edit dialog. `editing` is the entry being
      edited, or None when adding. */
  function Save(s: Screen, editing: Option<string>, name: string, number: string): (r: SaveResult)
    ensures CheckInput(name, number).Some? ==> r == SaveResult(s, CheckInput(name, number))
    ensures r.error == Some(NameEmpty) || r.error == Some(NumberInvalid) ==> r.error == CheckInput(name, number)
    ensures r.error.None? <==>
      CheckInput(name, number).None? &&
      (Entry(name, number) !in Remaining(s.contacts, editing) || editing == Some(Entry(name, number)))
    ensures r.error.None? ==>
      r.screen.contacts == Remaining(s.contacts, editing) + [Entry(name, number)] &&
      r.screen.stored == Serialize(r.screen.contacts)
    ensures r.error == Some(AlreadyExists) ==>
      r.screen == Screen(Remaining(s.contacts, editing), s.stored)
  {
    match CheckInput(name, number)
    case Some(e) => SaveResult(s, Some(e))
    case None =>
      var entry := Entry(name, number);
      var remaining := Remaining(s.contacts, editing);
      if entry in remaining && editing != Some(entry) then
        SaveResult(Screen(remaining, s.stored), Some(AlreadyExists))
      else
        var contacts := remaining + [entry];
        SaveResult(Screen(contacts, Serialize(contacts)), None)
  }

  /** Adding: input failing the checks is refused with their error; input
      passing them is refused exactly when the entry is already present, and
      otherwise goes at the end. A refusal changes nothing, list or store. */
  lemma AddContact(s: Screen, name: string, number: string)
    ensures var r := Save(s, None, name, number);
      && (CheckInput(name, number).Some? ==> r.error == CheckInput(name, number))
      && (r.error == Some(AlreadyExists) <==>
            CheckInput(name, number).None? && Entry(name, number) in s.contacts)
      && (r.error.Some? ==> r.screen == s)
      && (r.error.None? ==> r.screen.contacts == s.contacts + [Entry(name, number)])
  {
  }

  /** Adding never creates a duplicate entry. */
  lemma AddKeepsNoDuplicates(s: Screen, name: string, number: string)
    requires NoDuplicates(s.contacts)
    ensures NoDuplicates(Save(s, None, name, number).screen.contacts)
  {
    var r := Save(s, None, name, number);
    if r.error.None? {
      var entry := Entry(name, number);
      assert multiset(r.screen.contacts) == multiset(s.contacts) + multiset{entry};
    }
  }

  /** A successful edit moves the edited contact to the end: the old entry's
      first occurrence goes, the others keep their order, and the list stays
      free of duplicates. */
  lemma EditContact(s: Screen, previous: string, name: string, number: string)
    requires NoDuplicates(s.contacts)
    requires Save(s, Some(previous), name, number).error.None?
    ensures var r := Save(s, Some(previous), name, number);
      && r.screen.contacts == RemoveFirst(s.contacts, previous) + [Entry(name, number)]
      && NoDuplicates(r.screen.contacts)
      && (previous != Entry(name, number) ==> previous !in r.screen.contacts)
  {
    var r := Save(s, Some(previous), name, number);
    var entry := Entry(name, number);
    var remaining := RemoveFirst(s.contacts, previous);
    assert multiset(remaining) == multiset(s.contacts) - multiset{previous};
    assert entry !in remaining by {
      if entry == previous {
        assert multiset(s.contacts)[previous] <= 1;
      }
    }
    assert multiset(r.screen.contacts) == multiset(remaining) + multiset{entry};
  }

  /** After a successful save the list and the store agree, provided the
      new name holds no ", ": even a screen left out of step by a refused
      edit is brought back in step. */
  lemma SaveKeepsInSync(s: Screen, editing: Option<string>, name: string, number: string)
    requires Storable(s.contacts)
    requires !Contains(name, ListSeparator)
    requires Save(s, editing, name, number).error.None?
    ensures InSync(Save(s, editing, name, number).screen)
  {
    var contacts := Save(s, editing, name, number).screen.contacts;
    var remaining := Remaining(s.contacts, editing);
    if editing.Some? {
      RemoveFirstStorable(s.contacts, editing.value);
    }
    AcceptedEntryStorable(name, number);
    assert Storable(contacts) by {
      forall c | c in contacts
        ensures c != "" && !Contains(c, ListSeparator)
      {
        if c !in remaining {
          assert c in [Entry(name, number)];
        }
      }
    }
    ParseSerialize(contacts);
  }

  /** An edit refused as a duplicate has already taken the previous entry out of
      the list on screen, while the store still holds it: the list and the
      store disagree until the screen is reloaded. */
  lemma EditRejectionDropsOld(s: Screen, previous: string, name: string, number: string)
    requires InSync(s) && previous in s.contacts
    requires Save(s, Some(previous), name, number).error == Some(AlreadyExists)
    ensures var r := Save(s, Some(previous), name, number);
      && r.screen.stored == s.stored
      && |r.screen.contacts| == |s.contacts| - 1
      && !InSync(r.screen)
  {
    var r := Save(s, Some(previous), name, number);
    assert |multiset(r.screen.contacts)| == |multiset(s.contacts)| - 1;
  }
}

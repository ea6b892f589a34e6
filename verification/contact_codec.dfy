/** How both screens encode emergency contacts: one entry per contact,
    `"name: number"`, and the whole list stored under the preference key
    `emergency_contacts` as the entries joined with ", ". Names are free
    text apart from being non-blank, so an entry only survives the round
    trip when its name holds neither separator; the lemmas below say
    exactly when. */
module ContactCodec {
  import opened Wrappers
  import opened KotlinStrings
  import opened PhoneNumber

  const ListSeparator := ", "
  const FieldSeparator := ": "

  lemma SeparatorsBorderless()
    ensures Borderless(ListSeparator) && Borderless(FieldSeparator)
  {
    assert ListSeparator[..1] == "," && ListSeparator[1..] == " ";
    assert FieldSeparator[..1] == ":" && FieldSeparator[1..] == " ";
  }

  /** `"${name}: ${number}"`. */
  function Entry(name: string, number: string): string {
    name + FieldSeparator + number
  }

  /** Loading the list: `split(", ").filter { it.isNotEmpty() }`. */
  function Parse(stored: string): (contacts: seq<string>)
    ensures forall c :: c in contacts ==> c != "" && !Contains(c, ListSeparator)
  {
    SplitPiecesFree(stored, ListSeparator);
    NonEmpty(Split(stored, ListSeparator))
  }

  /** Saving the list: `joinToString(", ")`. */
  function Serialize(contacts: seq<string>): string {
    Join(contacts, ListSeparator)
  }

  /** Entries that survive a save and a load: non-empty and free of ", ". */
  predicate Storable(contacts: seq<string>) {
    forall c :: c in contacts ==> c != "" && !Contains(c, ListSeparator)
  }

  /** Loading what was saved gives the list back. */
  lemma ParseSerialize(contacts: seq<string>)
    requires Storable(contacts)
    ensures Parse(Serialize(contacts)) == contacts
  {
    SeparatorsBorderless();
    if |contacts| == 0 {
      assert IndexOfFrom("", ListSeparator, 0).None?;
      assert Split("", ListSeparator) == [""];
    } else {
      SplitJoin(contacts, ListSeparator);
      assert forall k :: 0 <= k < |contacts| ==> contacts[k] in contacts;
    }
  }

  /** Loading is a normal form: a loaded list saves and reloads unchanged. */
  lemma ParseIsNormal(stored: string)
    ensures Storable(Parse(stored))
    ensures Parse(Serialize(Parse(stored))) == Parse(stored)
  {
    ParseSerialize(Parse(stored));
  }

  /** The first-contact dialog's save: the entry alone when nothing is
      stored yet, otherwise appended after ", ". */
  function AppendEntry(stored: string, contact: string): string {
    if stored == "" then contact else stored + ListSeparator + contact
  }

  /** Appending in the store appends in the loaded list: whatever the store
      and the new entry hold, the list loaded afterwards is the old list
      followed by the pieces of the entry, and an entry that is non-empty
      and free of ", " arrives as exactly one element. */
  lemma ParseAppendEntry(stored: string, contact: string)
    ensures Parse(AppendEntry(stored, contact)) == Parse(stored) + Parse(contact)
    ensures contact != "" && !Contains(contact, ListSeparator) ==>
      Parse(AppendEntry(stored, contact)) == Parse(stored) + [contact]
  {
    SeparatorsBorderless();
    if stored == "" {
      assert IndexOfFrom("", ListSeparator, 0).None?;
      assert Split("", ListSeparator) == [""];
      assert Parse(stored) == [];
    } else {
      SplitAppend(stored, ListSeparator, contact);
      NonEmptyAppend(Split(stored, ListSeparator), Split(contact, ListSeparator));
    }
    if contact != "" && !Contains(contact, ListSeparator) {
      SplitNoSeparator(contact, ListSeparator);
      assert NonEmpty([contact]) == [contact];
    }
  }

  /** `contact.split(": ")[0]`, the name shown for an entry. */
  function NameOf(entry: string): (name: string)
    ensures |name| <= |entry| && entry[..|name|] == name
    ensures !Contains(name, FieldSeparator)
    ensures Contains(entry, FieldSeparator) ==> OccursAt(entry, FieldSeparator, |name|)
    ensures !Contains(entry, FieldSeparator) ==> name == entry
  {
    SplitFirstPiece(entry, FieldSeparator);
    Split(entry, FieldSeparator)[0]
  }

  /** `contact.split(": ")[1]`, the number of an entry; None where Kotlin
      throws IndexOutOfBoundsException because the entry holds no ": ". */
  function NumberOf(entry: string): (number: Option<string>)
    ensures number.Some? <==> Contains(entry, FieldSeparator)
  {
    SplitManyIff(entry, FieldSeparator);
    var parts := Split(entry, FieldSeparator);
    if |parts| >= 2 then Some(parts[1]) else None
  }

  /** The fields come back from an entry whose parts hold no ": ". */
  lemma EntryFields(name: string, number: string)
    requires !Contains(name, FieldSeparator) && !Contains(number, FieldSeparator)
    ensures NameOf(Entry(name, number)) == name
    ensures NumberOf(Entry(name, number)) == Some(number)
  {
    SeparatorsBorderless();
    SplitAppend(name, FieldSeparator, number);
    SplitNoSeparator(name, FieldSeparator);
    SplitNoSeparator(number, FieldSeparator);
  }

  /** The name shown is the name typed exactly when the name holds no ": ";
      otherwise only the part before its first ": " is shown. */
  lemma NameRecoveredIff(name: string, number: string)
    ensures NameOf(Entry(name, number)) == name <==> !Contains(name, FieldSeparator)
  {
    SeparatorsBorderless();
    SplitAppend(name, FieldSeparator, number);
    match IndexOfFrom(name, FieldSeparator, 0)
    case None =>
      SplitNoSeparator(name, FieldSeparator);
    case Some(i) =>
      assert Split(name, FieldSeparator)[0] == name[..i];
      assert |name[..i]| < |name|;
  }

  /** The edit dialog's prefill: `split(": ")` of the entry being edited,
      piece 0 into the name field and piece 1 into the number field; None
      where reading piece 1 throws. */
  function Prefill(entry: string): (fields: Option<(string, string)>)
    ensures fields.Some? <==> Contains(entry, FieldSeparator)
  {
    match NumberOf(entry)
    case None => None
    case Some(number) => Some((NameOf(entry), number))
  }

  /** The edit dialog rebuilds the entry it was opened on exactly when the
      name holds no ": " (the number is a valid one, so holds none). A name
      with ": " loses everything from its first ": " on, so the rebuilt
      entry is strictly shorter. */
  lemma PrefillRoundTrip(name: string, number: string)
    requires !Contains(number, FieldSeparator)
    ensures Prefill(Entry(name, number)).Some?
    ensures !Contains(name, FieldSeparator) ==> Prefill(Entry(name, number)) == Some((name, number))
    ensures (Entry(Prefill(Entry(name, number)).value.0, Prefill(Entry(name, number)).value.1)
               == Entry(name, number))
      <==> !Contains(name, FieldSeparator)
  {
    var e := Entry(name, number);
    SeparatorsBorderless();
    SplitAppend(name, FieldSeparator, number);
    if !Contains(name, FieldSeparator) {
      EntryFields(name, number);
    } else {
      var parts := Split(e, FieldSeparator);
      SplitManyIff(name, FieldSeparator);
      assert |parts| >= 3;
      JoinSplit(e, FieldSeparator);
      JoinAtLeastThree(parts, FieldSeparator);
      assert Prefill(e) == Some((parts[0], parts[1]));
      assert |Entry(parts[0], parts[1])| < |e|;
    }
  }

  const MaskSuffix := ") XXX-XXXX"

  /** `"(${number.substring(0, 3)}) XXX-XXXX"`; None where `substring`
      throws because the number is shorter than three characters. */
  function Mask(number: string): (r: Option<string>)
    ensures r.Some? <==> |number| >= 3
    ensures r.Some? ==> |r.value| == 14 && r.value[1..4] == number[..3]
  {
    if |number| < 3 then None else Some("(" + number[..3] + MaskSuffix)
  }

  /** The mask reveals the first three characters and nothing else: two
      numbers mask alike exactly when they share them. */
  lemma MaskRevealsOnlyPrefix(a: string, b: string)
    requires |a| >= 3 && |b| >= 3
    ensures Mask(a) == Mask(b) <==> a[..3] == b[..3]
  {
    if Mask(a) == Mask(b) {
      assert Mask(a).value[1..4] == Mask(b).value[1..4];
    }
  }

  /** The masked number shown under an entry's name. */
  function MaskedNumber(entry: string): (masked: Option<string>)
    ensures masked.Some? ==> Contains(entry, FieldSeparator) && |masked.value| == 14
  {
    match NumberOf(entry)
    case None => None
    case Some(number) => Mask(number)
  }

  /** Why a save button refused its input. */
  datatype SaveError = NameEmpty | NumberInvalid | AlreadyExists

  /** The checks both save buttons make, in order: a blank name first, then
      an invalid number. */
  function CheckInput(name: string, number: string): (e: Option<SaveError>)
    ensures e.None? <==> !IsBlank(name) && IsValidIndianPhoneNumber(number)
    ensures e == Some(NameEmpty) <==> IsBlank(name)
    ensures e != Some(AlreadyExists)
  {
    if IsBlank(name) then Some(NameEmpty)
    else if !IsValidIndianPhoneNumber(number) then Some(NumberInvalid)
    else None
  }

  /** A string none of whose characters starts `sep` does not contain it. */
  lemma AbsentLeadCharacter(s: string, sep: string)
    requires |sep| > 0 && forall k :: 0 <= k < |s| ==> s[k] != sep[0]
    ensures !Contains(s, sep)
  {
    forall k: nat | k + |sep| <= |s|
      ensures !OccursAt(s, sep, k)
    {
      assert s[k..k + |sep|][0] == s[k];
    }
  }

  /** A valid number holds no ',' and no ':', so neither separator. */
  lemma ValidNumberHasNoSeparator(number: string)
    requires IsValidIndianPhoneNumber(number)
    ensures !Contains(number, ListSeparator) && !Contains(number, FieldSeparator)
  {
    ValidCharset(number);
    AbsentLeadCharacter(number, ListSeparator);
    AbsentLeadCharacter(number, FieldSeparator);
  }

  /** An entry with a valid number whose name holds no ", " is storable:
      the only characters added around the name are ": " and the number's
      digits, spaces and hyphens, none of which can complete a ", ". */
  lemma AcceptedEntryStorable(name: string, number: string)
    requires IsValidIndianPhoneNumber(number)
    requires !Contains(name, ListSeparator)
    ensures Storable([Entry(name, number)])
  {
    var e := Entry(name, number);
    ValidCharset(number);
    assert e == name + (FieldSeparator + number);
    forall k: nat | k <= |e|
      ensures !OccursAt(e, ListSeparator, k)
    {
      if k + 2 <= |name| {
        OccursInPrefix(name, FieldSeparator + number, ListSeparator, k);
      } else if k + 2 <= |e| {
        assert e[k..k + 2][0] == e[k] && e[k..k + 2][1] == e[k + 1];
        if k + 1 == |name| {
          assert e[k + 1] == ':';
        } else {
          assert k >= |name|;
          assert e[k] != ',' by {
            if k >= |name| + 2 {
              assert e[k] == number[k - |name| - 2];
            }
          }
        }
      }
    }
  }

  /** An accepted entry whose name holds no ": " shows that name and a mask
      of the number typed. */
  lemma AcceptedEntryDisplays(name: string, number: string)
    requires CheckInput(name, number).None?
    requires !Contains(name, FieldSeparator)
    ensures NameOf(Entry(name, number)) == name
    ensures |number| >= 10
    ensures MaskedNumber(Entry(name, number)) == Some("(" + number[..3] + MaskSuffix)
  {
    ValidNumberHasNoSeparator(number);
    EntryFields(name, number);
    ValidIff(number);
  }

  /** A name `first, rest`, with `first` non-empty and neither part holding
      ", ", splits its contact into two list items on the next load (the
      save accepts it whenever `first` is not blank, even when `rest` is
      empty). The part before the ", " becomes an item of its own, and when
      it holds no ": " it has no number, so showing it and texting it both
      throw. */
  lemma ListSeparatorInName(first: string, rest: string, number: string)
    requires first != "" && !Contains(first, ListSeparator)
    requires IsValidIndianPhoneNumber(number) && !Contains(rest, ListSeparator)
    ensures Parse(Entry(first + ListSeparator + rest, number)) == [first, Entry(rest, number)]
    ensures !Contains(first, FieldSeparator) ==> NumberOf(first).None?
  {
    SeparatorsBorderless();
    var e := Entry(rest, number);
    assert Entry(first + ListSeparator + rest, number) == first + ListSeparator + e;
    AcceptedEntryStorable(rest, number);
    SplitAppend(first, ListSeparator, e);
    SplitNoSeparator(first, ListSeparator);
    SplitNoSeparator(e, ListSeparator);
    assert Split(first + ListSeparator + e, ListSeparator) == [first, e];
    assert NonEmpty([first, e]) == [first, e] by {
      assert [first, e][0] != "" && [first, e][1] != "";
    }
    if !Contains(first, FieldSeparator) {
      SplitNoSeparator(first, FieldSeparator);
    }
  }
}

/** The main screen's first-contact dialog: shown while nothing is stored,
    its Save button appends one entry to the stored string. Unlike the
    contacts screen it makes no duplicate check. */
module FirstContact {
  import opened Wrappers
  import opened KotlinStrings
  import opened ContactCodec

  /** `showEmergencyNumberDialog` starts out as `contactsString.isEmpty()`. */
  predicate PromptShown(stored: string) {
    stored == ""
  }

  /** What Save leaves in the store, and why it refused if it did; the
      dialog stays open exactly when it refused. */
  datatype Outcome = Outcome(stored: string, error: Option<SaveError>)

  /** The dialog's Save button. */
  function SaveFirstContact(stored: string, name: string, number: string): (r: Outcome)
    ensures r.error.Some? ==> r.stored == stored
    ensures r.error == CheckInput(name, number)
    ensures r.error.None? ==>
      r.stored == (if stored == "" then Entry(name, number) else stored + ListSeparator + Entry(name, number))
  {
    match CheckInput(name, number)
    case Some(e) => Outcome(stored, Some(e))
    case None => Outcome(AppendEntry(stored, Entry(name, number)), None)
  }

  /** Save only ever appends to the loaded list: a refusal leaves it as it
      was, a successful save adds the pieces of the new entry at the end and
      dismisses the prompt, and when the name holds no ", " those pieces are
      the one new entry. */
  lemma SaveAppendsToList(stored: string, name: string, number: string)
    ensures var r := SaveFirstContact(stored, name, number);
      Parse(r.stored) == Parse(stored) + (if r.error.None? then Parse(Entry(name, number)) else [])
    ensures var r := SaveFirstContact(stored, name, number);
      r.error.None? && !Contains(name, ListSeparator) ==>
        Parse(r.stored) == Parse(stored) + [Entry(name, number)]
    ensures var r := SaveFirstContact(stored, name, number);
      r.error.None? ==> !PromptShown(r.stored)
  {
    if CheckInput(name, number).None? {
      ParseAppendEntry(stored, Entry(name, number));
      if !Contains(name, ListSeparator) {
        AcceptedEntryStorable(name, number);
      }
    }
  }
}

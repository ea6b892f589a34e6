# Jolt emergency contacts and accident countdown, in Dafny

Jolt is an Android app that watches for road accidents and, once one is
detected, shows a countdown from 15 down to 0, one second per value, with a
rising alarm, and texts the user's emergency contacts once the wait at 0 is
over. This project models the logic of its two screens:

- **`MainScreen`**
  - the first-contact prompt and its Save button;
  - the "Accident Detected" dialog: its 15-to-0 countdown, alarm volume ramp,
    "Cancel Text" and "Send Text" buttons, and the SMS permission request;
  - `sendEmergencySMS`, which texts the stored contacts in order until the
    first failure.
- **`ContactsScreen`**
  - loading the contact list;
  - Delete, and the add/edit dialog's Save with its duplicate check;
  - the edit prefill and the masked number display.
- **`isValidIndianPhoneNumber`**, written out identically in both screens, and
  the number field's input filter.

The modules follow the program:

- `KotlinStrings` holds the Kotlin library operations the screens rely on:
  `indexOf`, `split`, `joinToString`, `filter { it.isNotEmpty() }` and
  `isBlank`.
- `PhoneNumber` is the validator; `NumberInput` is the input filter.
- `ContactCodec` covers the `"name: number"` entries and the `", "`-joined
  stored list.
- `ContactsScreen`, `FirstContact` and `EmergencySms` are the screen
  operations.
- `AccidentDialog` is the countdown dialog as a state machine.

The model works as follows:

- Every operation is a pure function. The preference store is one string cell
  holding the value of the key `emergency_contacts`.
- The SMS transport is a parameter that says, for each call, whether it
  returns normally.
- The one-second coroutine delay is a `Tick` event.
- The SMS dispatch and the permission request are effects that the dialog's
  step function returns.

## Model

| member | source | states |
|---|---|---|
| KotlinStrings.IndexOfFrom | app/src/main/java/com/example/jolt/screens/MainScreen.kt:35 | the result is the first occurrence of the delimiter at or after the start offset; None exactly when there is none |
| KotlinStrings.Split | app/src/main/java/com/example/jolt/screens/MainScreen.kt:35 | splitting yields at least one piece and at most one more than the string's length |
| KotlinStrings.SplitPiecesFree | app/src/main/java/com/example/jolt/screens/MainScreen.kt:35 | no piece of a split contains the delimiter |
| KotlinStrings.JoinSplit | app/src/main/java/com/example/jolt/screens/ContactsScreen.kt:52 | joining the pieces of a split with the same delimiter restores the string exactly |
| KotlinStrings.SplitAppend | app/src/main/java/com/example/jolt/screens/ContactsScreen.kt:23 | for ", " and ": " (no proper prefix equal to a suffix), splitting `a + sep + c` gives the pieces of `a` followed by the pieces of `c` |
| KotlinStrings.SplitNoSeparator | app/src/main/java/com/example/jolt/screens/ContactsScreen.kt:23 | a string without the delimiter splits into itself alone |
| KotlinStrings.SplitJoin | app/src/main/java/com/example/jolt/screens/ContactsScreen.kt:23 | for a delimiter with no proper prefix equal to a suffix, such as ", " and ": ", splitting a join gives back a non-empty list whose elements hold no delimiter, empty elements included |
| KotlinStrings.SplitManyIff | app/src/main/java/com/example/jolt/screens/MainScreen.kt:252 | a split has two or more pieces exactly when the delimiter occurs |
| KotlinStrings.SplitFirstPiece | app/src/main/java/com/example/jolt/screens/MainScreen.kt:159 | the first piece is the text before the first delimiter, or the whole string when there is none, and holds no delimiter |
| KotlinStrings.JoinAtLeastThree | app/src/main/java/com/example/jolt/screens/ContactsScreen.kt:52 | a join of three or more strings is the first, the delimiter, the second, the delimiter, then the join of the rest |
| KotlinStrings.Join | app/src/main/java/com/example/jolt/screens/ContactsScreen.kt:52 | `joinToString`; its inverse is `Split`, by `JoinSplit` and `SplitJoin` |
| KotlinStrings.IsWhitespace | app/src/main/java/com/example/jolt/screens/ContactsScreen.kt:107 | the characters Kotlin's `isWhitespace` accepts on the JVM: the ASCII controls tab to carriage return, the four information separators, and the Unicode space, line and paragraph separators |
| KotlinStrings.IsBlank | app/src/main/java/com/example/jolt/screens/ContactsScreen.kt:107 | `isBlank`: every character is whitespace, so "" is blank |
| KotlinStrings.NonEmpty | app/src/main/java/com/example/jolt/screens/MainScreen.kt:35 | the filter keeps only non-empty elements of the input, never lengthens it, and keeps a list without empty strings unchanged |
| KotlinStrings.NonEmptyAppend | app/src/main/java/com/example/jolt/screens/MainScreen.kt:35 | filtering out empty strings distributes over concatenation |
| PhoneNumber.Clean | app/src/main/java/com/example/jolt/screens/MainScreen.kt:234 | deleting `[\s-]` never lengthens the text and leaves no space, tab or hyphen behind |
| PhoneNumber.MatchFrom | app/src/main/java/com/example/jolt/screens/MainScreen.kt:235 | `matches`: from class i on, the pattern consumes the whole rest of the string; characterised by `MatchFromIff` |
| PhoneNumber.IsValidIndianPhoneNumber | app/src/main/java/com/example/jolt/screens/MainScreen.kt:233-236 | the validator: clean, then match `^[6-9]\d{9}$`; characterised by `ValidIff` |
| PhoneNumber.MatchFromIff | app/src/main/java/com/example/jolt/screens/MainScreen.kt:235 | a full match of the pattern is exactly: the same length as the pattern, with each character in its class |
| PhoneNumber.ValidIff | app/src/main/java/com/example/jolt/screens/MainScreen.kt:233-236 | a number is valid iff its cleaned form has length 10, starts with 6 to 9 and is ASCII digits throughout |
| PhoneNumber.PlaceholderMatches | app/src/main/java/com/example/jolt/screens/MainScreen.kt:101 | the placeholder "8638144632" matches `^[6-9]\d{9}$` |
| PhoneNumber.PlaceholderAccepted | app/src/main/java/com/example/jolt/screens/MainScreen.kt:101 | the placeholder "8638144632" is a valid number |
| PhoneNumber.TooShortIsInvalid | app/src/main/java/com/example/jolt/screens/MainScreen.kt:235 | fewer than ten characters are never valid |
| PhoneNumber.LeadingCharacterIsInvalid | app/src/main/java/com/example/jolt/screens/MainScreen.kt:235 | a number whose first character survives cleaning and is not 6 to 9 is invalid |
| PhoneNumber.RejectedExamples | app/src/main/java/com/example/jolt/screens/ContactsScreen.kt:186-189 | "" and "1234567890" are rejected |
| PhoneNumber.CleanAppend | app/src/main/java/com/example/jolt/screens/MainScreen.kt:234 | cleaning commutes with concatenation |
| PhoneNumber.CleanWithoutSeparators | app/src/main/java/com/example/jolt/screens/MainScreen.kt:234 | text without spaces and hyphens is left unchanged by cleaning |
| PhoneNumber.CleanIdempotent | app/src/main/java/com/example/jolt/screens/MainScreen.kt:234 | cleaning twice is cleaning once |
| PhoneNumber.ValidOnCleaned | app/src/main/java/com/example/jolt/screens/MainScreen.kt:233-236 | a number and its cleaned form get the same verdict |
| PhoneNumber.SeparatorInsensitive | app/src/main/java/com/example/jolt/screens/MainScreen.kt:233-236 | inserting or removing one space, tab or hyphen anywhere never changes the verdict |
| PhoneNumber.ValidCharset | app/src/main/java/com/example/jolt/screens/ContactsScreen.kt:186-189 | every character of a valid number is an ASCII digit, a `\s` character or a hyphen |
| PhoneNumber.CleanCharset | app/src/main/java/com/example/jolt/screens/ContactsScreen.kt:187 | text that cleans to ASCII digits consists of ASCII digits and separators |
| NumberInput.IsDigit | app/src/main/java/com/example/jolt/screens/MainScreen.kt:97 | Kotlin's `Char.isDigit`: the character lies in one of the ten-digit runs of Unicode decimal digits in the Basic Multilingual Plane |
| NumberInput.KeepDigitsSingle | app/src/main/java/com/example/jolt/screens/MainScreen.kt:97 | one character is kept exactly when it is a digit |
| NumberInput.KeepDigitsAppend | app/src/main/java/com/example/jolt/screens/MainScreen.kt:97 | the filter distributes over concatenation, so the input's digits survive in their order |
| NumberInput.KeepDigitsDropsNonDigit | app/src/main/java/com/example/jolt/screens/ContactsScreen.kt:91-92 | a non-digit such as a hyphen is dropped and the text around it closes up |
| NumberInput.KeepDigits | app/src/main/java/com/example/jolt/screens/MainScreen.kt:97 | the digit filter never lengthens its input and keeps only Unicode decimal digits |
| NumberInput.FilterNumberField | app/src/main/java/com/example/jolt/screens/ContactsScreen.kt:90-94 | the number field holds the first ten digits of the input, or all of them when there are fewer: a prefix of the filtered text of length min(10, digits) |
| NumberInput.KeepDigitsOfDigits | app/src/main/java/com/example/jolt/screens/ContactsScreen.kt:91-92 | a string of digits passes the digit filter unchanged |
| NumberInput.FilterNumberFieldIdempotent | app/src/main/java/com/example/jolt/screens/MainScreen.kt:96-98 | filtering the field's content again changes nothing |
| NumberInput.AsciiDigitIsDigit | app/src/main/java/com/example/jolt/screens/MainScreen.kt:97 | every ASCII digit passes the filter |
| NumberInput.DigitIsNotSeparator | app/src/main/java/com/example/jolt/screens/ContactsScreen.kt:91-93 | no character that passes the filter is one the validator deletes |
| NumberInput.ValidAfterFilter | app/src/main/java/com/example/jolt/screens/MainScreen.kt:97 | filtered input is valid iff it is ten ASCII digits starting with 6 to 9 |
| NumberInput.NonAsciiDigitsPassFilterButFail | app/src/main/java/com/example/jolt/screens/ContactsScreen.kt:91-93 | a 9 followed by nine Devanagari digits passes the filter untouched, yet the validator rejects it at `\d` |
| ContactCodec.SeparatorsBorderless | app/src/main/java/com/example/jolt/screens/ContactsScreen.kt:23 | neither ", " nor ": " has a proper prefix that is also its suffix, so their occurrences never overlap |
| ContactCodec.Parse | app/src/main/java/com/example/jolt/screens/MainScreen.kt:35 | a loaded list has no empty entry and no entry containing ", " |
| ContactCodec.ParseSerialize | app/src/main/java/com/example/jolt/screens/ContactsScreen.kt:121 | loading a saved list gives it back whenever every entry is non-empty and free of ", " |
| ContactCodec.ParseIsNormal | app/src/main/java/com/example/jolt/screens/ContactsScreen.kt:23 | a loaded list can be saved and reloaded unchanged |
| ContactCodec.ParseAppendEntry | app/src/main/java/com/example/jolt/screens/MainScreen.kt:115-116 | for any store and entry, the loaded list after appending is the old list followed by the entry's non-empty ", "-pieces; a non-empty entry free of ", " arrives as exactly one element, whether or not the store was empty |
| ContactCodec.Entry | app/src/main/java/com/example/jolt/screens/ContactsScreen.kt:112 | `"${name}: ${number}"`; `EntryFields` and `PrefillRoundTrip` say when it can be taken apart again |
| ContactCodec.Serialize | app/src/main/java/com/example/jolt/screens/ContactsScreen.kt:121 | `joinToString(", ")` of the list; `ParseSerialize` makes it the inverse of loading |
| ContactCodec.AppendEntry | app/src/main/java/com/example/jolt/screens/MainScreen.kt:115-116 | the entry alone for an empty store, otherwise after ", "; `ParseAppendEntry` says it appends to the loaded list |
| ContactCodec.NameOf | app/src/main/java/com/example/jolt/screens/ContactsScreen.kt:165 | the name shown is the entry's prefix up to its first ": ", or the whole entry when it holds none, and holds no ": " |
| ContactCodec.NumberOf | app/src/main/java/com/example/jolt/screens/MainScreen.kt:252 | `split(": ")[1]` exists exactly when the entry contains ": "; where it does not, Kotlin throws |
| ContactCodec.Prefill | app/src/main/java/com/example/jolt/screens/ContactsScreen.kt:73-74 | the edit prefill exists exactly when the entry contains ": " |
| ContactCodec.MaskedNumber | app/src/main/java/com/example/jolt/screens/ContactsScreen.kt:169 | a mask is shown only for an entry containing ": ", and it is 14 characters long |
| ContactCodec.EntryFields | app/src/main/java/com/example/jolt/screens/MainScreen.kt:252 | `split(": ")` recovers the name at index 0 and the number at index 1 when neither holds ": " |
| ContactCodec.NameRecoveredIff | app/src/main/java/com/example/jolt/screens/ContactsScreen.kt:165 | the name shown is the name typed exactly when the name contains no ": " |
| ContactCodec.PrefillRoundTrip | app/src/main/java/com/example/jolt/screens/ContactsScreen.kt:73-74 | for a number without ": ", the edit prefill always has two fields, and it rebuilds the entry exactly when the name holds no ": " (then the fields are the name and number typed) |
| ContactCodec.Mask | app/src/main/java/com/example/jolt/screens/ContactsScreen.kt:169 | the mask exists exactly when the number has at least three characters; it is 14 characters and shows the first three |
| ContactCodec.MaskRevealsOnlyPrefix | app/src/main/java/com/example/jolt/screens/MainScreen.kt:208 | two numbers mask alike exactly when their first three characters agree |
| ContactCodec.CheckInput | app/src/main/java/com/example/jolt/screens/ContactsScreen.kt:107-111 | a save passes the checks iff the name is not blank and the number is valid; a blank name is reported first |
| ContactCodec.ValidNumberHasNoSeparator | app/src/main/java/com/example/jolt/screens/MainScreen.kt:114 | a valid number contains neither ", " nor ": " |
| ContactCodec.AcceptedEntryStorable | app/src/main/java/com/example/jolt/screens/ContactsScreen.kt:112 | an entry with a valid number whose name holds no ", " is non-empty and free of ", " |
| ContactCodec.AcceptedEntryDisplays | app/src/main/java/com/example/jolt/screens/MainScreen.kt:205-212 | an accepted entry whose name holds no ": " shows that name and the mask of its number, which is long enough for the substring |
| ContactCodec.ListSeparatorInName | app/src/main/java/com/example/jolt/screens/ContactsScreen.kt:112-121 | a name `first, rest`, with `first` non-empty, neither part holding ", " and the number valid, reloads as two entries, `first` and `rest: number`; `first` has no number when it holds no ": " |
| ContactsScreen.Load | app/src/main/java/com/example/jolt/screens/ContactsScreen.kt:22-23 | the loaded screen agrees with the store and holds only storable entries |
| ContactsScreen.RemoveFirst | app/src/main/java/com/example/jolt/screens/ContactsScreen.kt:50 | removal takes away one copy of the entry, if present, and nothing else |
| ContactsScreen.RemoveFirstShape | app/src/main/java/com/example/jolt/screens/ContactsScreen.kt:50 | only the first occurrence is removed and the rest keep their relative order |
| ContactsScreen.RemoveFirstStorable | app/src/main/java/com/example/jolt/screens/ContactsScreen.kt:50-52 | removing from a storable list keeps it storable and able to be reloaded unchanged |
| ContactsScreen.Delete | app/src/main/java/com/example/jolt/screens/ContactsScreen.kt:49-54 | Delete removes the first copy of the entry and stores the joined remaining list; when every entry is storable, that store reloads to the new list; a list without duplicates loses the entry entirely |
| ContactsScreen.DeleteKeepsOrder | app/src/main/java/com/example/jolt/screens/ContactsScreen.kt:50-52 | only the first copy of the entry goes, the entries before and after it keep their order, and the store is their join |
| ContactsScreen.Save | app/src/main/java/com/example/jolt/screens/ContactsScreen.kt:104-126 | when the name is blank or the number invalid, nothing changes and that check's reason is reported; otherwise success iff the entry is not among the remaining entries or is the entry being edited; success appends and persists; a duplicate leaves the store as it was |
| ContactsScreen.AddContact | app/src/main/java/com/example/jolt/screens/ContactsScreen.kt:107-122 | for any input, a name or number failing the checks is refused with their error; input passing them is refused with "already exists" exactly when the entry is present; a refusal leaves list and store unchanged; otherwise the entry is appended at the end |
| ContactsScreen.AddKeepsNoDuplicates | app/src/main/java/com/example/jolt/screens/ContactsScreen.kt:116-122 | adding preserves "no duplicate entries" |
| ContactsScreen.EditContact | app/src/main/java/com/example/jolt/screens/ContactsScreen.kt:113-122 | a successful edit removes the first copy of the old entry, appends the new one, and keeps the list free of duplicates |
| ContactsScreen.SaveKeepsInSync | app/src/main/java/com/example/jolt/screens/ContactsScreen.kt:119-122 | after a successful save the list and the store agree, provided every entry on screen is storable and the name holds no ", ", even when a refused edit had left them out of step |
| ContactsScreen.EditRejectionDropsOld | app/src/main/java/com/example/jolt/screens/ContactsScreen.kt:113-118 | an edit refused as a duplicate has dropped the old entry from the list while the store still has it, so the two disagree |
| FirstContact.PromptShown | app/src/main/java/com/example/jolt/screens/MainScreen.kt:34-36 | the first-contact prompt is due exactly when nothing is stored |
| FirstContact.SaveFirstContact | app/src/main/java/com/example/jolt/screens/MainScreen.kt:106-122 | a refused save leaves the store unchanged; the refusal reason is the checks' verdict; an accepted save stores the entry alone or after ", " |
| FirstContact.SaveAppendsToList | app/src/main/java/com/example/jolt/screens/MainScreen.kt:109-118 | for any input, a refused save leaves the loaded list as it was and a successful one appends the entry's ", "-pieces and dismisses the prompt; when the name holds no ", " the list is the old one plus exactly the new entry |
| EmergencySms.SendEmergencySms | app/src/main/java/com/example/jolt/screens/MainScreen.kt:238-259 | an empty list sends nothing; the texts form a prefix of the list, each the fixed message to the entry's number; the first entry with no number or failing send ends the dispatch; all are sent iff every entry has a number and is delivered |
| AccidentDialog.Next | app/src/main/java/com/example/jolt/screens/MainScreen.kt:126-190 | the permission flag never changes and the countdown stays in range; closing always closes silently; a tick fires an effect only at 0, where it expires the dialog; a text needs the permission or the grant of an outstanding request; a text from a button or a grant closes the dialog; a denial does nothing |
| AccidentDialog.AtMostOncePerOpening | app/src/main/java/com/example/jolt/screens/MainScreen.kt:132-145 | the expiry action fires at most once per opening of the dialog |
| AccidentDialog.NoOpeningWithoutAccident | app/src/main/java/com/example/jolt/screens/MainScreen.kt:126-128 | without an accident event the dialog never opens |
| AccidentDialog.NoFiringWhileClosed | app/src/main/java/com/example/jolt/screens/MainScreen.kt:126-150 | a closed dialog fires nothing until an accident reopens it |
| AccidentDialog.AutoFiringsAppend | app/src/main/java/com/example/jolt/screens/MainScreen.kt:132-145 | expiry firings over two event sequences add up |
| AccidentDialog.CountsDown | app/src/main/java/com/example/jolt/screens/MainScreen.kt:132-136 | each wait lowers the shown count by one and fires nothing |
| AccidentDialog.FullCountdown | app/src/main/java/com/example/jolt/screens/MainScreen.kt:127-145 | after opening, k waits show 15 - k for k up to 15, fire nothing and change nothing else; the wait after 0 expires the dialog and texts with permission, and otherwise asks for it, adding one outstanding request |
| AccidentDialog.CloseBeforeExpiryPreventsFiring | app/src/main/java/com/example/jolt/screens/MainScreen.kt:126-176 | closing the dialog before the wait after 0 means no automatic text until the next accident |
| AccidentDialog.NoDispatchWithoutGrant | app/src/main/java/com/example/jolt/screens/MainScreen.kt:49-57 | without the permission no text is sent unless a permission request is granted |
| AccidentDialog.SendTextWithPermission | app/src/main/java/com/example/jolt/screens/MainScreen.kt:179-187 | "Send Text" with the permission texts and closes the dialog, after which the countdown never fires |
| AccidentDialog.SendTextWithoutPermission | app/src/main/java/com/example/jolt/screens/MainScreen.kt:179-187 | "Send Text" without the permission only asks for it, adding one outstanding request; a grant then texts and closes, a denial returns the dialog to where it was |
| AccidentDialog.TwoRequestsTwoAnswers | app/src/main/java/com/example/jolt/screens/MainScreen.kt:49-57 | when "Send Text" and the expiry have both asked for the permission, denying the first request and granting the second texts the contacts once and closes the dialog |
| AccidentDialog.Volume | app/src/main/java/com/example/jolt/screens/MainScreen.kt:134 | the volume is 0.1 at 15, 1.0 at 0, and within [0.1, 1.0] in between |
| AccidentDialog.VolumeRises | app/src/main/java/com/example/jolt/screens/MainScreen.kt:132-135 | the volume never drops as the countdown runs down |

## Left out

- Accident detection itself (the sensor listener, the TensorFlow Lite model and
  its `output >= 0.5 && magnitude > 15.0` gate in `AccidentDetectionService`)
  is the uninterpreted event `AccidentDetected`. It involves float square roots
  over an opaque model.
- Login, navigation, layout and theme constants are not part of the model:
  they are Firebase calls and UI.
- `MediaPlayer`, `Toast`, `Log`, `SmsManager`, `ContextCompat` and the
  permission launcher are platform calls. Their outcomes appear only as
  effects, reports and parameters.
- `SharedPreferences` is one string cell. Writes are taken to take effect at
  once; `apply()`'s background commit is not modelled.
- Compose recomposition and coroutine cancellation appear only as their
  effect: closing the dialog stops the countdown at its current wait, and
  reopening starts from 15.
- The "Start/Stop Monitoring" buttons only start and stop the detection
  service, so they are not modelled.
- AccidentDialog.Volume: computed with reals; the source's `Float`
  arithmetic and its rounding are not modelled.
- AccidentDialog.Next: the permission flag is the value read once when the
  screen is composed, as the source keeps it. The dialog counts the permission
  requests still awaiting an answer, and a result is matched to one of them:
  the launcher answers each launch once, so a result with none outstanding
  does not occur and is ignored.
- AccidentDialog.Next: after the automatic firing the dialog stays open
  showing 0 (phase `Expired`). "Send Text" there texts again, as the source
  allows.
- PhoneNumber.IsAsciiDigit and PhoneNumber.IsRegexSpace read `\d` and `\s` as
  `java.util.regex` documents them on the JVM: `\d` is `[0-9]` and `\s` is space,
  tab, line feed, vertical tab, form feed and carriage return. Android's regex
  engine is built on ICU, where `\d` is any Unicode decimal digit and `\s` is
  Unicode white space. The model does not cover that reading. Under it, the
  number in `NonAsciiDigitsPassFilterButFail` would be accepted, and
  `ValidIff`'s "ASCII digits throughout" would become "decimal digits
  throughout".
- NumberInput.IsDigit uses the Unicode 13 table of decimal digits in the Basic
  Multilingual Plane. The device's own Unicode version may add more.
- ContactCodec.Mask counts characters as code points. Kotlin's `substring`
  counts UTF-16 units, which differ only for characters outside the Basic
  Multilingual Plane.
- PhoneNumber.PlaceholderAccepted: only the digit-only placeholder is worked as
  an example. Numbers with spaces or hyphens are covered by
  `SeparatorInsensitive` instead of a literal example.
- EmergencySms.SendEmergencySms: the failure message's text and the log line
  are not modelled.
- EmergencySms.SendEmergencySms: the whole loop sits in one `try`, so the first
  exception ends the dispatch and the later contacts are not texted. The model
  keeps that behaviour: there is no per-contact outcome list.

/** The "Accident Detected" dialog of the main screen. While it is open a
    launched effect runs `for (i in 15 downTo 0)`: show `i`, set the alarm
    volume, wait one second, and after the wait of `i == 0` stop the alarm
    and either text the contacts or ask for the SMS permission. Closing the
    dialog removes the effect, which cancels the loop at its wait. The
    one-second waits are `Tick` events; the SMS dispatch and the permission
    request are effects handed to the platform. */
module AccidentDialog {

  const CountdownStart: nat := 15

  datatype Phase =
    | Closed                    // `showDialog` is false: no dialog, no loop
    | Counting(remaining: nat)  // loop iteration `i == remaining`, waiting out its second; the alarm plays
    | Expired                   // the loop has finished; the dialog stays open showing 0

  /** The dialog together with the two facts that steer it: the SMS
      permission as read once when the screen was composed (the remembered
      flag is never refreshed), and how many permission requests launched
      from this screen still await their answer. The launcher answers each
      launch once, so several requests can be outstanding at a time. */
  datatype Dialog = Dialog(phase: Phase, hasPermission: bool, pendingRequests: nat)

  datatype Event =
    | AccidentDetected                // `showDialog.value = true`
    | Tick                            // the current iteration's `delay(1000L)` returns
    | Close                           // "Cancel Text", or dismissing the dialog
    | SendText                        // the "Send Text" button
    | PermissionResult(granted: bool) // the SEND_SMS launcher's callback

  datatype Effect = NoEffect | DispatchSms | RequestPermission

  datatype Transition = Transition(next: Dialog, effect: Effect)

  /** The countdown never shows more than its start value. */
  predicate Valid(d: Dialog) {
    d.phase.Counting? ==> d.phase.remaining <= CountdownStart
  }

  /** One event. */
  function Next(d: Dialog, e: Event): (t: Transition)
    ensures t.next.hasPermission == d.hasPermission
    ensures Valid(d) ==> Valid(t.next)
    ensures e == Close ==> t.next.phase == Closed && t.effect == NoEffect
    ensures e == Tick && t.effect != NoEffect ==> d.phase == Counting(0) && t.next.phase == Expired
    ensures t.effect == DispatchSms ==>
      d.hasPermission || (e == PermissionResult(true) && d.pendingRequests > 0)
    ensures t.effect == DispatchSms && e != Tick ==> t.next.phase == Closed
    ensures e == PermissionResult(false) ==> t.effect == NoEffect
    ensures d.phase != Closed && e == AccidentDetected ==> t == Transition(d, NoEffect)
  {
    match e
    case AccidentDetected =>
      if d.phase == Closed then Transition(d.(phase := Counting(CountdownStart)), NoEffect)
      else Transition(d, NoEffect)
    case Tick =>
      if !d.phase.Counting? then Transition(d, NoEffect)
      else if d.phase.remaining > 0 then Transition(d.(phase := Counting(d.phase.remaining - 1)), NoEffect)
      else if d.hasPermission then Transition(d.(phase := Expired), DispatchSms)
      else Transition(d.(phase := Expired, pendingRequests := d.pendingRequests + 1), RequestPermission)
    case Close =>
      Transition(d.(phase := Closed), NoEffect)
    case SendText =>
      if d.phase == Closed then Transition(d, NoEffect)
      else if d.hasPermission then Transition(d.(phase := Closed), DispatchSms)
      else Transition(d.(pendingRequests := d.pendingRequests + 1), RequestPermission)
    case PermissionResult(granted) =>
      if d.pendingRequests == 0 then Transition(d, NoEffect)
      else if granted then Transition(d.(phase := Closed, pendingRequests := d.pendingRequests - 1), DispatchSms)
      else Transition(d.(pendingRequests := d.pendingRequests - 1), NoEffect)
  }

  /** The state after a sequence of events. */
  function Final(d: Dialog, evs: seq<Event>): Dialog
    decreases |evs|
  {
    if |evs| == 0 then d else Final(Next(d, evs[0]).next, evs[1..])
  }

  /** How many events were ticks that fired the loop's expiry action. */
  function AutoFirings(d: Dialog, evs: seq<Event>): nat
    decreases |evs|
  {
    if |evs| == 0 then 0
    else
      (if evs[0] == Tick && Next(d, Tick).effect != NoEffect then 1 else 0)
      + AutoFirings(Next(d, evs[0]).next, evs[1..])
  }

  /** How many accident events opened a closed dialog. */
  function Openings(d: Dialog, evs: seq<Event>): nat
    decreases |evs|
  {
    if |evs| == 0 then 0
    else
      (if evs[0] == AccidentDetected && d.phase == Closed then 1 else 0)
      + Openings(Next(d, evs[0]).next, evs[1..])
  }

  /** How many events texted the contacts, by any route. */
  function Dispatches(d: Dialog, evs: seq<Event>): nat
    decreases |evs|
  {
    if |evs| == 0 then 0
    else
      (if Next(d, evs[0]).effect == DispatchSms then 1 else 0)
      + Dispatches(Next(d, evs[0]).next, evs[1..])
  }

  /** `k` one-second waits in a row. */
  function Ticks(k: nat): seq<Event>
  {
    if k == 0 then [] else [Tick] + Ticks(k - 1)
  }

  /** A loop still waiting can fire once more. */
  function Armed(d: Dialog): nat {
    if d.phase.Counting? then 1 else 0
  }

  /** The loop's expiry action fires at most once per opening of the
      dialog: every firing uses up the countdown, and only opening a closed
      dialog starts a new one. */
  lemma {:induction false} AtMostOncePerOpening(d: Dialog, evs: seq<Event>)
    ensures AutoFirings(d, evs) <= Armed(d) + Openings(d, evs)
    decreases |evs|
  {
    if |evs| > 0 {
      AtMostOncePerOpening(Next(d, evs[0]).next, evs[1..]);
    }
  }

  /** Without an accident event nothing opens the dialog. */
  lemma {:induction false} NoOpeningWithoutAccident(d: Dialog, evs: seq<Event>)
    requires AccidentDetected !in evs
    ensures Openings(d, evs) == 0
    decreases |evs|
  {
    if |evs| > 0 {
      assert evs[0] != AccidentDetected;
      NoOpeningWithoutAccident(Next(d, evs[0]).next, evs[1..]);
    }
  }

  /** A closed dialog fires nothing on its own until an accident reopens it. */
  lemma NoFiringWhileClosed(d: Dialog, evs: seq<Event>)
    requires d.phase == Closed && AccidentDetected !in evs
    ensures AutoFirings(d, evs) == 0
  {
    AtMostOncePerOpening(d, evs);
    NoOpeningWithoutAccident(d, evs);
  }

  /** Firings over a sequence split at any point. */
  lemma {:induction false} AutoFiringsAppend(d: Dialog, a: seq<Event>, b: seq<Event>)
    ensures AutoFirings(d, a + b) == AutoFirings(d, a) + AutoFirings(Final(d, a), b)
    decreases |a|
  {
    if |a| == 0 {
      assert a + b == b;
    } else {
      assert (a + b)[0] == a[0] && (a + b)[1..] == a[1..] + b;
      AutoFiringsAppend(Next(d, a[0]).next, a[1..], b);
    }
  }

  /** The countdown steps down one per second: `k` waits from `i` show
      `i - k` and fire nothing. */
  lemma {:induction false} CountsDown(d: Dialog, k: nat)
    requires d.phase.Counting? && k <= d.phase.remaining
    ensures Final(d, Ticks(k)) == d.(phase := Counting(d.phase.remaining - k))
    ensures AutoFirings(d, Ticks(k)) == 0
    decreases k
  {
    if k > 0 {
      var d' := Next(d, Tick).next;
      assert d' == d.(phase := Counting(d.phase.remaining - 1));
      assert Ticks(k)[0] == Tick && Ticks(k)[1..] == Ticks(k - 1);
      CountsDown(d', k - 1);
    }
  }

  /** Opening the dialog shows 15, 14, ..., 0, one value per second, and the
      expiry action comes only with the wait that follows 0: a text when
      permission was held, a permission request otherwise. */
  lemma FullCountdown(d: Dialog, k: nat)
    requires d.phase == Closed && k <= CountdownStart
    ensures Final(Next(d, AccidentDetected).next, Ticks(k)) == d.(phase := Counting(CountdownStart - k))
    ensures AutoFirings(Next(d, AccidentDetected).next, Ticks(k)) == 0
    ensures k == CountdownStart ==>
      Next(Final(Next(d, AccidentDetected).next, Ticks(k)), Tick) ==
        if d.hasPermission then Transition(d.(phase := Expired), DispatchSms)
        else Transition(d.(phase := Expired, pendingRequests := d.pendingRequests + 1), RequestPermission)
  {
    var started := Next(d, AccidentDetected).next;
    CountsDown(started, k);
  }

  /** Closing the dialog before the wait after 0 has passed means no
      automatic text: after an opening, `k <= 15` waits and a close, no
      later events fire anything until the next accident. */
  lemma CloseBeforeExpiryPreventsFiring(d: Dialog, k: nat, later: seq<Event>)
    requires d.phase == Closed && k <= CountdownStart
    requires AccidentDetected !in later
    ensures AutoFirings(d, [AccidentDetected] + Ticks(k) + [Close] + later) == 0
  {
    var started := Next(d, AccidentDetected).next;
    CountsDown(started, k);
    var counted := Final(started, Ticks(k));
    var closed := Next(counted, Close).next;
    NoFiringWhileClosed(closed, later);
    AutoFiringsAppend(started, Ticks(k), [Close] + later);
    assert ([AccidentDetected] + Ticks(k) + [Close] + later)[1..] == Ticks(k) + ([Close] + later);
    assert ([Close] + later)[1..] == later;
  }

  /** Without the permission no event but a granted request texts anyone:
      "Send Text" and the expiry only ask for it, and a denial sends nothing. */
  lemma {:induction false} NoDispatchWithoutGrant(d: Dialog, evs: seq<Event>)
    requires !d.hasPermission && PermissionResult(true) !in evs
    ensures Dispatches(d, evs) == 0
    decreases |evs|
  {
    if |evs| > 0 {
      assert evs[0] != PermissionResult(true);
      NoDispatchWithoutGrant(Next(d, evs[0]).next, evs[1..]);
    }
  }

  /** "Send Text" with the permission texts once and closes the dialog,
      which ends the countdown: no later event fires the loop until the
      next accident. */
  lemma SendTextWithPermission(d: Dialog, later: seq<Event>)
    requires d.phase != Closed && d.hasPermission
    requires AccidentDetected !in later
    ensures Next(d, SendText).effect == DispatchSms
    ensures Next(d, SendText).next.phase == Closed
    ensures AutoFirings(d, [SendText] + later) == 0
  {
    NoFiringWhileClosed(Next(d, SendText).next, later);
    assert ([SendText] + later)[1..] == later;
  }

  /** "Send Text" without the permission only asks for it, and the dialog
      and countdown carry on. A grant then texts once and closes the
      dialog; a denial texts nobody and leaves the dialog as it was. */
  lemma SendTextWithoutPermission(d: Dialog)
    requires d.phase != Closed && !d.hasPermission
    ensures var asked := Next(d, SendText);
      && asked.effect == RequestPermission
      && asked.next.phase == d.phase
      && asked.next.pendingRequests == d.pendingRequests + 1
      && Next(asked.next, PermissionResult(true)) ==
           Transition(Dialog(Closed, false, d.pendingRequests), DispatchSms)
      && Next(asked.next, PermissionResult(false)) ==
           Transition(d, NoEffect)
  {
  }

  /** Every launched request gets its own answer: after "Send Text" and the
      expiry have both asked, a denial of the first request does not swallow
      the grant of the second, which texts the contacts once. */
  lemma TwoRequestsTwoAnswers()
    ensures Dispatches(Dialog(Counting(1), false, 0),
      [SendText, Tick, Tick, PermissionResult(false), PermissionResult(true)]) == 1
    ensures Final(Dialog(Counting(1), false, 0),
      [SendText, Tick, Tick, PermissionResult(false), PermissionResult(true)]) == Dialog(Closed, false, 0)
  {
  }

  /** The alarm volume set for iteration `i`: 0.1 + 0.9 * (1 - i / 15). */
  function Volume(i: nat): (v: real)
    ensures i <= CountdownStart ==> 0.1 <= v <= 1.0
    ensures i == CountdownStart ==> v == 0.1
    ensures i == 0 ==> v == 1.0
  {
    0.1 + 0.9 * (1.0 - i as real / 15.0)
  }

  /** The alarm never gets quieter as the countdown runs down. */
  lemma VolumeRises(i: nat, j: nat)
    requires i <= j
    ensures Volume(j) <= Volume(i)
  {
  }
}

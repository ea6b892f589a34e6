/** `sendEmergencySMS`: reload the list from the store and text the fixed
    message to each entry's number in list order. The SMS transport is a
    parameter: `delivers(k)` says whether the k-th `sendTextMessage` call
    returns normally. The whole loop sits in one `try`, so the first
    exception, whether from the transport or from reading the number of an
    entry with no ": ", ends the dispatch. */
module EmergencySms {
  import opened Wrappers
  import opened ContactCodec

  const Message := "Emergency message: I may have been in an accident. Please help!"

  /** One text handed to the transport. */
  datatype Sms = Sms(to: string, body: string)

  /** How a dispatch ended, with the texts handed over before it ended:
      the "No emergency contacts set" toast, the "Emergency SMS sent" toast,
      or the "Failed to send SMS" toast. */
  datatype Report = NoContactsSet | AllSent(sent: seq<Sms>) | Failed(sent: seq<Sms>)

  /** The texts handed over, empty when there were no contacts. */
  function Sent(r: Report): seq<Sms> {
    if r.NoContactsSet? then [] else r.sent
  }

  method SendEmergencySms(stored: string, delivers: nat -> bool) returns (report: Report)
    ensures report == NoContactsSet <==> Parse(stored) == []
    ensures var contacts, sent := Parse(stored), Sent(report);
      && |sent| <= |contacts|
      && forall k :: 0 <= k < |sent| ==>
           NumberOf(contacts[k]) == Some(sent[k].to) && sent[k].body == Message && delivers(k)
    ensures report.AllSent? ==> |report.sent| == |Parse(stored)|
    ensures report.Failed? ==>
      var k := |report.sent|;
      k < |Parse(stored)| && (NumberOf(Parse(stored)[k]).None? || !delivers(k))
    ensures report.AllSent? <==>
      Parse(stored) != [] &&
      forall k :: 0 <= k < |Parse(stored)| ==> NumberOf(Parse(stored)[k]).Some? && delivers(k)
  {
    var contacts := Parse(stored);
    if |contacts| == 0 {
      return NoContactsSet;
    }
    var sent: seq<Sms> := [];
    var i := 0;
    while i < |contacts|
      invariant 0 <= i <= |contacts|
      invariant |sent| == i
      invariant forall k :: 0 <= k < i ==>
        NumberOf(contacts[k]) == Some(sent[k].to) && sent[k].body == Message && delivers(k)
    {
      match NumberOf(contacts[i]) {
        case None =>
          return Failed(sent);
        case Some(number) =>
          if !delivers(i) {
            return Failed(sent);
          }
          sent := sent + [Sms(number, Message)];
      }
      i := i + 1;
    }
    return AllSent(sent);
  }
}

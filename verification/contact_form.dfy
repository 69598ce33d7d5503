/**
 The contact form of JS/torres-contact-form.js: the form-encoded request sent
 to the Web3Forms endpoint, the validation of the three fields, the submit
 button's busy state, the status line and its timed clearing. Time is an
 explicit millisecond clock passed to every event; the request itself is left
 to the caller, who reports how it settled.
 */
module ContactForm {
  import opened Strings

  const RecipientEmail := "aivahnt@gmail.com"
  const AccessKey := "5c6e8329-445b-4d50-b0df-dfa18d7d3c52"
  const FromName := "Aivahn Torres Portfolio"
  const ClearDelay := 5000

  const MissingFieldsMessage := "Please fill in all fields."
  const SendingText := "Sending..."
  const SuccessMessage := "Message sent successfully! I'll get back to you soon."
  const RejectedMessage := "Failed to send message. Please try again."
  const UnreachableMessage := "Failed to send message. Please try again or email me directly at " + RecipientEmail
  const BaseClass := "form-status-message"

  /** The three inputs, as typed. */
  datatype Fields = Fields(name: string, email: string, message: string)

  /** What `form.reset()` brings the inputs back to. */
  const EmptyFields := Fields("", "", "")

  /** One `formData.append(key, value)`. */
  datatype FormField = FormField(key: string, value: string)

  /**
   The request body, in append order: the raw (untrimmed) inputs, a subject
   naming the sender, and the fixed key, sender name and `redirect` flag.
   */
  function RequestBody(f: Fields): (body: seq<FormField>)
    ensures |body| == 7
    ensures body[0] == FormField("access_key", AccessKey)
    ensures body[1] == FormField("name", f.name) && body[2] == FormField("email", f.email)
    ensures body[3] == FormField("message", f.message)
    ensures body[4].key == "subject" && body[4].value == "New Contact Form Message from " + f.name
    ensures body[5] == FormField("from_name", FromName) && body[6] == FormField("redirect", "false")
  {
    [ FormField("access_key", AccessKey),
      FormField("name", f.name),
      FormField("email", f.email),
      FormField("message", f.message),
      FormField("subject", "New Contact Form Message from " + f.name),
      FormField("from_name", FromName),
      FormField("redirect", "false") ]
  }

  /** The validation: every field must have something besides whitespace. */
  predicate AllFilled(f: Fields) {
    Trim(f.name) != "" && Trim(f.email) != "" && Trim(f.message) != ""
  }

  /** A form is refused exactly when some field is empty or only whitespace. */
  lemma AllFilledIffNoneBlank(f: Fields)
    ensures AllFilled(f) <==> !AllWhitespace(f.name) && !AllWhitespace(f.email) && !AllWhitespace(f.message)
  {
    TrimEmptyIffBlank(f.name);
    TrimEmptyIffBlank(f.email);
    TrimEmptyIffBlank(f.message);
  }

  datatype StatusKind = Success | Error

  function KindName(k: StatusKind): string {
    match k
    case Success => "success"
    case Error => "error"
  }

  /** The status line: its text and its `className`. */
  datatype Status = Status(text: string, className: string)

  const ClearedStatus := Status("", BaseClass)

  function StatusClass(k: StatusKind): (c: string)
    ensures c == BaseClass + " form-status-" + KindName(k)
  {
    BaseClass + " form-status-" + KindName(k)
  }

  datatype Button = Button(disabled: bool, text: string)

  /**
   Everything on the page the handler touches; `clears` holds the deadlines of
   the clearing timers that have been scheduled and have not fired yet.
   */
  datatype Page = Page(fields: Fields, button: Button, status: Status, clears: seq<nat>)

  /** The pending deadlines that are still in the future at `now`. */
  function Pending(clears: seq<nat>, now: nat): (r: seq<nat>)
    ensures forall d :: d in r <==> d in clears && d > now
    ensures |r| <= |clears|
  {
    if |clears| == 0 then []
    else (if clears[0] > now then [clears[0]] else []) + Pending(clears[1..], now)
  }

  predicate SomeDue(clears: seq<nat>, now: nat) {
    exists d :: d in clears && d <= now
  }

  /**
   The clock reaching `now`: every timer due by then fires, and a firing timer
   empties the status line and drops its type class.
   */
  function Tick(p: Page, now: nat): (p': Page)
    ensures SomeDue(p.clears, now) ==> p'.status == ClearedStatus
    ensures !SomeDue(p.clears, now) ==> p'.status == p.status
    ensures forall d :: d in p'.clears <==> d in p.clears && d > now
    ensures p'.fields == p.fields && p'.button == p.button
  {
    p.(status := if SomeDue(p.clears, now) then ClearedStatus else p.status,
       clears := Pending(p.clears, now))
  }

  /**
   `showStatus` as written: it shows the message, and a success message
   schedules one more clearing timer without cancelling those already pending.
   */
  function ShowStatusAsWritten(p: Page, message: string, kind: StatusKind, now: nat): (p': Page)
    ensures p'.status == Status(message, StatusClass(kind))
    ensures kind == Success ==> p'.clears == p.clears + [now + ClearDelay]
    ensures kind == Error ==> p'.clears == p.clears
    ensures p'.fields == p.fields && p'.button == p.button
  {
    p.(status := Status(message, StatusClass(kind)),
       clears := if kind == Success then p.clears + [now + ClearDelay] else p.clears)
  }

  /**
   A success message followed, within the delay, by the validation error (the
   fields are empty after the reset, so submitting again at once gives it):
   the first message's timer wipes the error after 4 of its 5 seconds, and
   after the error had been shown for 4 seconds only.
   */
  lemma StaleTimerClearsError(p: Page)
    requires p.clears == []
    ensures var shown := ShowStatusAsWritten(p, SuccessMessage, Success, 0);
            var refused := ShowStatusAsWritten(shown, MissingFieldsMessage, Error, 1000);
            && Tick(refused, 4999).status == Status(MissingFieldsMessage, StatusClass(Error))
            && Tick(Tick(refused, 4999), 5000).status == ClearedStatus
  {
    var shown := ShowStatusAsWritten(p, SuccessMessage, Success, 0);
    var refused := ShowStatusAsWritten(shown, MissingFieldsMessage, Error, 1000);
    assert refused.clears == [5000];
    assert !SomeDue(refused.clears, 4999);
    assert Tick(refused, 4999).clears == [5000];
    assert 5000 in Tick(refused, 4999).clears;
  }

  /**
   `showStatus` as the auto-clear is meant to work: showing any message cancels
   the clearing timers still pending, and a success message schedules its own.
   */
  function ShowStatus(p: Page, message: string, kind: StatusKind, now: nat): (p': Page)
    ensures p'.status == Status(message, StatusClass(kind))
    ensures kind == Success ==> p'.clears == [now + ClearDelay]
    ensures kind == Error ==> p'.clears == []
    ensures p'.fields == p.fields && p'.button == p.button
  {
    p.(status := Status(message, StatusClass(kind)),
       clears := if kind == Success then [now + ClearDelay] else [])
  }

  /**
   With cancellation, a message stays until the next one: an error is never
   cleared by the clock, and a success message is cleared exactly once its own
   five seconds have passed.
   */
  lemma MessageLastsItsTime(p: Page, message: string, kind: StatusKind, now: nat, later: nat)
    requires later >= now
    ensures var q := Tick(ShowStatus(p, message, kind, now), later);
            && (kind == Error ==> q.status == Status(message, StatusClass(Error)))
            && (kind == Success ==> (q.status == ClearedStatus <==> later >= now + ClearDelay))
            && (kind == Success && later < now + ClearDelay ==> q.status == Status(message, StatusClass(Success)))
  {
    var shown := ShowStatus(p, message, kind, now);
    if kind == Success {
      assert now + ClearDelay in shown.clears;
      assert Status(message, StatusClass(Success)) != ClearedStatus by {
        assert |StatusClass(Success)| != |BaseClass|;
      }
    }
  }

  /**
   Which `showStatus` the handler calls: the one of the script, which leaves
   earlier clearing timers running, or the corrected one, which cancels them.
   */
  datatype TimerPolicy = KeepsPending | CancelsPending

  function Show(policy: TimerPolicy, p: Page, message: string, kind: StatusKind, now: nat): (p': Page)
    ensures policy == KeepsPending ==> p' == ShowStatusAsWritten(p, message, kind, now)
    ensures policy == CancelsPending ==> p' == ShowStatus(p, message, kind, now)
  {
    match policy
    case KeepsPending => ShowStatusAsWritten(p, message, kind, now)
    case CancelsPending => ShowStatus(p, message, kind, now)
  }

  /** What a submit event leads to. */
  datatype Submission =
    | Refused(page: Page)                                         // validation failed, nothing sent
    | Sending(page: Page, body: seq<FormField>, originalText: string)  // request on its way

  /**
   `handleContactFormSubmit` up to the request: refuse a form with a blank
   field, otherwise disable the button, show the busy text and empty the status
   text (keeping its class and any pending timer).
   */
  function Submit(p: Page, now: nat, policy: TimerPolicy): (s: Submission)
    ensures s.Refused? <==> !AllFilled(p.fields)
    ensures s.Refused? ==> s.page.status == Status(MissingFieldsMessage, StatusClass(Error))
    ensures s.Refused? ==> s.page.fields == p.fields && s.page.button == p.button
    ensures s.Refused? && policy == KeepsPending ==> s.page.clears == p.clears
    ensures s.Refused? && policy == CancelsPending ==> s.page.clears == []
    ensures s.Sending? ==> s.body == RequestBody(p.fields) && s.originalText == p.button.text
    ensures s.Sending? ==> s.page.button == Button(true, SendingText)
    ensures s.Sending? ==> s.page.status == Status("", p.status.className)
    ensures s.Sending? ==> s.page.fields == p.fields && s.page.clears == p.clears
  {
    if !AllFilled(p.fields) then Refused(Show(policy, p, MissingFieldsMessage, Error, now))
    else Sending(p.(button := Button(true, SendingText), status := p.status.(text := "")),
                 RequestBody(p.fields), p.button.text)
  }

  /** How the request settled: a JSON reply with its `success` flag, or a thrown error. */
  datatype Outcome = Responded(success: bool) | Threw

  /**
   The rest of the handler: the message for the outcome, a reset form only on
   success, and in every case (the `finally`) the button enabled again with
   the text it had before. Only a success schedules a clearing timer; as
   written, timers already pending keep running.
   */
  function Settle(p: Page, originalText: string, outcome: Outcome, now: nat, policy: TimerPolicy): (p': Page)
    ensures p'.button == Button(false, originalText)
    ensures outcome == Responded(true) ==> p'.status == Status(SuccessMessage, StatusClass(Success))
    ensures outcome == Responded(false) ==> p'.status == Status(RejectedMessage, StatusClass(Error))
    ensures outcome == Threw ==> p'.status == Status(UnreachableMessage, StatusClass(Error))
    ensures outcome == Responded(true) ==> p'.fields == EmptyFields
    ensures outcome != Responded(true) ==> p'.fields == p.fields
    ensures policy == KeepsPending ==>
              p'.clears == p.clears + (if outcome == Responded(true) then [now + ClearDelay] else [])
    ensures policy == CancelsPending ==>
              p'.clears == (if outcome == Responded(true) then [now + ClearDelay] else [])
  {
    var shown := match outcome
      case Responded(true) => Show(policy, p, SuccessMessage, Success, now).(fields := EmptyFields)
      case Responded(false) => Show(policy, p, RejectedMessage, Error, now)
      case Threw => Show(policy, p, UnreachableMessage, Error, now);
    shown.(button := Button(false, originalText))
  }

  /** Submitting from an idle page and settling gives the button back exactly as it was. */
  lemma SubmitSettleRestoresButton(p: Page, now: nat, outcome: Outcome, later: nat, policy: TimerPolicy)
    requires !p.button.disabled
    requires AllFilled(p.fields)
    ensures var s := Submit(p, now, policy);
            s.Sending? && Settle(s.page, s.originalText, outcome, later, policy).button == p.button
  {
  }

  /** After a successful send the form is empty, so an immediate resubmission is refused. */
  lemma ResubmitAfterSuccessRefused(p: Page, originalText: string, now: nat, later: nat, policy: TimerPolicy)
    ensures Submit(Settle(p, originalText, Responded(true), now, policy), later, policy).Refused?
  {
    TrimEmptyIffBlank("");
  }

  /**
   The stale timer through the handler as written: a send succeeds at 0 ms and
   the emptied form is submitted again at 1000 ms; the refusal is on screen at
   4999 ms and gone at 5000 ms, wiped by the success message's timer.
   */
  lemma HandlerStaleTimerClearsError(p: Page, originalText: string)
    requires p.clears == []
    ensures var sent := Settle(p, originalText, Responded(true), 0, KeepsPending);
            var again := Submit(sent, 1000, KeepsPending);
            && again.Refused?
            && Tick(again.page, 4999).status == Status(MissingFieldsMessage, StatusClass(Error))
            && Tick(Tick(again.page, 4999), 5000).status == ClearedStatus
  {
    var sent := Settle(p, originalText, Responded(true), 0, KeepsPending);
    TrimEmptyIffBlank("");
    var again := Submit(sent, 1000, KeepsPending);
    assert again.page.clears == [5000];
    assert !SomeDue(again.page.clears, 4999);
    assert Tick(again.page, 4999).clears == [5000];
    assert 5000 in Tick(again.page, 4999).clears;
  }

  /** The same sequence with cancelling timers: the refusal stays on screen for good. */
  lemma HandlerErrorStays(p: Page, originalText: string, later: nat)
    requires later >= 1000
    ensures var sent := Settle(p, originalText, Responded(true), 0, CancelsPending);
            var again := Submit(sent, 1000, CancelsPending);
            && again.Refused?
            && Tick(again.page, later).status == Status(MissingFieldsMessage, StatusClass(Error))
  {
    TrimEmptyIffBlank("");
  }

  /** The status and its timers agree: at most one clear is pending, and only behind a success class. */
  predicate TimersAgree(p: Page) {
    |p.clears| <= 1 && (|p.clears| == 1 ==> p.status.className == StatusClass(Success))
  }

  /** With cancelling timers every event keeps at most one clear pending, and only behind a success class. */
  lemma TimersAgreePreserved(p: Page, now: nat, originalText: string, outcome: Outcome)
    requires TimersAgree(p)
    ensures TimersAgree(Tick(p, now))
    ensures TimersAgree(Submit(p, now, CancelsPending).page)
    ensures TimersAgree(Settle(p, originalText, outcome, now, CancelsPending))
  {
    if |p.clears| == 1 {
      var q := Tick(p, now);
      if p.clears[0] > now {
        assert p.clears[0] in q.clears;
        assert !SomeDue(p.clears, now);
      }
    }
  }

  /** As written, two successful sends 2 s apart leave two clears pending behind one status line. */
  lemma TwoSuccessesTwoTimers(p: Page, text: string)
    requires p.clears == []
    ensures var first := Settle(p, text, Responded(true), 0, KeepsPending);
            var second := Settle(first, text, Responded(true), 2000, KeepsPending);
            && TimersAgree(first)
            && second.clears == [5000, 7000]
            && !TimersAgree(second)
  {
  }
}

/** The newsletter subscription form: a client-side rate limit of one successful
    submission per minute (the time of the last success is kept in `localStorage`
    under `newsletter_last_submit`), a status message container and a submit button
    that is disabled while the request is in flight. The network request itself is
    outside the model: it is issued by `Submit` and its outcome arrives in `Complete`. */
module Newsletter {
  import opened Wrappers
  import JsBuiltins

  /** Minimum time between submissions, in milliseconds. */
  const RateLimitMs := 60000

  const BaseClass := "newsletter-message"
  const VisibleClass := "is-visible"
  const SubscribingText := "Subscribing..."
  const SuccessText := "Thanks! Check your email to confirm."
  const FailureText := "Something went wrong. Please try again."

  datatype MessageType = Success | Error

  function TypeName(t: MessageType): string {
    match t
    case Success => "success"
    case Error => "error"
  }

  /** The class list `showMessage` leaves on the container. */
  function ShownClasses(t: MessageType): seq<string> {
    [BaseClass, BaseClass + "-" + TypeName(t), VisibleClass]
  }

  /** `Math.ceil((RATE_LIMIT_MS - elapsed) / 1000)`: the whole seconds left in the
      window, rounded up; between 1 and 60 when the elapsed time is not negative. */
  function RemainingSeconds(elapsed: int): (s: int)
    requires elapsed < RateLimitMs
    ensures (s - 1) * 1000 < RateLimitMs - elapsed <= s * 1000
    ensures 1 <= s
    ensures 0 <= elapsed ==> s <= 60
  {
    (RateLimitMs - elapsed + 999) / 1000
  }

  const WaitPrefix := "Please wait "
  const WaitSuffix := " seconds before submitting again."

  /** The text shown when a submission comes too early. */
  function WaitText(seconds: int): string {
    WaitPrefix + JsBuiltins.IntToString(seconds) + WaitSuffix
  }

  /** Splitting a concatenation where its first part ends. */
  lemma SplitAfterPrefix(prefix: string, rest: string)
    ensures (prefix + rest)[..|prefix|] == prefix && (prefix + rest)[|prefix|..] == rest
  {
  }

  /** The wait message starts with its fixed prefix, and the number right after it
      reads back as the number of seconds. */
  lemma WaitTextNamesSeconds(seconds: int)
    ensures WaitText(seconds)[..|WaitPrefix|] == WaitPrefix
    ensures JsBuiltins.ParseInt(WaitText(seconds)[|WaitPrefix|..]) == Some(seconds)
  {
    var digits := JsBuiltins.IntToString(seconds);
    SplitAfterPrefix(WaitPrefix, digits + WaitSuffix);
    assert WaitText(seconds) == WaitPrefix + (digits + WaitSuffix);
    assert WaitSuffix[0] == ' ';
    JsBuiltins.ParseIntToString(seconds, WaitSuffix);
  }

  datatype RateDecision = Proceed | Wait(seconds: int)

  /** The rate-limit check of the submit handler. A missing or empty stored value,
      or one that `parseInt` reads as NaN, imposes no limit (a comparison with NaN is
      false); otherwise the submission waits while less than a minute has passed. */
  function CheckRateLimit(lastSubmit: Option<string>, now: int): (d: RateDecision)
    ensures lastSubmit.None? || lastSubmit == Some("") ==> d == Proceed
    ensures lastSubmit.Some? && JsBuiltins.ParseInt(lastSubmit.value).None? ==> d == Proceed
    ensures d.Wait? ==> 1 <= d.seconds
    ensures d.Wait? <==>
              && lastSubmit.Some? && JsBuiltins.ParseInt(lastSubmit.value).Some?
              && now - JsBuiltins.ParseInt(lastSubmit.value).value < RateLimitMs
    ensures d.Wait? ==>
              d.seconds == RemainingSeconds(now - JsBuiltins.ParseInt(lastSubmit.value).value)
  {
    if lastSubmit.Some? && lastSubmit.value != "" then
      match JsBuiltins.ParseInt(lastSubmit.value)
      case Some(last) =>
        var elapsed := now - last;
        if elapsed < RateLimitMs then Wait(RemainingSeconds(elapsed)) else Proceed
      case None => Proceed
    else Proceed
  }

  /** After a successful submission at time `t`, a submission at time `now` waits
      exactly when it comes less than a minute later, and is told to wait between
      1 and 60 seconds when the clock has not gone backwards. */
  lemma RateLimitAfterSuccess(t: int, now: int)
    ensures CheckRateLimit(Some(JsBuiltins.IntToString(t)), now).Wait? <==> now - t < RateLimitMs
    ensures t <= now < t + RateLimitMs ==>
              CheckRateLimit(Some(JsBuiltins.IntToString(t)), now) == Wait(RemainingSeconds(now - t))
              && RemainingSeconds(now - t) <= 60
  {
    JsBuiltins.ParseIntToString(t, "");
    assert JsBuiltins.IntToString(t) + "" == JsBuiltins.IntToString(t);
  }

  /** A submission the fetch of which has not settled yet: the time read before it
      and the button text to restore afterwards. */
  datatype Request = Request(sentAt: int, originalButtonText: string)

  class NewsletterForm {
    /** `localStorage.getItem('newsletter_last_submit')`. */
    var lastSubmit: Option<string>
    /** The message container's `textContent` and class list. */
    var messageText: string
    var messageClasses: seq<string>
    /** The submit button's `disabled` flag and `value`. */
    var buttonDisabled: bool
    var buttonValue: string
    /** The request in flight, if any. */
    var pending: Option<Request>
    /** How many subscription requests have been sent. */
    var requestsSent: nat

    /** The button is disabled, and says so, exactly while a request is in flight;
        the message is either hidden and empty or shown with its type's classes. */
    ghost predicate Valid()
      reads this
    {
      && (buttonDisabled <==> pending.Some?)
      && (pending.Some? ==> buttonValue == SubscribingText)
      && (|| (messageClasses == [BaseClass] && messageText == "")
          || (messageClasses in {ShownClasses(Success), ShownClasses(Error)} && messageText != ""))
    }

    /** The form is set up with a freshly created, hidden message container. */
    constructor (storedLastSubmit: Option<string>, buttonText: string)
      ensures Valid()
      ensures lastSubmit == storedLastSubmit && buttonValue == buttonText
      ensures !buttonDisabled && pending == None && requestsSent == 0
      ensures messageText == "" && messageClasses == [BaseClass]
    {
      lastSubmit := storedLastSubmit;
      messageText := "";
      messageClasses := [BaseClass];
      buttonDisabled := false;
      buttonValue := buttonText;
      pending := None;
      requestsSent := 0;
    }

    /** `showMessage(text, type)`: set the text, the type-specific class and `is-visible`. */
    method ShowMessage(text: string, t: MessageType)
      modifies this`messageText, this`messageClasses
      ensures messageText == text && messageClasses == ShownClasses(t)
      ensures VisibleClass in messageClasses
    {
      messageText := text;
      messageClasses := [BaseClass, BaseClass + "-" + TypeName(t)];
      messageClasses := messageClasses + [VisibleClass];
    }

    /** `hideMessage()`: drop `is-visible`, clear the text, reset the class name. */
    method HideMessage()
      modifies this`messageText, this`messageClasses
      ensures messageText == "" && messageClasses == [BaseClass]
      ensures VisibleClass !in messageClasses
    {
      messageClasses := JsBuiltins.Filter(messageClasses, (c: string) => c != VisibleClass);
      messageText := "";
      messageClasses := [BaseClass];
    }

    /** The synchronous part of the submit handler: hide the message, apply the
        rate limit, and otherwise disable the button and send the request. The
        browser only submits while the submit button is enabled. */
    method Submit(now: int) returns (sent: bool)
      requires Valid() && !buttonDisabled
      modifies this
      ensures Valid()
      ensures sent <==> CheckRateLimit(old(lastSubmit), now) == Proceed
      ensures lastSubmit == old(lastSubmit)
      ensures requestsSent == old(requestsSent) + (if sent then 1 else 0)
      ensures !sent ==>
                && pending == None && !buttonDisabled && buttonValue == old(buttonValue)
                && messageText == WaitText(CheckRateLimit(old(lastSubmit), now).seconds)
                && messageClasses == ShownClasses(Error)
      ensures sent ==>
                && pending == Some(Request(now, old(buttonValue)))
                && buttonDisabled && buttonValue == SubscribingText
                && messageText == "" && messageClasses == [BaseClass]
    {
      HideMessage();
      var decision := CheckRateLimit(lastSubmit, now);
      if decision.Wait? {
        ShowMessage(WaitText(decision.seconds), Error);
        return false;
      }
      var originalButtonText := buttonValue;
      buttonDisabled := true;
      buttonValue := SubscribingText;
      pending := Some(Request(now, originalButtonText));
      requestsSent := requestsSent + 1;
      sent := true;
    }

    /** The settled request: on success store its time and thank the user, on
        failure keep the stored time and report the error; either way re-enable
        the button with its original text. */
    method Complete(ok: bool)
      requires Valid() && pending.Some?
      modifies this
      ensures Valid()
      ensures lastSubmit == if ok then Some(JsBuiltins.IntToString(old(pending.value.sentAt)))
                            else old(lastSubmit)
      ensures ok ==> messageText == SuccessText && messageClasses == ShownClasses(Success)
      ensures !ok ==> messageText == FailureText && messageClasses == ShownClasses(Error)
      ensures pending == None && !buttonDisabled
      ensures buttonValue == old(pending.value.originalButtonText)
      ensures requestsSent == old(requestsSent)
    {
      var request := pending.value;
      if ok {
        lastSubmit := Some(JsBuiltins.IntToString(request.sentAt));
        ShowMessage(SuccessText, Success);
      } else {
        ShowMessage(FailureText, Error);
      }
      buttonDisabled := false;
      buttonValue := request.originalButtonText;
      pending := None;
    }
  }

  /** A successful subscription followed by a second attempt less than a minute
      later: the second attempt sends nothing and leaves the button alone. */
  method SubmitTwiceWithinAMinute(f: NewsletterForm, t: int, later: int) returns (second: bool)
    requires f.Valid() && !f.buttonDisabled
    requires t <= later < t + RateLimitMs
    requires CheckRateLimit(f.lastSubmit, t) == Proceed
    modifies f
    ensures !second && f.requestsSent == old(f.requestsSent) + 1
    ensures f.lastSubmit == Some(JsBuiltins.IntToString(t))
    ensures f.messageText == WaitText(RemainingSeconds(later - t))
    ensures !f.buttonDisabled
  {
    var first := f.Submit(t);
    f.Complete(true);
    RateLimitAfterSuccess(t, later);
    second := f.Submit(later);
  }
}

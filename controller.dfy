/**
 * The USSD session state machine: the singleton `USSDController`, its seven
 * states, the armed payment and the first-match-wins rule chain that turns
 * the text of a USSD screen into the reply to inject.
 */
module UssdController {
  import opened Options
  import opened Strings

  /** `USSDController.State`. */
  datatype State = Idle | MenuMain | EnterUpi | EnterAmount | Confirm | Success | Failed

  /** The payment being automated: the fields of `UPIData` the app reads. */
  datatype UpiData = UpiData(amount: string, upiId: string, name: string)

  /** What one `getNextInput` call does: the state it writes and the reply it returns. */
  datatype Transition = Transition(state: State, input: Option<string>)

  /**
   * `text.contains(keyword, ignoreCase = true)`: the keyword occurs in the
   * text once both are lower-cased.
   */
  predicate Mentions(text: string, keyword: string)
  {
    Contains(text, keyword, true)
  }

  /** The main menu, offering "Send Money". */
  predicate IsMenuPrompt(text: string)
  {
    Mentions(text, "Send Money") || Mentions(text, "1. Send")
  }

  /** The prompt for the payee's UPI id or mobile number. */
  predicate IsUpiPrompt(text: string)
  {
    Mentions(text, "Enter UPI") || Mentions(text, "VPA") || Mentions(text, "Mobile/UPI")
  }

  /** The prompt for the amount. */
  predicate IsAmountPrompt(text: string)
  {
    Mentions(text, "Enter Amount") || Mentions(text, "Amount")
  }

  /** The confirmation screen, which asks for the PIN. */
  predicate IsConfirmPrompt(text: string)
  {
    Mentions(text, "Confirm") || Mentions(text, "Enter PIN") || Mentions(text, "MPIN")
  }

  /** The success report. */
  predicate IsSuccessText(text: string)
  {
    Mentions(text, "successful") || Mentions(text, "Transaction ID")
  }

  /** The failure report. */
  predicate IsFailureText(text: string)
  {
    Mentions(text, "failed") || Mentions(text, "error") || Mentions(text, "declined")
  }

  /**
   * The `when` chain of `getNextInput` for an armed payment: the first rule
   * whose keywords occur in the text decides the new state and the reply;
   * `None` when no rule matches.
   */
  function Decide(text: string, payment: UpiData): (d: Option<Transition>)
    ensures d.Some? ==> d.value.state != Idle
    ensures d.Some? ==> (d.value.input.Some? <==> d.value.state in {MenuMain, EnterUpi, EnterAmount})
    ensures d.Some? && d.value.input.Some? ==> d.value.input.value in {"1", payment.upiId, payment.amount}
  {
    if IsMenuPrompt(text) then Some(Transition(MenuMain, Some("1")))
    else if IsUpiPrompt(text) then Some(Transition(EnterUpi, Some(payment.upiId)))
    else if IsAmountPrompt(text) then Some(Transition(EnterAmount, Some(payment.amount)))
    else if IsConfirmPrompt(text) then Some(Transition(Confirm, None))
    else if IsSuccessText(text) then Some(Transition(Success, None))
    else if IsFailureText(text) then Some(Transition(Failed, None))
    else None
  }

  /**
   * One `getNextInput(text)` call from state `state` with armed payment
   * `payment`: with no payment, or when no rule matches, the state is kept
   * and nothing is returned.
   */
  function Step(state: State, payment: Option<UpiData>, text: string): (t: Transition)
    ensures payment.None? ==> t == Transition(state, None)
    ensures t.input.Some? ==> payment.Some? && t.input.value in {"1", payment.value.upiId, payment.value.amount}
    ensures t.input.Some? ==> t.state in {MenuMain, EnterUpi, EnterAmount}
  {
    if payment.None? then Transition(state, None)
    else match Decide(text, payment.value)
      case None => Transition(state, None)
      case Some(t) => t
  }

  /** The singleton `USSDController`: the current state and the armed payment. */
  class Controller {
    var currentState: State
    /** A public property in the app: callers arm a payment by assigning it. */
    var currentPayment: Option<UpiData>

    constructor ()
      ensures currentState == Idle && currentPayment == None
    {
      currentState := Idle;
      currentPayment := None;
    }

    method UpdateState(newState: State)
      modifies this`currentState
      ensures currentState == newState
    {
      currentState := newState;
    }

    method Reset()
      modifies this
      ensures currentState == Idle && currentPayment == None
    {
      currentState := Idle;
      currentPayment := None;
    }

    /**
     * Classifies the screen text, records the new state and returns the
     * text to inject, if any; the armed payment is never touched.
     */
    method GetNextInput(ussdText: string) returns (r: Option<string>)
      modifies this`currentState
      ensures Transition(currentState, r) == Step(old(currentState), currentPayment, ussdText)
    {
      if currentPayment.None? {
        return None;
      }
      var payment := currentPayment.value;
      if IsMenuPrompt(ussdText) {
        UpdateState(MenuMain);
        r := Some("1");
      } else if IsUpiPrompt(ussdText) {
        UpdateState(EnterUpi);
        r := Some(payment.upiId);
      } else if IsAmountPrompt(ussdText) {
        UpdateState(EnterAmount);
        r := Some(payment.amount);
      } else if IsConfirmPrompt(ussdText) {
        UpdateState(Confirm);
        r := None;
      } else if IsSuccessText(ussdText) {
        UpdateState(Success);
        r := None;
      } else if IsFailureText(ussdText) {
        UpdateState(Failed);
        r := None;
      } else {
        r := None;
      }
    }
  }
}

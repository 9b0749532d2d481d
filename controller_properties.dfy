/**
 * Properties of the USSD rule chain: it is a first-match-wins search over
 * an ordered rule table, precedence between overlapping keywords, the
 * missing terminal-state guard, and the example screens of the flow.
 */
module UssdControllerProperties {
  import opened Options
  import opened Strings
  import opened UssdController

  /** What a rule injects when it fires. */
  datatype Reply = Choose(option: string) | PayeeId | PayAmount | NoReply

  /** One branch of the `when` chain: any keyword fires it. */
  datatype Rule = Rule(keywords: seq<string>, target: State, reply: Reply)

  /** The branches of `getNextInput`, in source order. */
  const RuleTable: seq<Rule> := [
    Rule(["Send Money", "1. Send"], MenuMain, Choose("1")),
    Rule(["Enter UPI", "VPA", "Mobile/UPI"], EnterUpi, PayeeId),
    Rule(["Enter Amount", "Amount"], EnterAmount, PayAmount),
    Rule(["Confirm", "Enter PIN", "MPIN"], Confirm, NoReply),
    Rule(["successful", "Transaction ID"], Success, NoReply),
    Rule(["failed", "error", "declined"], Failed, NoReply)
  ]

  predicate RuleMatches(rule: Rule, text: string)
  {
    exists k :: 0 <= k < |rule.keywords| && Mentions(text, rule.keywords[k])
  }

  function Fire(rule: Rule, payment: UpiData): Transition
  {
    Transition(rule.target,
      match rule.reply
      case Choose(option) => Some(option)
      case PayeeId => Some(payment.upiId)
      case PayAmount => Some(payment.amount)
      case NoReply => None)
  }

  /** The index of the first rule of `rules` that matches `text`. */
  function FirstMatch(rules: seq<Rule>, text: string): (r: Option<nat>)
    ensures r.Some? ==> r.value < |rules| && RuleMatches(rules[r.value], text)
    ensures r.Some? ==> forall j :: 0 <= j < r.value ==> !RuleMatches(rules[j], text)
    ensures r.None? <==> forall j :: 0 <= j < |rules| ==> !RuleMatches(rules[j], text)
  {
    if rules == [] then None
    else if RuleMatches(rules[0], text) then Some(0)
    else match FirstMatch(rules[1..], text)
      case None => None
      case Some(k) => Some(k + 1)
  }

  lemma RuleOfTwo(rule: Rule, text: string)
    requires |rule.keywords| == 2
    ensures RuleMatches(rule, text) <==>
      Mentions(text, rule.keywords[0]) || Mentions(text, rule.keywords[1])
  {
    if Mentions(text, rule.keywords[0]) || Mentions(text, rule.keywords[1]) {
      var k := if Mentions(text, rule.keywords[0]) then 0 else 1;
      assert Mentions(text, rule.keywords[k]);
    }
  }

  lemma RuleOfThree(rule: Rule, text: string)
    requires |rule.keywords| == 3
    ensures RuleMatches(rule, text) <==>
      Mentions(text, rule.keywords[0]) || Mentions(text, rule.keywords[1]) || Mentions(text, rule.keywords[2])
  {
    if Mentions(text, rule.keywords[0]) || Mentions(text, rule.keywords[1]) || Mentions(text, rule.keywords[2]) {
      var k := if Mentions(text, rule.keywords[0]) then 0 else if Mentions(text, rule.keywords[1]) then 1 else 2;
      assert Mentions(text, rule.keywords[k]);
    }
  }

  /** Each entry of the table matches exactly when its branch condition holds. */
  lemma RuleTableMatches(text: string)
    ensures RuleMatches(RuleTable[0], text) == IsMenuPrompt(text)
    ensures RuleMatches(RuleTable[1], text) == IsUpiPrompt(text)
    ensures RuleMatches(RuleTable[2], text) == IsAmountPrompt(text)
    ensures RuleMatches(RuleTable[3], text) == IsConfirmPrompt(text)
    ensures RuleMatches(RuleTable[4], text) == IsSuccessText(text)
    ensures RuleMatches(RuleTable[5], text) == IsFailureText(text)
  {
    RuleOfTwo(RuleTable[0], text);
    RuleOfThree(RuleTable[1], text);
    RuleOfTwo(RuleTable[2], text);
    RuleOfThree(RuleTable[3], text);
    RuleOfTwo(RuleTable[4], text);
    RuleOfThree(RuleTable[5], text);
  }

  /** Lower-casing a keyword written in mixed case gives its lower-case spelling. */
  lemma LowerKeyword(text: string, keyword: string, lowered: string)
    requires |keyword| == |lowered|
    requires forall i :: 0 <= i < |keyword| ==> LowerChar(keyword[i]) == lowered[i]
    ensures Mentions(text, keyword) <==> Contains(Lower(text), lowered, false)
  {
    LoweredContains(text, keyword);
    assert Lower(keyword) == lowered;
  }

  /**
   * The six rule tests ignore case: each holds exactly when the lower-cased
   * text contains one of the rule's keywords spelt in lower case.
   */
  lemma PromptsIgnoreCase(text: string)
    ensures var t := Lower(text);
      IsMenuPrompt(text) <==> Contains(t, "send money", false) || Contains(t, "1. send", false)
    ensures var t := Lower(text);
      IsUpiPrompt(text) <==> Contains(t, "enter upi", false) || Contains(t, "vpa", false) || Contains(t, "mobile/upi", false)
    ensures var t := Lower(text);
      IsAmountPrompt(text) <==> Contains(t, "enter amount", false) || Contains(t, "amount", false)
    ensures var t := Lower(text);
      IsConfirmPrompt(text) <==> Contains(t, "confirm", false) || Contains(t, "enter pin", false) || Contains(t, "mpin", false)
    ensures var t := Lower(text);
      IsSuccessText(text) <==> Contains(t, "successful", false) || Contains(t, "transaction id", false)
    ensures var t := Lower(text);
      IsFailureText(text) <==> Contains(t, "failed", false) || Contains(t, "error", false) || Contains(t, "declined", false)
  {
    LowerKeyword(text, "Send Money", "send money");
    LowerKeyword(text, "1. Send", "1. send");
    LowerKeyword(text, "Enter UPI", "enter upi");
    LowerKeyword(text, "VPA", "vpa");
    LowerKeyword(text, "Mobile/UPI", "mobile/upi");
    LowerKeyword(text, "Enter Amount", "enter amount");
    LowerKeyword(text, "Amount", "amount");
    LowerKeyword(text, "Confirm", "confirm");
    LowerKeyword(text, "Enter PIN", "enter pin");
    LowerKeyword(text, "MPIN", "mpin");
    LowerKeyword(text, "successful", "successful");
    LowerKeyword(text, "Transaction ID", "transaction id");
    LowerKeyword(text, "failed", "failed");
    LowerKeyword(text, "error", "error");
    LowerKeyword(text, "declined", "declined");
  }

  /**
   * `Decide` is the first-match-wins search over `RuleTable`: the rule that
   * fires is the first one in source order whose keywords occur in the text.
   */
  lemma DecideIsFirstMatch(text: string, payment: UpiData)
    ensures Decide(text, payment) ==
      match FirstMatch(RuleTable, text)
      case None => None
      case Some(k) => Some(Fire(RuleTable[k], payment))
  {
    RuleTableMatches(text);
    var m := FirstMatch(RuleTable, text);
    if m.Some? {
      var k := m.value;
      assert k == 0 || !RuleMatches(RuleTable[0], text);
      assert k <= 1 || !RuleMatches(RuleTable[1], text);
      assert k <= 2 || !RuleMatches(RuleTable[2], text);
      assert k <= 3 || !RuleMatches(RuleTable[3], text);
      assert k <= 4 || !RuleMatches(RuleTable[4], text);
    }
  }

  /**
   * The "Enter Amount" keyword is subsumed by "Amount": the amount branch
   * fires on exactly the texts that mention "amount" in any case.
   */
  lemma AmountRuleIsAmountKeyword(text: string)
    ensures IsAmountPrompt(text) <==> Mentions(text, "Amount")
  {
    if Mentions(text, "Enter Amount") {
      ContainsInfix(text, "Enter Amount", 6, 12, true);
      assert "Enter Amount"[6..12] == "Amount";
    }
  }

  /**
   * Once a rule fires, the new state is fixed by the text alone: neither
   * the prior state nor which payment is armed affects it.
   */
  lemma MatchedStateIgnoresHistory(text: string, s1: State, s2: State, p1: UpiData, p2: UpiData)
    requires Decide(text, p1).Some?
    ensures Step(s1, Some(p1), text).state == Step(s2, Some(p2), text).state
    ensures Step(s1, Some(p1), text).input.Some? == Step(s2, Some(p2), text).input.Some?
  {
    assert Decide(text, p2).Some?;
  }

  /** With no armed payment every text leaves the controller as it was. */
  lemma InertWithoutPayment(state: State, text: string)
    ensures Step(state, None, text) == Transition(state, None)
  {
  }

  /** The keyword-free characters used below to rule out the first two rules. */
  lemma NoMenuNoUpi(text: string)
    requires forall k :: 0 <= k < |text| ==> LowerChar(text[k]) !in {'y', '1', 'p', 'v', '/'}
    ensures !IsMenuPrompt(text) && !IsUpiPrompt(text)
  {
    AbsentCharRulesOut(text, "Send Money", true, 9);
    AbsentCharRulesOut(text, "1. Send", true, 0);
    AbsentCharRulesOut(text, "Enter UPI", true, 7);
    AbsentCharRulesOut(text, "VPA", true, 1);
    AbsentCharRulesOut(text, "Mobile/UPI", true, 6);
  }

  /** The amount rule fires whenever no earlier rule does, whatever else the text says. */
  lemma AmountStepWhen(state: State, payment: UpiData, text: string)
    requires !IsMenuPrompt(text) && !IsUpiPrompt(text) && IsAmountPrompt(text)
    ensures Step(state, Some(payment), text) == Transition(EnterAmount, Some(payment.amount))
  {
  }

  /**
   * Precedence: a screen that says both "Confirm" and "Amount" is taken for
   * the amount prompt, so the amount is injected again instead of stopping
   * for the PIN.
   */
  lemma ConfirmAmountIsAmountStep(state: State, payment: UpiData, text: string)
    requires text == "Confirm Amount 500 to X"
    ensures Mentions(text, "Confirm")
    ensures Step(state, Some(payment), text) == Transition(EnterAmount, Some(payment.amount))
  {
    assert !IsMenuPrompt(text) && !IsUpiPrompt(text) by { NoMenuNoUpi(text); }
    assert Mentions(text, "Confirm") by { assert RegionMatches(text, 0, "Confirm", true); }
    assert IsAmountPrompt(text) by { assert RegionMatches(text, 8, "Amount", true); }
    AmountStepWhen(state, payment, text);
  }

  /** The main menu selects option "1". */
  lemma SendMoneyMenuStep(state: State, payment: UpiData, text: string)
    requires text == "1. Send Money 2. Request Money"
    ensures Step(state, Some(payment), text) == Transition(MenuMain, Some("1"))
  {
    assert RegionMatches(text, 3, "Send Money", true);
  }

  /** The payee prompt injects the armed UPI id. */
  lemma EnterUpiStep(state: State, payment: UpiData, text: string)
    requires text == "Please Enter UPI ID or Mobile"
    ensures Step(state, Some(payment), text) == Transition(EnterUpi, Some(payment.upiId))
  {
    NotMenuPrompt(text);
    assert IsUpiPrompt(text) by { assert RegionMatches(text, 7, "Enter UPI", true); }
    UpiStepWhen(state, payment, text);
  }

  lemma NotMenuPrompt(text: string)
    requires forall k :: 0 <= k < |text| ==> LowerChar(text[k]) !in {'y', '1'}
    ensures !IsMenuPrompt(text)
  {
    AbsentCharRulesOut(text, "Send Money", true, 9);
    AbsentCharRulesOut(text, "1. Send", true, 0);
  }

  lemma UpiStepWhen(state: State, payment: UpiData, text: string)
    requires !IsMenuPrompt(text) && IsUpiPrompt(text)
    ensures Step(state, Some(payment), text) == Transition(EnterUpi, Some(payment.upiId))
  {
  }

  /**
   * There is no terminal-state guard: after SUCCESS, a later screen that
   * mentions an amount moves the controller back to ENTER_AMOUNT and
   * injects the amount again.
   */
  lemma SuccessIsNotTerminal(payment: UpiData, text: string)
    requires text == "Enter Amount"
    ensures Step(Success, Some(payment), text) == Transition(EnterAmount, Some(payment.amount))
  {
    NoMenuNoUpi(text);
    assert IsAmountPrompt(text) by { assert RegionMatches(text, 0, "Enter Amount", true); }
    AmountStepWhen(Success, payment, text);
  }

  /**
   * A failure screen that also mentions an amount is classified by the
   * amount rule, not the failure rule, since that rule comes first.
   */
  lemma FailureMentioningAmountIsAmountStep(state: State, payment: UpiData, text: string)
    requires text == "Amount debit failed"
    ensures IsFailureText(text)
    ensures Step(state, Some(payment), text) == Transition(EnterAmount, Some(payment.amount))
  {
    NoMenuNoUpi(text);
    AmountDebitFailedMentions(text);
    AmountStepWhen(state, payment, text);
  }

  lemma AmountDebitFailedMentions(text: string)
    requires text == "Amount debit failed"
    ensures Mentions(text, "Amount") && Mentions(text, "failed")
  {
    assert RegionMatches(text, 13, "failed", true);
    assert RegionMatches(text, 0, "Amount", true);
  }

  /** The failure rule fires when no earlier rule does, from any state, and injects nothing. */
  lemma FailureStepWhen(state: State, payment: UpiData, text: string)
    requires !IsMenuPrompt(text) && !IsUpiPrompt(text) && !IsAmountPrompt(text)
    requires !IsConfirmPrompt(text) && !IsSuccessText(text) && IsFailureText(text)
    ensures Step(state, Some(payment), text) == Transition(Failed, None)
  {
  }

  /** Rules 3 to 5 ruled out by characters the text lacks. */
  lemma NoAmountConfirmSuccess(text: string)
    requires forall k :: 0 <= k < |text| ==> LowerChar(text[k]) !in {'a', 'f', 'p', 'm'}
    ensures !IsAmountPrompt(text) && !IsConfirmPrompt(text) && !IsSuccessText(text)
  {
    AbsentCharRulesOut(text, "Amount", true, 0);
    AbsentCharRulesOut(text, "Enter Amount", true, 6);
    AbsentCharRulesOut(text, "Confirm", true, 3);
    AbsentCharRulesOut(text, "Enter PIN", true, 6);
    AbsentCharRulesOut(text, "MPIN", true, 0);
    AbsentCharRulesOut(text, "successful", true, 7);
    AbsentCharRulesOut(text, "Transaction ID", true, 2);
  }

  lemma DeclinedMention(text: string)
    requires text == "Request declined"
    ensures Mentions(text, "declined")
  {
    assert RegionMatches(text, 8, "declined", true);
  }

  /** A rejection screen with no earlier keyword moves to FAILED from any state. */
  lemma DeclinedIsFailure(state: State, payment: UpiData, text: string)
    requires text == "Request declined"
    ensures Step(state, Some(payment), text) == Transition(Failed, None)
  {
    NoMenuNoUpi(text);
    NoAmountConfirmSuccess(text);
    DeclinedMention(text);
    FailureStepWhen(state, payment, text);
  }

  /** After `reset()` the controller is idle, disarmed, and ignores the next screen. */
  method ResetThenClassify(c: Controller, text: string) returns (r: Option<string>)
    modifies c
    ensures r == None && c.currentState == Idle && c.currentPayment == None
  {
    c.Reset();
    r := c.GetNextInput(text);
  }
}

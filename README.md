# USSD payment automation: a Dafny model

This project models the two components of the Android app that drive a
USSD payment session without user input:

- `USSDController` is the session state machine. It is a singleton holding
  the current state (one of seven) and the armed payment (`UPIData`, or
  null). Its `getNextInput(text)` classifies the text of a USSD screen with
  an ordered chain of case-insensitive keyword rules. The first match wins.
  The rule records the new state and returns the reply to inject: `"1"`,
  the payee's UPI id, the amount, or nothing.
- `USSDService` is the accessibility service. On a window event it:
  1. checks that the source window is a USSD dialog (an allowlist on the
     package and class names);
  2. extracts the dialog's text in pre-order, recycling every child handle
     it walks;
  3. asks the controller for the reply;
  4. sets that reply on every editable `EditText`;
  5. clicks the first `Button` whose label looks like "send", "ok" or
     "reply";
  6. recycles the event's source.

The model has these modules:

- `UssdController` holds the `State` enum, the `UpiData` record, the rule
  chain as pure functions (`Decide`, `Step`) and the singleton as a class
  (`Controller`) whose methods update its fields.
- `UssdControllerProperties` proves the rule chain equal to a
  first-match-wins search over an ordered rule table. It also proves
  precedence between overlapping keywords, the missing terminal-state
  guard, and the outcome on sample screens.
- `Accessibility` covers the host side:
  - a node tree datatype, where `getChild(i)` may be null, so child slots
    are optional;
  - a `Host` class whose `performAction` and `recycle` calls append to a
    log;
  - counts over that log.
- `UssdService` holds:
  - the walks as pure functions (`PreOrder`, `ExtractText`, `WalkLog`,
    `WithClass`, `FillLog`, `ClickLog`) and the event handling as
    `Dispatch`;
  - the imperative methods of the service, each proved to produce exactly
    what those functions describe.
- `UssdServiceProperties` proves what those functions promise.
- `Strings` models Kotlin's `lowercase()`, `indexOf(…, ignoreCase)` and
  `contains(…, ignoreCase)`, with ASCII case folding.

Three behaviours of the code a reader may not expect:

- **SUCCESS and FAILED do not end the session.** `ProcessingActivity.kt`
  (lines 54-61) stops polling and opens the result screen once the state is
  SUCCESS or FAILED, so these two states are meant to end the flow. Yet
  `getNextInput` never reads `currentState`, so a later screen still moves
  the controller. `SuccessIsNotTerminal` proves it.
- **Failure text is not always FAILED.** The amount rule comes before the
  failure rule in the chain. A failure screen that mentions "amount" is
  therefore taken for the amount prompt, and the amount is injected again.
  `FailureMentioningAmountIsAmountStep` proves it.
- **Not every node is recycled.** The service recycles the event's source
  on each of its three paths (`USSDService.kt` lines 23, 30 and 43). It also
  recycles every child it walks while reading the text (line 72). The nodes
  gathered by `findNodesByClassName` are never recycled: the comment at
  line 86 leaves them to the system. `FillLogTargets` states that the fill
  recycles nothing.

## Model

Source paths are relative to the repository root. `USSDController.kt` and
`USSDService.kt` live in `app/src/main/java/com/flowstable/upi/ussd/`.

| member | source | states |
|---|---|---|
| UssdController.Decide | app/src/main/java/com/flowstable/upi/ussd/USSDController.kt:32-79 | When a rule fires, the new state is never IDLE. A reply is returned exactly when the new state is MENU_MAIN, ENTER_UPI or ENTER_AMOUNT. The reply is always "1", the payee's UPI id or the amount. |
| UssdController.Step | app/src/main/java/com/flowstable/upi/ussd/USSDController.kt:29-80 | With no armed payment, the state is kept and nothing is returned, whatever the text. Any reply needs an armed payment and is one of "1", its UPI id or its amount. A reply comes only with the three input states, so a move into CONFIRM, SUCCESS or FAILED never injects anything and the PIN is never typed. |
| UssdController.Controller.constructor | app/src/main/java/com/flowstable/upi/ussd/USSDController.kt:15-18 | Starts IDLE with no payment armed. |
| UssdController.Controller.UpdateState | app/src/main/java/com/flowstable/upi/ussd/USSDController.kt:20-22 | Sets the current state and touches nothing else. |
| UssdController.Controller.Reset | app/src/main/java/com/flowstable/upi/ussd/USSDController.kt:24-27 | Leaves the controller IDLE with no payment armed. |
| UssdController.Controller.GetNextInput | app/src/main/java/com/flowstable/upi/ussd/USSDController.kt:29-80 | The new state and the returned reply are `Step` of the old state, the armed payment and the text. The armed payment is never modified. |
| UssdControllerProperties.FirstMatch | app/src/main/java/com/flowstable/upi/ussd/USSDController.kt:32-79 | Gives the index of the first rule whose keywords occur in the text, with no earlier rule matching. Gives none exactly when no rule matches. |
| UssdControllerProperties.RuleTableMatches | app/src/main/java/com/flowstable/upi/ussd/USSDController.kt:34-76 | Each entry of the rule table, in source order, matches exactly when the keyword test of the corresponding branch holds. |
| UssdControllerProperties.LowerKeyword | app/src/main/java/com/flowstable/upi/ussd/USSDController.kt:34-35 | `contains(keyword, ignoreCase = true)` on a keyword holds exactly when the lower-cased text contains the keyword's lower-case spelling. |
| UssdControllerProperties.PromptsIgnoreCase | app/src/main/java/com/flowstable/upi/ussd/USSDController.kt:34-76 | Each of the six rule tests holds exactly when the lower-cased text contains one of that rule's keywords spelt in lower case, so the chain ignores case. |
| UssdControllerProperties.DecideIsFirstMatch | app/src/main/java/com/flowstable/upi/ussd/USSDController.kt:32-79 | The rule chain is the first-match-wins search over the ordered rule table. The first matching rule decides the new state and the reply. When no rule matches there is no transition. |
| UssdControllerProperties.AmountRuleIsAmountKeyword | app/src/main/java/com/flowstable/upi/ussd/USSDController.kt:49-50 | The amount branch fires exactly on texts that mention "amount" in any case. The "Enter Amount" keyword is subsumed by "Amount". |
| UssdControllerProperties.MatchedStateIgnoresHistory | app/src/main/java/com/flowstable/upi/ussd/USSDController.kt:29-80 | Once a rule fires, neither the prior state nor which payment is armed changes the new state, or whether a reply is given. |
| UssdControllerProperties.InertWithoutPayment | app/src/main/java/com/flowstable/upi/ussd/USSDController.kt:30 | With no armed payment, any text leaves the state unchanged and returns nothing. |
| UssdControllerProperties.AmountStepWhen | app/src/main/java/com/flowstable/upi/ussd/USSDController.kt:49-53 | When neither the menu rule nor the UPI rule fires but the amount rule does, the state becomes ENTER_AMOUNT and the amount is returned, from any state. |
| UssdControllerProperties.UpiStepWhen | app/src/main/java/com/flowstable/upi/ussd/USSDController.kt:41-46 | When the menu rule does not fire but the UPI rule does, the state becomes ENTER_UPI and the UPI id is returned. |
| UssdControllerProperties.FailureStepWhen | app/src/main/java/com/flowstable/upi/ussd/USSDController.kt:71-76 | When only the failure rule fires, the state becomes FAILED from any state and nothing is returned. |
| UssdControllerProperties.ConfirmAmountIsAmountStep | app/src/main/java/com/flowstable/upi/ussd/USSDController.kt:49-61 | "Confirm Amount 500 to X" mentions "Confirm", yet the earlier amount rule takes it: ENTER_AMOUNT, and the amount is injected. |
| UssdControllerProperties.SendMoneyMenuStep | app/src/main/java/com/flowstable/upi/ussd/USSDController.kt:34-38 | The main menu "1. Send Money 2. Request Money" gives MENU_MAIN and the reply "1". |
| UssdControllerProperties.EnterUpiStep | app/src/main/java/com/flowstable/upi/ussd/USSDController.kt:41-46 | "Please Enter UPI ID or Mobile" gives ENTER_UPI and the armed UPI id. |
| UssdControllerProperties.SuccessIsNotTerminal | app/src/main/java/com/flowstable/upi/ussd/USSDController.kt:29-80 | From SUCCESS, the text "Enter Amount" moves the controller back to ENTER_AMOUNT and injects the amount: there is no terminal-state guard. |
| UssdControllerProperties.FailureMentioningAmountIsAmountStep | app/src/main/java/com/flowstable/upi/ussd/USSDController.kt:49-76 | "Amount debit failed" mentions "failed", yet the amount rule takes it: ENTER_AMOUNT, and the amount is injected. |
| UssdControllerProperties.DeclinedIsFailure | app/src/main/java/com/flowstable/upi/ussd/USSDController.kt:71-76 | "Request declined" gives FAILED from any state and returns nothing. |
| UssdControllerProperties.ResetThenClassify | app/src/main/java/com/flowstable/upi/ussd/USSDController.kt:24-30 | After `reset()`, the next `getNextInput` returns nothing and the controller stays IDLE with no payment. |
| Strings.Lower | app/src/main/java/com/flowstable/upi/ussd/USSDService.kt:95 | `lowercase()` keeps the length and lower-cases each character (ASCII). |
| Strings.IndexOf | app/src/main/java/com/flowstable/upi/ussd/USSDController.kt:34-35 | Gives the first offset at or after `from` where the needle occurs, or -1 exactly when there is none. |
| Strings.Contains | app/src/main/java/com/flowstable/upi/ussd/USSDService.kt:51-55 | A match needs a needle no longer than the text. The empty needle occurs in every text. |
| Strings.LoweredContains | app/src/main/java/com/flowstable/upi/ussd/USSDController.kt:34-35 | Matching ignoring case is exact matching once both the text and the needle are lower-cased. |
| Strings.ContainsIsIndexOf | app/src/main/java/com/flowstable/upi/ussd/USSDController.kt:34-35 | `contains` holds exactly when `indexOf` from 0 finds an occurrence. |
| Strings.ContainsInfix | app/src/main/java/com/flowstable/upi/ussd/USSDController.kt:49-50 | An occurrence of a word carries an occurrence of each of its infixes. |
| Strings.LowerThenContains | app/src/main/java/com/flowstable/upi/ussd/USSDService.kt:95-98 | Lower-casing the text and then matching a lower-case needle case-sensitively is the same as matching ignoring case. |
| Accessibility.Host.PerformAction | app/src/main/java/com/flowstable/upi/ussd/USSDService.kt:84 | Appends one action on the node's handle to the host's log. |
| Accessibility.Host.Recycle | app/src/main/java/com/flowstable/upi/ussd/USSDService.kt:72 | Appends one release of the node's handle to the host's log. |
| Accessibility.CountsAppend | app/src/main/java/com/flowstable/upi/ussd/USSDService.kt:10-44 | The number of clicks and the number of actions in a log add up over its parts. |
| UssdService.PreOrder | app/src/main/java/com/flowstable/upi/ussd/USSDService.kt:105-114 | The pre-order of a tree is never empty and starts with its root. |
| UssdService.IsUssdDialog | app/src/main/java/com/flowstable/upi/ussd/USSDService.kt:46-56 | A null name is read as "", so a node with neither a package name nor a class name is never a dialog. |
| UssdService.ExtractText | app/src/main/java/com/flowstable/upi/ussd/USSDService.kt:58-74 | The text of a tree starts with its root's own piece: its text and a space, or nothing for null text. Parents come before their children. |
| UssdService.WalkLog | app/src/main/java/com/flowstable/upi/ussd/USSDService.kt:69-73 | Walking the children makes only `recycle()` calls, and no action. |
| UssdService.ChildWalkLog | app/src/main/java/com/flowstable/upi/ussd/USSDService.kt:70-72 | A child slot makes only `recycle()` calls. For a non-null child, the last call recycles that child, after its own subtree. |
| UssdService.WithClass | app/src/main/java/com/flowstable/upi/ussd/USSDService.kt:105-114 | Every node collected has exactly the requested class name, and never more nodes are collected than are visited. |
| UssdService.SetTexts | app/src/main/java/com/flowstable/upi/ussd/USSDService.kt:80-87 | Every action performed on the collected nodes is a SET_TEXT carrying the given text. |
| UssdService.FillLog | app/src/main/java/com/flowstable/upi/ussd/USSDService.kt:76-88 | Filling the input only types the given text: every action is a SET_TEXT with it. |
| UssdService.IsSendLabel | app/src/main/java/com/flowstable/upi/ussd/USSDService.kt:95-98 | A null label is never send-like, and a send-like label has at least two characters ("ok" is the shortest keyword). |
| UssdService.ClickLog | app/src/main/java/com/flowstable/upi/ussd/USSDService.kt:90-103 | Clicking the send button makes at most one action, and that action is a click. |
| UssdService.Inject | app/src/main/java/com/flowstable/upi/ussd/USSDService.kt:37-41 | With no reply nothing is done. Otherwise every call is an action, never a release, and every action but the last types the reply, so the click, if any, comes last. |
| UssdService.FirstSendIndex | app/src/main/java/com/flowstable/upi/ussd/USSDService.kt:94-101 | Gives the index of the first node with a send-like label, with none before it. Gives none exactly when no node has one. |
| UssdService.Dispatch | app/src/main/java/com/flowstable/upi/ussd/USSDService.kt:10-44 | A null event, an event of another type or a null source changes nothing and calls nothing. Whenever anything is called, the last call releases the source. |
| UssdService.WithClassAppend | app/src/main/java/com/flowstable/upi/ussd/USSDService.kt:105-114 | The class search distributes over concatenation, so it keeps the order of the nodes it visits. |
| UssdService.Service.OnAccessibilityEvent | app/src/main/java/com/flowstable/upi/ussd/USSDService.kt:10-44 | The controller's new state and the calls made into the host are exactly those `Dispatch` gives for the event, the old state and the armed payment. |
| UssdService.Service.ExtractUssdText | app/src/main/java/com/flowstable/upi/ussd/USSDService.kt:58-62 | Returns the text of the tree and releases the children walked, in the order the walk visits them. |
| UssdService.Service.ExtractTextRecursive | app/src/main/java/com/flowstable/upi/ussd/USSDService.kt:64-74 | Appends the text of the subtree to what the builder held. Each non-null child is released right after its own subtree has been walked. |
| UssdService.Service.FindNodesByClassName | app/src/main/java/com/flowstable/upi/ussd/USSDService.kt:105-114 | Keeps the list's prior contents, then appends the tree's nodes of exactly that class name, in pre-order. |
| UssdService.Service.FillUssdInput | app/src/main/java/com/flowstable/upi/ussd/USSDService.kt:76-88 | The calls made are exactly one SET_TEXT with the text for each editable EditText, in pre-order. |
| UssdService.Service.ClickSendButton | app/src/main/java/com/flowstable/upi/ussd/USSDService.kt:90-103 | The calls made are exactly the click `ClickLog` gives: on the first send-like Button, or none. |
| UssdServiceProperties.ExtractTextIsPreOrder | app/src/main/java/com/flowstable/upi/ussd/USSDService.kt:58-74 | The extracted text is the concatenation of the pieces of the nodes in pre-order. A piece is the node's text and a space, or nothing when the text is null. Parents come before children, and children are in index order. |
| UssdServiceProperties.ChildrenTextIsForest | app/src/main/java/com/flowstable/upi/ussd/USSDService.kt:69-73 | The text the loop builds over the first i children is the text of the pre-order of their subtrees. |
| UssdServiceProperties.ExtractTextEmptyIff | app/src/main/java/com/flowstable/upi/ussd/USSDService.kt:65-67 | The extracted text is empty exactly when no node of the tree has non-null text. |
| UssdServiceProperties.EmptyTextCounts | app/src/main/java/com/flowstable/upi/ussd/USSDService.kt:65-67 | A node whose text is empty but not null still contributes a space. |
| UssdServiceProperties.EnterAmountTree | app/src/main/java/com/flowstable/upi/ussd/USSDService.kt:58-74 | A root without text over children "Enter", a null slot and "Amount" gives "Enter Amount ". |
| UssdServiceProperties.WithClassMembers | app/src/main/java/com/flowstable/upi/ussd/USSDService.kt:105-114 | A node is kept exactly when it was visited and its class name equals the argument. |
| UssdServiceProperties.SetTextsTargets | app/src/main/java/com/flowstable/upi/ussd/USSDService.kt:80-87 | Each action is a SET_TEXT with the same text on an editable node of the list, and every editable node gets one. |
| UssdServiceProperties.SetTextsLength | app/src/main/java/com/flowstable/upi/ussd/USSDService.kt:80-87 | There are never more actions than nodes. There is one per node exactly when every node is editable, so non-editable ones are skipped. |
| UssdServiceProperties.FillLogTargets | app/src/main/java/com/flowstable/upi/ussd/USSDService.kt:76-88 | SET_TEXT goes to every editable `android.widget.EditText` of the tree and to nothing else. The fill clicks nothing and releases none of the nodes it gathered. |
| UssdServiceProperties.IsSendLabelIgnoresCase | app/src/main/java/com/flowstable/upi/ussd/USSDService.kt:95-98 | The label test holds exactly when the text (null read as "") contains "send", "ok" or "reply" in any case. |
| UssdServiceProperties.CapitalOkIsSendLabel | app/src/main/java/com/flowstable/upi/ussd/USSDService.kt:95-98 | A button labelled "OK" is send-like. |
| UssdServiceProperties.ClickLogAtMostOne | app/src/main/java/com/flowstable/upi/ussd/USSDService.kt:90-103 | At most one action, and it is a click. There is no click exactly when no Button of the tree has a send-like label. |
| UssdServiceProperties.ClickLogFirstSendButton | app/src/main/java/com/flowstable/upi/ussd/USSDService.kt:94-101 | When the k-th Button in pre-order is the first with a send-like label, the click goes to that button. |
| UssdServiceProperties.MarkerAnywhereIsDialog | app/src/main/java/com/flowstable/upi/ussd/USSDService.kt:51-55 | Matching is by substring: a telephony package marker anywhere inside the package name, or a dialog class marker anywhere inside the class name, makes the node a dialog, whatever surrounds it. |
| UssdServiceProperties.PhonePackageIsDialog | app/src/main/java/com/flowstable/upi/ussd/USSDService.kt:51 | The package "com.android.phone" marks a dialog, whatever the class. |
| UssdServiceProperties.CapitalPhonePackageIsNotDialog | app/src/main/java/com/flowstable/upi/ussd/USSDService.kt:51-55 | Matching is case-sensitive: the package "COM.ANDROID.PHONE" with no class name is not a dialog. |
| UssdServiceProperties.WalkLogReleasesForest | app/src/main/java/com/flowstable/upi/ussd/USSDService.kt:69-73 | Counted as a multiset, the releases made over the first i children are exactly one per node of their subtrees. |
| UssdServiceProperties.WalkLogSparesRoot | app/src/main/java/com/flowstable/upi/ussd/USSDService.kt:64-74 | Text extraction never releases the root's own handle when no node below shares it; the root is left to the caller. |
| UssdServiceProperties.DispatchReleasesSourceOnce | app/src/main/java/com/flowstable/upi/ussd/USSDService.kt:19-43 | For a window event with a source, the source is released exactly once, and last, on every path. This assumes no node below the source shares its handle. |
| UssdServiceProperties.InjectCounts | app/src/main/java/com/flowstable/upi/ussd/USSDService.kt:37-41 | Fill then click performs at most one click, and only as the last action. It performs no action when the controller gave no reply. |
| UssdServiceProperties.DispatchClicksOnce | app/src/main/java/com/flowstable/upi/ussd/USSDService.kt:37-43 | One event clicks at most once. A click is the last call before the source is released, so it comes after every SET_TEXT. |
| UssdServiceProperties.DispatchActsOnlyOnReply | app/src/main/java/com/flowstable/upi/ussd/USSDService.kt:22-41 | Actions are performed only when all of these hold: the source is a USSD dialog, its text is non-empty, and the controller returned a reply for it. |
| UssdServiceProperties.DispatchCounts | app/src/main/java/com/flowstable/upi/ussd/USSDService.kt:22-43 | On the early-return paths an event performs no action. Otherwise its actions and clicks are those of fill-then-click. |
| UssdServiceProperties.DispatchStateChange | app/src/main/java/com/flowstable/upi/ussd/USSDService.kt:29-35 | The controller state moves only on a window event whose source is a USSD dialog with non-empty text while a payment is armed. The new state is then the controller's step on that text. |

## Left out

- `MainActivity.kt` and `ProcessingActivity.kt` are not part of this model:
  - permission prompts;
  - dialing `*99#` and the support number;
  - Toasts;
  - the settings lookup for the enabled service;
  - the 500 ms polling loop that renders status and opens the result screen.

  These are Android UI and I/O.
- `onInterrupt` and `onServiceConnected` are empty lifecycle hooks and are
  not modelled.
- `UPIData` is not part of this model. It is a record of the three strings
  the app reads: amount, UPI id and name.
- Case folding covers ASCII letters only (`Strings.LowerChar`). Kotlin's
  `lowercase()` and `contains(…, ignoreCase = true)` also fold other
  Unicode letters.
- Node identity is reduced to one handle per tree node. On Android,
  `getChild(i)` returns a fresh `AccessibilityNodeInfo` on each call. The
  model does not capture that two calls hand out two objects.
- DispatchReleasesSourceOnce: assumes no node below the source shares its
  handle. With a shared handle, the walk's own releases would also count
  for the source.
- The nodes gathered by `findNodesByClassName` are never recycled in the
  code. The model records exactly this, so no lemma claims that every
  handle is released.
- `Bundle` and `ACTION_ARGUMENT_SET_TEXT_CHARSEQUENCE` are folded into one
  log entry, "SET_TEXT with this text". The boolean results of
  `performAction` are not modelled, since the code ignores them.
- The `StringBuilder` and the `ArrayList` out-parameter are threaded as
  values. Each method returns the builder's or list's new contents, so
  aliasing of the shared builder is not modelled.
- An accessibility event carries only its type and its nullable source;
  none of its other fields is read.
- Concurrency is not modelled. The platform delivers events one at a time
  on one thread.

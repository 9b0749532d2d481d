/**
 * The accessibility service `USSDService`: on each window event it checks
 * that the window is a USSD dialog, extracts the dialog's text in
 * pre-order, asks the controller for the reply, fills every editable
 * `EditText` with it, clicks the first send-like `Button`, and recycles the
 * event's source node.
 */
module UssdService {
  import opened Options
  import opened Strings
  import opened Accessibility
  import opened UssdController

  /** `AccessibilityEvent.TYPE_WINDOW_STATE_CHANGED` and `TYPE_WINDOW_CONTENT_CHANGED`. */
  const TYPE_WINDOW_STATE_CHANGED: int := 0x20
  const TYPE_WINDOW_CONTENT_CHANGED: int := 0x800

  const EditTextClass: string := "android.widget.EditText"
  const ButtonClass: string := "android.widget.Button"

  /** The parts of an `AccessibilityEvent` the service reads; `getSource()` may be null. */
  datatype AccessibilityEvent = AccessibilityEvent(eventType: int, source: Option<Node>)

  // ---------------------------------------------------------------------
  // Pre-order traversal, the order every walk of the service visits nodes in

  /** The node itself, then the subtrees of its non-null children in index order. */
  function PreOrder(n: Node): (r: seq<Node>)
    decreases n, 1
    ensures |r| >= 1 && r[0] == n
  {
    [n] + ForestOf(n, |n.children|)
  }

  /** The pre-order of the subtrees of the first `i` children of `n` (null children skipped). */
  function ForestOf(n: Node, i: nat): seq<Node>
    requires i <= |n.children|
    decreases n, 0, i
  {
    if i == 0 then [] else ForestOf(n, i - 1) + ChildPreOrder(n, i - 1)
  }

  /** The pre-order of the subtree at child slot `i` of `n`; empty when `getChild(i)` is null. */
  function ChildPreOrder(n: Node, i: nat): seq<Node>
    requires i < |n.children|
    decreases n, 0, i
  {
    match n.children[i]
    case None => []
    case Some(c) => PreOrder(c)
  }

  // ---------------------------------------------------------------------
  // isUSSDDialog

  /** The telephony package names and the dialog class names the service accepts. */
  const PackageMarkers: seq<string> := ["com.android.phone", "com.samsung.android.phone", "telephony"]
  const ClassMarkers: seq<string> := ["AlertDialog", "UssdAlertActivity"]

  /** The allowlist test on the source node; a null name counts as "", and matching is case-sensitive. */
  predicate IsUssdDialog(node: Node)
    ensures IsUssdDialog(node) ==> node.packageName.Some? || node.className.Some?
  {
    var className := node.className.GetOr("");
    var packageName := node.packageName.GetOr("");
    Contains(packageName, "com.android.phone", false) ||
    Contains(packageName, "com.samsung.android.phone", false) ||
    Contains(packageName, "telephony", false) ||
    Contains(className, "AlertDialog", false) ||
    Contains(className, "UssdAlertActivity", false)
  }

  // ---------------------------------------------------------------------
  // extractUSSDText / extractTextRecursive

  /** What one node appends to the builder: its text and a space, or nothing when the text is null. */
  function Piece(n: Node): string
  {
    match n.text
    case Some(t) => t + " "
    case None => ""
  }

  /** The pieces of `ns`, in order. */
  function TextOf(ns: seq<Node>): string
  {
    if ns == [] then "" else TextOf(ns[..|ns| - 1]) + Piece(ns[|ns| - 1])
  }

  /**
   * The text `extractUSSDText` builds for the tree under `n`: the node's
   * piece, then the text of each non-null child in index order.
   */
  function ExtractText(n: Node): (r: string)
    decreases n, 1
    ensures |r| >= |Piece(n)| && r[..|Piece(n)|] == Piece(n)
  {
    Piece(n) + ChildrenText(n, |n.children|)
  }

  /** The text of the subtrees of the first `i` children of `n`. */
  function ChildrenText(n: Node, i: nat): string
    requires i <= |n.children|
    decreases n, 0, i
  {
    if i == 0 then "" else ChildrenText(n, i - 1) + ChildText(n, i - 1)
  }

  function ChildText(n: Node, i: nat): string
    requires i < |n.children|
    decreases n, 0, i
  {
    match n.children[i]
    case None => ""
    case Some(c) => ExtractText(c)
  }

  /**
   * The `recycle()` calls `extractTextRecursive` makes while walking the
   * first `i` children of `n`: each non-null child is recycled right after
   * its own subtree has been walked.
   */
  function WalkLog(n: Node, i: nat): (r: seq<LogEntry>)
    requires i <= |n.children|
    decreases n, 1, i
    ensures forall j :: 0 <= j < |r| ==> r[j].Recycled?
  {
    if i == 0 then [] else WalkLog(n, i - 1) + ChildWalkLog(n, i - 1)
  }

  /** The calls for child slot `i` of `n`: the child's own walk, then its `recycle()`. */
  function ChildWalkLog(n: Node, i: nat): (r: seq<LogEntry>)
    requires i < |n.children|
    decreases n, 0, i
    ensures forall j :: 0 <= j < |r| ==> r[j].Recycled?
    ensures n.children[i].Some? ==> r != [] && r[|r| - 1] == Recycled(n.children[i].value.handle)
  {
    match n.children[i]
    case None => []
    case Some(c) => WalkLog(c, |c.children|) + [Recycled(c.handle)]
  }

  // ---------------------------------------------------------------------
  // findNodesByClassName

  /** The nodes of `ns` whose class name is exactly `className`, in order. */
  function WithClass(ns: seq<Node>, className: string): (r: seq<Node>)
    ensures |r| <= |ns|
    ensures forall j :: 0 <= j < |r| ==> r[j].className == Some(className)
  {
    if ns == [] then []
    else
      var last := ns[|ns| - 1];
      WithClass(ns[..|ns| - 1], className) + (if last.className == Some(className) then [last] else [])
  }

  // ---------------------------------------------------------------------
  // fillUSSDInput

  /** One `ACTION_SET_TEXT` with `text` for each editable node of `ns`, in order. */
  function SetTexts(ns: seq<Node>, text: string): (r: seq<LogEntry>)
    ensures forall j :: 0 <= j < |r| ==> r[j].Performed? && r[j].action == SetText(text)
  {
    if ns == [] then []
    else
      var last := ns[|ns| - 1];
      SetTexts(ns[..|ns| - 1], text) + (if last.isEditable then [Performed(last.handle, SetText(text))] else [])
  }

  /** The actions `fillUSSDInput(root, text)` performs. */
  function FillLog(root: Node, text: string): (r: seq<LogEntry>)
    ensures forall j :: 0 <= j < |r| ==> r[j].Performed? && r[j].action == SetText(text)
  {
    SetTexts(WithClass(PreOrder(root), EditTextClass), text)
  }

  // ---------------------------------------------------------------------
  // clickSendButton

  /** The label test: the lower-cased text (null read as "") contains "send", "ok" or "reply". */
  predicate IsSendLabel(text: Option<string>)
    ensures IsSendLabel(text) ==> text.Some? && |text.value| >= 2
  {
    var buttonText := Lower(text.GetOr(""));
    Contains(buttonText, "send", false) || Contains(buttonText, "ok", false) || Contains(buttonText, "reply", false)
  }

  /** The index of the first node of `ns` with a send-like label. */
  function FirstSendIndex(ns: seq<Node>): (r: Option<nat>)
    ensures r.Some? ==> r.value < |ns| && IsSendLabel(ns[r.value].text)
    ensures r.Some? ==> forall j :: 0 <= j < r.value ==> !IsSendLabel(ns[j].text)
    ensures r.None? <==> forall j :: 0 <= j < |ns| ==> !IsSendLabel(ns[j].text)
  {
    if ns == [] then None
    else if IsSendLabel(ns[0].text) then Some(0)
    else match FirstSendIndex(ns[1..])
      case None => None
      case Some(k) => Some(k + 1)
  }

  /** The actions `clickSendButton(root)` performs: one click on the first send-like button, if any. */
  function ClickLog(root: Node): (r: seq<LogEntry>)
    ensures |r| <= 1
    ensures forall j :: 0 <= j < |r| ==> r[j].Performed? && r[j].action == Click
  {
    var buttons := WithClass(PreOrder(root), ButtonClass);
    match FirstSendIndex(buttons)
    case None => []
    case Some(k) => [Performed(buttons[k].handle, Click)]
  }

  // ---------------------------------------------------------------------
  // onAccessibilityEvent

  /** The controller state and the host calls one event leaves behind. */
  datatype Outcome = Outcome(state: State, log: seq<LogEntry>)

  predicate IsWindowChange(eventType: int)
  {
    eventType == TYPE_WINDOW_STATE_CHANGED || eventType == TYPE_WINDOW_CONTENT_CHANGED
  }

  /** The actions taken on the tree once the controller has chosen a reply, or none without one. */
  function Inject(root: Node, input: Option<string>): (r: seq<LogEntry>)
    ensures input.None? ==> r == []
    ensures forall j :: 0 <= j < |r| ==> r[j].Performed?
    ensures input.Some? ==> forall j :: 0 <= j < |r| - 1 ==> r[j].action == SetText(input.value)
  {
    if input.Some? then FillLog(root, input.value) + ClickLog(root) else []
  }

  /**
   * What `onAccessibilityEvent(event)` does, given the controller's state
   * and armed payment beforehand.
   */
  function Dispatch(event: Option<AccessibilityEvent>, state: State, payment: Option<UpiData>): (o: Outcome)
    ensures event.None? || !IsWindowChange(event.value.eventType) || event.value.source.None?
      ==> o == Outcome(state, [])
    ensures o.log != [] ==>
      event.Some? && event.value.source.Some? && o.log[|o.log| - 1] == Recycled(event.value.source.value.handle)
  {
    if event.None? || !IsWindowChange(event.value.eventType) || event.value.source.None? then
      Outcome(state, [])
    else
      var source := event.value.source.value;
      if !IsUssdDialog(source) then Outcome(state, [Recycled(source.handle)])
      else
        var ussdText := ExtractText(source);
        var walk := WalkLog(source, |source.children|);
        if ussdText == "" then Outcome(state, walk + [Recycled(source.handle)])
        else
          var t := Step(state, payment, ussdText);
          Outcome(t.state, walk + Inject(source, t.input) + [Recycled(source.handle)])
  }

  // ---------------------------------------------------------------------
  // Helper facts the methods below rely on

  lemma {:induction false} TextOfAppend(a: seq<Node>, b: seq<Node>)
    ensures TextOf(a + b) == TextOf(a) + TextOf(b)
    decreases |b|
  {
    if b != [] {
      var b' := b[..|b| - 1];
      assert (a + b)[..|a + b| - 1] == a + b';
      TextOfAppend(a, b');
    } else {
      assert a + b == a;
    }
  }

  lemma {:induction false} WithClassAppend(a: seq<Node>, b: seq<Node>, className: string)
    ensures WithClass(a + b, className) == WithClass(a, className) + WithClass(b, className)
    decreases |b|
  {
    if b != [] {
      var b' := b[..|b| - 1];
      assert (a + b)[..|a + b| - 1] == a + b';
      WithClassAppend(a, b', className);
    } else {
      assert a + b == a;
    }
  }

  /** Walking one more child slot appends that child's walk and then its `recycle()`. */
  lemma WalkLogStep(n: Node, i: nat, base: seq<LogEntry>, before: seq<LogEntry>, after: seq<LogEntry>)
    requires i < |n.children|
    requires before == base + WalkLog(n, i)
    requires n.children[i].None? ==> after == before
    requires n.children[i].Some? ==>
      after == before + WalkLog(n.children[i].value, |n.children[i].value.children|) + [Recycled(n.children[i].value.handle)]
    ensures after == base + WalkLog(n, i + 1)
  {
    assert WalkLog(n, i + 1) == WalkLog(n, i) + ChildWalkLog(n, i);
  }

  lemma FindStep(n: Node, i: nat, className: string, base: seq<Node>, before: seq<Node>, after: seq<Node>)
    requires i < |n.children|
    requires before == base + WithClass(ForestOf(n, i), className)
    requires n.children[i].None? ==> after == before
    requires n.children[i].Some? ==> after == before + WithClass(PreOrder(n.children[i].value), className)
    ensures after == base + WithClass(ForestOf(n, i + 1), className)
  {
    assert ForestOf(n, i + 1) == ForestOf(n, i) + ChildPreOrder(n, i);
    WithClassAppend(ForestOf(n, i), ChildPreOrder(n, i), className);
  }

  /** Regrouping a four-part concatenation, which the event handler's log needs. */
  lemma AppendThree<T>(a: seq<T>, b: seq<T>, c: seq<T>, d: seq<T>)
    ensures a + b + c + d == a + (b + c + d)
  {
  }

  lemma SetTextsStep(ns: seq<Node>, k: nat, text: string, base: seq<LogEntry>, before: seq<LogEntry>, after: seq<LogEntry>)
    requires k < |ns|
    requires before == base + SetTexts(ns[..k], text)
    requires ns[k].isEditable ==> after == before + [Performed(ns[k].handle, SetText(text))]
    requires !ns[k].isEditable ==> after == before
    ensures after == base + SetTexts(ns[..k + 1], text)
  {
    assert ns[..k + 1][..k] == ns[..k];
  }

  // ---------------------------------------------------------------------
  // The service

  /** `USSDService`, wired to the host it runs in and the controller singleton. */
  class Service {
    const host: Host
    const controller: Controller

    constructor (host: Host, controller: Controller)
      ensures this.host == host && this.controller == controller
    {
      this.host := host;
      this.controller := controller;
    }

    /**
     * Handles one accessibility event; the controller's new state and the
     * calls made into the host are exactly those `Dispatch` describes.
     */
    method OnAccessibilityEvent(event: Option<AccessibilityEvent>)
      modifies host, controller`currentState
      ensures controller.currentState == Dispatch(event, old(controller.currentState), controller.currentPayment).state
      ensures host.log == old(host.log) + Dispatch(event, old(controller.currentState), controller.currentPayment).log
    {
      if event.None? {
        return;
      }
      var e := event.value;
      if e.eventType != TYPE_WINDOW_STATE_CHANGED && e.eventType != TYPE_WINDOW_CONTENT_CHANGED {
        return;
      }
      if e.source.None? {
        return;
      }
      var source := e.source.value;
      if !IsUssdDialog(source) {
        host.Recycle(source);
        return;
      }
      var ussdText := ExtractUssdText(source);
      if |ussdText| == 0 {
        host.Recycle(source);
        return;
      }
      ghost var walked := host.log;
      var nextInput := controller.GetNextInput(ussdText);
      if nextInput.Some? {
        FillUssdInput(source, nextInput.value);
        ClickSendButton(source);
      }
      assert host.log == walked + Inject(source, nextInput);
      host.Recycle(source);
      AppendThree(old(host.log), WalkLog(source, |source.children|), Inject(source, nextInput), [Recycled(source.handle)]);
    }

    /** The text of the tree under `node`, recycling every child handle it walks. */
    method ExtractUssdText(node: Node) returns (s: string)
      modifies host
      ensures s == ExtractText(node)
      ensures host.log == old(host.log) + WalkLog(node, |node.children|)
    {
      s := ExtractTextRecursive(node, "");
    }

    /** Appends the pieces of the tree under `node` to `builder`, in pre-order. */
    method ExtractTextRecursive(node: Node, builder: string) returns (out: string)
      modifies host
      decreases node
      ensures out == builder + ExtractText(node)
      ensures host.log == old(host.log) + WalkLog(node, |node.children|)
    {
      out := builder + Piece(node);
      for i := 0 to |node.children|
        invariant out == builder + Piece(node) + ChildrenText(node, i)
        invariant host.log == old(host.log) + WalkLog(node, i)
      {
        ghost var logBefore := host.log;
        if node.children[i].Some? {
          var child := node.children[i].value;
          out := ExtractTextRecursive(child, out);
          host.Recycle(child);
        }
        WalkLogStep(node, i, old(host.log), logBefore, host.log);
      }
    }

    /** Appends to `outList` every node under `root` whose class name is `className`, in pre-order. */
    method FindNodesByClassName(root: Node, className: string, outList: seq<Node>) returns (out: seq<Node>)
      decreases root
      ensures out == outList + WithClass(PreOrder(root), className)
    {
      out := outList;
      if root.className == Some(className) {
        out := out + [root];
      }
      for i := 0 to |root.children|
        invariant out == outList + WithClass([root], className) + WithClass(ForestOf(root, i), className)
      {
        ghost var before := out;
        if root.children[i].Some? {
          out := FindNodesByClassName(root.children[i].value, className, out);
        }
        FindStep(root, i, className, outList + WithClass([root], className), before, out);
      }
      WithClassAppend([root], ForestOf(root, |root.children|), className);
    }

    /** Sets `text` on every editable `EditText` under `root`. */
    method FillUssdInput(root: Node, text: string)
      modifies host
      ensures host.log == old(host.log) + FillLog(root, text)
    {
      var editTexts := FindNodesByClassName(root, EditTextClass, []);
      for k := 0 to |editTexts|
        invariant host.log == old(host.log) + SetTexts(editTexts[..k], text)
      {
        ghost var before := host.log;
        if editTexts[k].isEditable {
          host.PerformAction(editTexts[k], SetText(text));
        }
        SetTextsStep(editTexts, k, text, old(host.log), before, host.log);
      }
      assert editTexts[..|editTexts|] == editTexts;
    }

    /** Clicks the first `Button` under `root` whose label is send-like, and nothing else. */
    method ClickSendButton(root: Node)
      modifies host
      ensures host.log == old(host.log) + ClickLog(root)
    {
      var buttons := FindNodesByClassName(root, ButtonClass, []);
      assert buttons == WithClass(PreOrder(root), ButtonClass);
      for k := 0 to |buttons|
        invariant host.log == old(host.log)
        invariant forall j :: 0 <= j < k ==> !IsSendLabel(buttons[j].text)
      {
        if IsSendLabel(buttons[k].text) {
          host.PerformAction(buttons[k], Click);
          assert FirstSendIndex(buttons) == Some(k);
          return;
        }
      }
    }
  }
}

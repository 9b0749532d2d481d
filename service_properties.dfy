/**
 * What the accessibility service's walks and its event dispatch promise,
 * stated over the functions of `UssdService`: the extracted text is the
 * pre-order concatenation of the node pieces, the class search keeps exactly
 * the nodes of that class, the fill and the click touch only the nodes they
 * should, and one event releases its source exactly once.
 */
module UssdServiceProperties {
  import opened Options
  import opened Strings
  import opened Accessibility
  import opened UssdController
  import opened UssdService

  // ---------------------------------------------------------------------
  // extractUSSDText is a pre-order concatenation

  /** The structural walk of `extractTextRecursive` gives the pieces of the pre-order, in order. */
  lemma {:induction false} ExtractTextIsPreOrder(n: Node)
    ensures ExtractText(n) == TextOf(PreOrder(n))
    decreases n, 1
  {
    ChildrenTextIsForest(n, |n.children|);
    TextOfAppend([n], ForestOf(n, |n.children|));
    assert TextOf([n]) == Piece(n) by {
      assert [n][..0] == [];
    }
  }

  lemma {:induction false} ChildrenTextIsForest(n: Node, i: nat)
    requires i <= |n.children|
    ensures ChildrenText(n, i) == TextOf(ForestOf(n, i))
    decreases n, 0, i
  {
    if i > 0 {
      var prev := ForestOf(n, i - 1);
      var sub := ChildPreOrder(n, i - 1);
      assert ForestOf(n, i) == prev + sub;
      assert ChildText(n, i - 1) == TextOf(sub) by {
        if n.children[i - 1].Some? {
          ExtractTextIsPreOrder(n.children[i - 1].value);
        }
      }
      ChildrenTextIsForest(n, i - 1);
      TextOfAppend(prev, sub);
    }
  }

  /** The text of a list of nodes is empty exactly when none of them has non-null text. */
  lemma {:induction false} TextOfEmpty(ns: seq<Node>)
    ensures TextOf(ns) == "" <==> forall j :: 0 <= j < |ns| ==> ns[j].text.None?
  {
    if ns != [] {
      var init, last := ns[..|ns| - 1], ns[|ns| - 1];
      assert TextOf(ns) == TextOf(init) + Piece(last);
      assert Piece(last) == "" <==> last.text.None?;
      TextOfEmpty(init);
      assert forall j :: 0 <= j < |init| ==> init[j] == ns[j];
    }
  }

  /**
   * The extracted text is empty exactly when no node of the tree has
   * non-null text; a node whose text is "" still contributes " ".
   */
  lemma ExtractTextEmptyIff(n: Node)
    ensures ExtractText(n) == "" <==> forall m :: m in PreOrder(n) ==> m.text.None?
  {
    ExtractTextIsPreOrder(n);
    TextOfEmpty(PreOrder(n));
  }

  /** A node whose text is "" contributes a single space. */
  lemma EmptyTextCounts(n: Node)
    requires n.text == Some("")
    ensures |ExtractText(n)| >= 1 && ExtractText(n)[0] == ' '
  {
  }

  /** A root without text over the two texts "Enter" and "Amount" gives "Enter Amount ". */
  lemma EnterAmountTree(root: Node, first: Node, second: Node)
    requires first == Node(1, Some("Enter"), None, None, false, [])
    requires second == Node(2, Some("Amount"), None, None, false, [])
    requires root == Node(0, None, None, None, false, [Some(first), None, Some(second)])
    ensures ExtractText(root) == "Enter Amount "
  {
    assert ExtractText(first) == "Enter" + " " + "";
    assert ExtractText(second) == "Amount" + " " + "";
    assert ChildrenText(root, 1) == "Enter ";
    assert ChildrenText(root, 2) == "Enter ";
    assert ChildrenText(root, 3) == "Enter " + "Amount ";
  }

  // ---------------------------------------------------------------------
  // findNodesByClassName keeps exactly the nodes of the class

  /** The nodes kept are exactly those of `ns` whose class name is `className`. */
  lemma {:induction false} WithClassMembers(ns: seq<Node>, className: string)
    ensures forall m :: m in WithClass(ns, className) <==> m in ns && m.className == Some(className)
  {
    if ns != [] {
      var init := ns[..|ns| - 1];
      WithClassMembers(init, className);
      assert ns == init + [ns[|ns| - 1]];
    }
  }

  // ---------------------------------------------------------------------
  // fillUSSDInput sets the text on the editable EditTexts and nothing else

  /** Each action is a SET_TEXT of `text` on an editable node of `ns`, and every editable node gets one. */
  lemma {:induction false} SetTextsTargets(ns: seq<Node>, text: string)
    ensures forall e :: e in SetTexts(ns, text) ==>
      exists m :: m in ns && m.isEditable && e == Performed(m.handle, SetText(text))
    ensures forall m :: m in ns && m.isEditable ==> Performed(m.handle, SetText(text)) in SetTexts(ns, text)
  {
    if ns != [] {
      var init := ns[..|ns| - 1];
      SetTextsTargets(init, text);
      assert ns == init + [ns[|ns| - 1]];
    }
  }

  /** One action per node exactly when every node is editable; never more actions than nodes. */
  lemma {:induction false} SetTextsLength(ns: seq<Node>, text: string)
    ensures |SetTexts(ns, text)| <= |ns|
    ensures |SetTexts(ns, text)| == |ns| <==> forall j :: 0 <= j < |ns| ==> ns[j].isEditable
  {
    if ns != [] {
      var init := ns[..|ns| - 1];
      SetTextsLength(init, text);
      assert forall j :: 0 <= j < |init| ==> init[j] == ns[j];
    }
  }

  /**
   * `fillUSSDInput(root, text)` performs SET_TEXT with `text` on every
   * editable `android.widget.EditText` of the tree and on nothing else; it
   * clicks nothing and recycles none of the nodes it gathered.
   */
  lemma FillLogTargets(root: Node, text: string)
    ensures forall e :: e in FillLog(root, text) ==>
      exists m :: m in PreOrder(root) && m.className == Some(EditTextClass) && m.isEditable &&
        e == Performed(m.handle, SetText(text))
    ensures forall m :: m in PreOrder(root) && m.className == Some(EditTextClass) && m.isEditable ==>
      Performed(m.handle, SetText(text)) in FillLog(root, text)
    ensures ClickCount(FillLog(root, text)) == 0
    ensures forall h :: RecycleCount(FillLog(root, text), h) == 0
  {
    var editTexts := WithClass(PreOrder(root), EditTextClass);
    WithClassMembers(PreOrder(root), EditTextClass);
    SetTextsTargets(editTexts, text);
    NoClickEntries(FillLog(root, text));
    forall h
      ensures RecycleCount(FillLog(root, text), h) == 0
    {
      assert Recycled(h) !in FillLog(root, text);
    }
  }

  // ---------------------------------------------------------------------
  // clickSendButton clicks the first send-like button and stops

  /** An ASCII string without upper-case letters is its own lower-case form. */
  lemma LowerFixed(s: string)
    requires forall i :: 0 <= i < |s| ==> !('A' <= s[i] <= 'Z')
    ensures Lower(s) == s
  {
    assert forall i :: 0 <= i < |s| ==> Lower(s)[i] == s[i];
  }

  /** Lower-casing then testing for "send", "ok" and "reply" is a case-insensitive test of the text itself. */
  lemma IsSendLabelIgnoresCase(text: Option<string>)
    ensures IsSendLabel(text) <==>
      Contains(text.GetOr(""), "send", true) ||
      Contains(text.GetOr(""), "ok", true) ||
      Contains(text.GetOr(""), "reply", true)
  {
    LowerFixed("send");
    LowerFixed("ok");
    LowerFixed("reply");
    LowerThenContains(text.GetOr(""), "send");
    LowerThenContains(text.GetOr(""), "ok");
    LowerThenContains(text.GetOr(""), "reply");
  }

  /** A button labelled "OK" in capitals is send-like. */
  lemma CapitalOkIsSendLabel(text: string)
    requires text == "OK"
    ensures IsSendLabel(Some(text))
  {
    IsSendLabelIgnoresCase(Some(text));
    assert RegionMatches(text, 0, "ok", true);
  }

  /**
   * `clickSendButton(root)` performs at most one action, a click, and
   * clicks exactly when some `android.widget.Button` of the tree has a
   * send-like label.
   */
  lemma ClickLogAtMostOne(root: Node)
    ensures |ClickLog(root)| <= 1
    ensures ClickCount(ClickLog(root)) == |ClickLog(root)|
    ensures ClickLog(root) == [] <==>
      forall m :: m in PreOrder(root) && m.className == Some(ButtonClass) ==> !IsSendLabel(m.text)
  {
    var buttons := WithClass(PreOrder(root), ButtonClass);
    WithClassMembers(PreOrder(root), ButtonClass);
    match FirstSendIndex(buttons)
    case None =>
      forall m | m in PreOrder(root) && m.className == Some(ButtonClass)
        ensures !IsSendLabel(m.text)
      {
        assert m in buttons;
      }
    case Some(k) =>
      assert buttons[k] in buttons;
      assert ClickLog(root)[..0] == [];
  }

  /**
   * When the `k`-th `android.widget.Button` in pre-order is the first with a
   * send-like label, the click goes to that button.
   */
  lemma ClickLogFirstSendButton(root: Node, k: nat)
    requires k < |WithClass(PreOrder(root), ButtonClass)|
    requires IsSendLabel(WithClass(PreOrder(root), ButtonClass)[k].text)
    requires forall j :: 0 <= j < k ==> !IsSendLabel(WithClass(PreOrder(root), ButtonClass)[j].text)
    ensures ClickLog(root) == [Performed(WithClass(PreOrder(root), ButtonClass)[k].handle, Click)]
  {
    var buttons := WithClass(PreOrder(root), ButtonClass);
    var r := FirstSendIndex(buttons);
    assert r.Some?;
    assert r.value == k;
  }

  // ---------------------------------------------------------------------
  // isUSSDDialog

  /**
   * Matching is by substring: one of the package markers anywhere inside the
   * package name, or one of the class markers anywhere inside the class
   * name, makes the node a dialog whatever surrounds it.
   */
  lemma MarkerAnywhereIsDialog(node: Node, pre: string, marker: string, post: string)
    requires (marker in PackageMarkers && node.packageName == Some(pre + marker + post)) ||
             (marker in ClassMarkers && node.className == Some(pre + marker + post))
    ensures IsUssdDialog(node)
  {
    var name := pre + marker + post;
    forall j | 0 <= j < |marker|
      ensures name[|pre| + j] == marker[j]
    {
    }
    assert RegionMatches(name, |pre|, marker, false);
  }

  /** A package "com.android.phone" marks a dialog whatever the class name. */
  lemma PhonePackageIsDialog(node: Node, packageName: string)
    requires packageName == "com.android.phone"
    requires node.packageName == Some(packageName)
    ensures IsUssdDialog(node)
  {
    assert RegionMatches(packageName, 0, "com.android.phone", false);
  }

  /** Matching is case-sensitive: the same package name in capitals is not a dialog. */
  lemma CapitalPhonePackageIsNotDialog(node: Node, packageName: string)
    requires packageName == "COM.ANDROID.PHONE"
    requires node.packageName == Some(packageName) && node.className.None?
    ensures !IsUssdDialog(node)
  {
    AbsentCharRulesOut(packageName, "com.android.phone", false, 0);
    AbsentCharRulesOut(packageName, "com.samsung.android.phone", false, 0);
    AbsentCharRulesOut(packageName, "telephony", false, 0);
  }

  // ---------------------------------------------------------------------
  // The walk releases every child it reaches

  /** One `recycle()` for each node of `ns`, in order. */
  function Recycles(ns: seq<Node>): (r: seq<LogEntry>)
    ensures |r| == |ns|
    ensures forall j :: 0 <= j < |ns| ==> r[j] == Recycled(ns[j].handle)
  {
    if ns == [] then [] else Recycles(ns[..|ns| - 1]) + [Recycled(ns[|ns| - 1].handle)]
  }

  lemma RecyclesAppend(a: seq<Node>, b: seq<Node>)
    ensures Recycles(a + b) == Recycles(a) + Recycles(b)
  {
    assert forall j :: 0 <= j < |a + b| ==> Recycles(a + b)[j] == (Recycles(a) + Recycles(b))[j];
  }

  /**
   * `extractTextRecursive` recycles each non-null child it reaches exactly
   * once: its calls are, as a multiset, one `recycle()` per node below the
   * root (each child after its own subtree, so not in pre-order).
   */
  lemma {:induction false} WalkLogReleasesForest(n: Node, i: nat)
    requires i <= |n.children|
    ensures multiset(WalkLog(n, i)) == multiset(Recycles(ForestOf(n, i)))
    decreases n, 1, i
  {
    if i > 0 {
      var j := i - 1;
      WalkLogReleasesForest(n, j);
      ChildWalkReleases(n, j);
      WalkReleasesStep(n, j);
    }
  }

  lemma WalkReleasesStep(n: Node, j: nat)
    requires j < |n.children|
    requires multiset(WalkLog(n, j)) == multiset(Recycles(ForestOf(n, j)))
    requires multiset(ChildWalkLog(n, j)) == multiset(Recycles(ChildPreOrder(n, j)))
    ensures multiset(WalkLog(n, j + 1)) == multiset(Recycles(ForestOf(n, j + 1)))
  {
    var prev := ForestOf(n, j);
    var sub := ChildPreOrder(n, j);
    assert ForestOf(n, j + 1) == prev + sub;
    assert WalkLog(n, j + 1) == WalkLog(n, j) + ChildWalkLog(n, j);
    RecyclesAppend(prev, sub);
  }

  lemma {:induction false} ChildWalkReleases(n: Node, i: nat)
    requires i < |n.children|
    ensures multiset(ChildWalkLog(n, i)) == multiset(Recycles(ChildPreOrder(n, i)))
    decreases n, 0, i
  {
    if n.children[i].Some? {
      var c := n.children[i].value;
      var forest := ForestOf(c, |c.children|);
      assert ChildPreOrder(n, i) == [c] + forest;
      RecyclesAppend([c], forest);
      assert Recycles([c]) == [Recycled(c.handle)];
      WalkLogReleasesForest(c, |c.children|);
    }
  }

  /** The walk never recycles the root's own handle unless a node below the root carries it too. */
  lemma {:induction false} WalkLogSparesRoot(n: Node)
    ensures (forall m :: m in ForestOf(n, |n.children|) ==> m.handle != n.handle) ==>
      RecycleCount(WalkLog(n, |n.children|), n.handle) == 0
  {
    var forest := ForestOf(n, |n.children|);
    WalkLogReleasesForest(n, |n.children|);
    if forall m :: m in forest ==> m.handle != n.handle {
      assert Recycled(n.handle) !in Recycles(forest);
    }
  }

  // ---------------------------------------------------------------------
  // onAccessibilityEvent

  /**
   * On every path after the source is obtained, `recycle()` is called on it
   * exactly once, and last — provided no node below it shares its handle.
   */
  lemma {:induction false} DispatchReleasesSourceOnce(eventType: int, source: Node, state: State, payment: Option<UpiData>)
    requires IsWindowChange(eventType)
    requires forall m :: m in ForestOf(source, |source.children|) ==> m.handle != source.handle
    ensures var o := Dispatch(Some(AccessibilityEvent(eventType, Some(source))), state, payment);
      o.log != [] && o.log[|o.log| - 1] == Recycled(source.handle) &&
      RecycleCount(o.log, source.handle) == 1
  {
    var o := Dispatch(Some(AccessibilityEvent(eventType, Some(source))), state, payment);
    WalkLogSparesRoot(source);
    if IsUssdDialog(source) && ExtractText(source) != "" {
      var t := Step(state, payment, ExtractText(source));
      if t.input.Some? {
        FillLogTargets(source, t.input.value);
        ClickLogAtMostOne(source);
        assert Recycled(source.handle) !in ClickLog(source);
      }
      assert Recycled(source.handle) !in Inject(source, t.input);
    }
  }

  /** Counts of the log of an event that reached the controller. */
  lemma {:induction false} InjectCounts(source: Node, input: Option<string>)
    ensures ClickCount(Inject(source, input)) <= 1
    ensures ClickCount(Inject(source, input)) == 1 ==>
      var inject := Inject(source, input);
      inject[|inject| - 1].Performed? && inject[|inject| - 1].action == Click
    ensures ActionCount(Inject(source, input)) > 0 ==> input.Some?
  {
    if input.Some? {
      var fill := FillLog(source, input.value);
      var click := ClickLog(source);
      FillLogTargets(source, input.value);
      ClickLogAtMostOne(source);
      CountsAppend(fill, click);
      if click != [] {
        assert click[..|click| - 1] == [];
      }
    }
  }

  /**
   * One event performs at most one click, and a click is the last action
   * before the source is released.
   */
  lemma {:induction false} DispatchClicksOnce(event: Option<AccessibilityEvent>, state: State, payment: Option<UpiData>)
    ensures var o := Dispatch(event, state, payment);
      ClickCount(o.log) <= 1
    ensures var o := Dispatch(event, state, payment);
      ClickCount(o.log) == 1 ==> |o.log| >= 2 && o.log[|o.log| - 2].Performed? && o.log[|o.log| - 2].action == Click
  {
    DispatchCounts(event, state, payment);
    if event.Some? && event.value.source.Some? {
      var source := event.value.source.value;
      InjectCounts(source, Step(state, payment, ExtractText(source)).input);
    }
  }

  /**
   * Actions are performed only on a USSD dialog with non-empty text for
   * which the controller chose a reply.
   */
  lemma {:induction false} DispatchActsOnlyOnReply(event: Option<AccessibilityEvent>, state: State, payment: Option<UpiData>)
    ensures var o := Dispatch(event, state, payment);
      ActionCount(o.log) > 0 ==>
        event.Some? && event.value.source.Some? &&
        IsUssdDialog(event.value.source.value) && ExtractText(event.value.source.value) != "" &&
        Step(state, payment, ExtractText(event.value.source.value)).input.Some?
  {
    DispatchCounts(event, state, payment);
    if event.Some? && event.value.source.Some? {
      var source := event.value.source.value;
      InjectCounts(source, Step(state, payment, ExtractText(source)).input);
    }
  }

  /** The counts of the log of one event, split by the path it takes. */
  lemma {:induction false} DispatchCounts(event: Option<AccessibilityEvent>, state: State, payment: Option<UpiData>)
    ensures var o := Dispatch(event, state, payment);
      (event.None? || !IsWindowChange(event.value.eventType) || event.value.source.None? ||
       !IsUssdDialog(event.value.source.value) || ExtractText(event.value.source.value) == "") ==>
        ActionCount(o.log) == 0 && ClickCount(o.log) == 0
    ensures var o := Dispatch(event, state, payment);
      (event.Some? && IsWindowChange(event.value.eventType) && event.value.source.Some? &&
       IsUssdDialog(event.value.source.value) && ExtractText(event.value.source.value) != "") ==>
        var source := event.value.source.value;
        var inject := Inject(source, Step(state, payment, ExtractText(source)).input);
        ActionCount(o.log) == ActionCount(inject) && ClickCount(o.log) == ClickCount(inject) &&
        (inject != [] ==> o.log[|o.log| - 2] == inject[|inject| - 1])
  {
    var o := Dispatch(event, state, payment);
    if event.Some? && IsWindowChange(event.value.eventType) && event.value.source.Some? {
      var source := event.value.source.value;
      var walk := WalkLog(source, |source.children|);
      var release := [Recycled(source.handle)];
      WalkLogSparesRoot(source);
      RecyclesOnlyCountNothing(walk);
      RecyclesOnlyCountNothing(release);
      if !IsUssdDialog(source) {
        assert o.log == release;
      } else if ExtractText(source) == "" {
        CountsAppend(walk, release);
      } else {
        var inject := Inject(source, Step(state, payment, ExtractText(source)).input);
        assert o.log == (walk + inject) + release;
        CountsAppend(walk, inject);
        CountsAppend(walk + inject, release);
      }
    }
  }

  /**
   * The controller state moves only on a USSD dialog with non-empty text
   * while a payment is armed; the new state is then the controller's step
   * on that text.
   */
  lemma {:induction false} DispatchStateChange(event: Option<AccessibilityEvent>, state: State, payment: Option<UpiData>)
    ensures var o := Dispatch(event, state, payment);
      o.state != state ==>
        payment.Some? && event.Some? && IsWindowChange(event.value.eventType) && event.value.source.Some? &&
        IsUssdDialog(event.value.source.value) && ExtractText(event.value.source.value) != "" &&
        o.state == Step(state, payment, ExtractText(event.value.source.value)).state
  {
  }
}

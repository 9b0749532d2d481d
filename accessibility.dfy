/**
 * The host's accessibility layer as the core sees it: a tree of nodes, each
 * reached through a handle, and the two things the core does to handles —
 * perform an action on one, and recycle it. The host records both in an
 * append-only log, so that what the core did can be stated afterwards.
 */
module Accessibility {
  import opened Options

  /**
   * One `AccessibilityNodeInfo`: nullable text, class name and package name,
   * the editable flag, and its children; `getChild(i)` may give null, so a
   * child slot is optional.
   */
  datatype Node = Node(
    handle: nat,
    text: Option<string>,
    className: Option<string>,
    packageName: Option<string>,
    isEditable: bool,
    children: seq<Option<Node>>)

  /** `ACTION_SET_TEXT` with its text argument, and `ACTION_CLICK`. */
  datatype NodeAction = SetText(text: string) | Click

  /** One call into the host: `performAction` or `recycle` on a handle. */
  datatype LogEntry = Performed(handle: nat, action: NodeAction) | Recycled(handle: nat)

  /** How many times `recycle()` was called on handle `h`. */
  function RecycleCount(log: seq<LogEntry>, h: nat): nat
  {
    multiset(log)[Recycled(h)]
  }

  /** How many `performAction` calls were clicks. */
  function ClickCount(log: seq<LogEntry>): nat
  {
    if log == [] then 0
    else ClickCount(log[..|log| - 1]) + (if log[|log| - 1].Performed? && log[|log| - 1].action == Click then 1 else 0)
  }

  /** How many `performAction` calls there were of any kind. */
  function ActionCount(log: seq<LogEntry>): nat
  {
    if log == [] then 0
    else ActionCount(log[..|log| - 1]) + (if log[|log| - 1].Performed? then 1 else 0)
  }

  /** Both counts add up over a log made of two parts. */
  lemma {:induction false} CountsAppend(a: seq<LogEntry>, b: seq<LogEntry>)
    ensures ClickCount(a + b) == ClickCount(a) + ClickCount(b)
    ensures ActionCount(a + b) == ActionCount(a) + ActionCount(b)
    decreases |b|
  {
    if b == [] {
      assert a + b == a;
    } else {
      var b' := b[..|b| - 1];
      assert (a + b)[..|a + b| - 1] == a + b';
      CountsAppend(a, b');
    }
  }

  /** A log of recycles only holds no actions and no clicks. */
  lemma {:induction false} RecyclesOnlyCountNothing(log: seq<LogEntry>)
    requires forall e :: e in log ==> e.Recycled?
    ensures ActionCount(log) == 0 && ClickCount(log) == 0
  {
    if log != [] {
      var init := log[..|log| - 1];
      assert forall e :: e in init ==> e in log;
      assert log[|log| - 1].Recycled?;
      RecyclesOnlyCountNothing(init);
    }
  }

  /** A log without clicks counts none. */
  lemma {:induction false} NoClickEntries(log: seq<LogEntry>)
    requires forall e :: e in log ==> !(e.Performed? && e.action == Click)
    ensures ClickCount(log) == 0
  {
    if log != [] {
      var init := log[..|log| - 1];
      assert forall e :: e in init ==> e in log;
      assert log[|log| - 1] in log;
      NoClickEntries(init);
    }
  }

  /** The host side of the accessibility service: the log of calls into it. */
  class Host {
    var log: seq<LogEntry>

    constructor ()
      ensures log == []
    {
      log := [];
    }

    method PerformAction(node: Node, action: NodeAction)
      modifies this
      ensures log == old(log) + [Performed(node.handle, action)]
    {
      log := log + [Performed(node.handle, action)];
    }

    method Recycle(node: Node)
      modifies this
      ensures log == old(log) + [Recycled(node.handle)]
    {
      log := log + [Recycled(node.handle)];
    }
  }
}

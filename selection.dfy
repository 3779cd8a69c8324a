/** The selection-changed handler of the explorer manager: on the first
    notification whose first changed node sits at the database path, it
    hangs one database menu item under that node's menu, and never again. */
module SelectionBridge {
  import opened HostModel

  /** The tree path the manager waits for (its `_urnPath`). */
  const DatabasePath: string := "Server/Database"

  /** A host menu node (`HierarchyObject`); only its identity matters. */
  class HierarchyObject { }

  /** What `node.GetService(typeof(IMenuHandler))` gives, seen through the
      `(HierarchyObject)` cast. For a menu, `attachThrows` says whether
      building the `DatabaseMenuItem` or `AddChild` then throws; the anchor
      is already set by then. */
  datatype MenuHandlerAnswer =
    | Menu(target: HierarchyObject, attachThrows: bool)
    | NullMenuHandler
    | NotHierarchyObject

  /** A non-null changed node: its `UrnPath` and its menu handler. */
  datatype ChangedNode = ChangedNode(urnPath: string, menuHandler: MenuHandlerAnswer)

  /** `NodesChangedEventArgs.ChangedNodes`; `None` is a null entry. */
  datatype NodesChangedEventArgs = NodesChangedEventArgs(changedNodes: seq<Option<ChangedNode>>)

  /** How the handler ends: normally, or with the exception it lets escape
      to the host (a failed cast, `AddChild` on a null menu, or the item
      being refused by the host menu). */
  datatype HandlerError = InvalidCast | NullReference | AttachFailed
  datatype HandlerOutcome = Returned | Threw(error: HandlerError)

  /** One handler call: the new anchor, the menus an item was added to, and
      how the call ended. */
  datatype Reaction = Reaction(serverMenu: HierarchyObject?, added: seq<HierarchyObject>, outcome: HandlerOutcome)

  /** Whether the notification's first changed node is at `urnPath`. */
  predicate Targets(urnPath: string, args: NodesChangedEventArgs)
  {
    |args.changedNodes| > 0 && args.changedNodes[0].Some? && args.changedNodes[0].value.urnPath == urnPath
  }

  /** `Provider_SelectionChanged` on a manager whose anchor is `serverMenu`. */
  function React(serverMenu: HierarchyObject?, urnPath: string, args: NodesChangedEventArgs): Reaction
  {
    if |args.changedNodes| <= 0 then Reaction(serverMenu, [], Returned)
    else match args.changedNodes[0]
      case None => Reaction(serverMenu, [], Returned)
      case Some(node) =>
        if serverMenu == null && urnPath == node.urnPath then
          match node.menuHandler
          case Menu(h, attachThrows) =>
            if attachThrows then Reaction(h, [], Threw(AttachFailed)) else Reaction(h, [h], Returned)
          case NullMenuHandler => Reaction(null, [], Threw(NullReference))
          case NotHierarchyObject => Reaction(serverMenu, [], Threw(InvalidCast))
        else Reaction(serverMenu, [], Returned)
  }

  /** The handler's effect over a sequence of notifications. */
  datatype History = History(serverMenu: HierarchyObject?, added: seq<HierarchyObject>, outcomes: seq<HandlerOutcome>)

  function Replay(serverMenu: HierarchyObject?, urnPath: string, events: seq<NodesChangedEventArgs>): History
  {
    if events == [] then History(serverMenu, [], [])
    else
      var h := Replay(serverMenu, urnPath, events[..|events| - 1]);
      var r := React(h.serverMenu, urnPath, events[|events| - 1]);
      History(r.serverMenu, h.added + r.added, h.outcomes + [r.outcome])
  }

  /** A notification without changed nodes changes nothing. */
  lemma EmptyNotification(serverMenu: HierarchyObject?, urnPath: string, args: NodesChangedEventArgs)
    requires args.changedNodes == []
    ensures React(serverMenu, urnPath, args) == Reaction(serverMenu, [], Returned)
  {
  }

  /** Only the first changed node is looked at: a null one makes the call a
      no-op, and the later nodes never matter. */
  lemma FirstNodeOnly(serverMenu: HierarchyObject?, urnPath: string, first: Option<ChangedNode>,
                      rest: seq<Option<ChangedNode>>, other: seq<Option<ChangedNode>>)
    ensures React(serverMenu, urnPath, NodesChangedEventArgs([first] + rest))
         == React(serverMenu, urnPath, NodesChangedEventArgs([first] + other))
    ensures first == None ==>
              React(serverMenu, urnPath, NodesChangedEventArgs([first] + rest)) == Reaction(serverMenu, [], Returned)
  {
  }

  /** One call adds an item only when no anchor is set and the node is at
      the path; the anchor is then that item's menu. An anchor set without
      an item means attaching it threw. Once set, the anchor never changes
      and nothing more is added. */
  lemma ReactOneShot(serverMenu: HierarchyObject?, urnPath: string, args: NodesChangedEventArgs)
    ensures var r := React(serverMenu, urnPath, args);
            && (r.added != [] ==> serverMenu == null && Targets(urnPath, args) && r.serverMenu != null && r.added == [r.serverMenu])
            && (serverMenu == null && r.serverMenu != null && r.added == [] ==> r.outcome == Threw(AttachFailed))
            && (serverMenu != null ==> r == Reaction(serverMenu, [], Returned))
            && |r.added| <= 1
  {
  }

  /** Over any sequence of notifications, starting with no anchor, at most
      one item is ever added, and only under the anchor. */
  lemma {:induction false} AtMostOneInjection(urnPath: string, events: seq<NodesChangedEventArgs>)
    ensures var h := Replay(null, urnPath, events);
            h.added == [] || (h.serverMenu != null && h.added == [h.serverMenu])
    decreases |events|
  {
    if events != [] {
      AtMostOneInjection(urnPath, events[..|events| - 1]);
    }
  }

  /** With an anchor already set, no notification changes anything. */
  lemma {:induction false} AnchoredIsInert(serverMenu: HierarchyObject, urnPath: string, events: seq<NodesChangedEventArgs>)
    ensures Replay(serverMenu, urnPath, events).serverMenu == serverMenu
    ensures Replay(serverMenu, urnPath, events).added == []
    ensures |Replay(serverMenu, urnPath, events).outcomes| == |events|
    ensures forall k :: 0 <= k < |events| ==> Replay(serverMenu, urnPath, events).outcomes[k] == Returned
    decreases |events|
  {
    if events != [] {
      AnchoredIsInert(serverMenu, urnPath, events[..|events| - 1]);
    }
  }

  /** Notifications whose first node is at any other path never set the
      anchor and never add an item. */
  lemma {:induction false} OtherPathsNeverInject(serverMenu: HierarchyObject?, urnPath: string,
                                                  events: seq<NodesChangedEventArgs>)
    requires forall k :: 0 <= k < |events| ==> !Targets(urnPath, events[k])
    ensures Replay(serverMenu, urnPath, events).serverMenu == serverMenu
    ensures Replay(serverMenu, urnPath, events).added == []
    decreases |events|
  {
    if events != [] {
      var n := |events| - 1;
      assert forall k :: 0 <= k < n ==> events[..n][k] == events[k];
      OtherPathsNeverInject(serverMenu, urnPath, events[..n]);
    }
  }

  /** When attaching the item throws, the anchor stays set with no item
      under it, and no later notification ever adds one. */
  lemma {:induction false} AttachFailureIsPermanent(urnPath: string, events: seq<NodesChangedEventArgs>,
                                                     menu: HierarchyObject)
    requires |events| > 0 && Targets(urnPath, events[0])
    requires events[0].changedNodes[0].value.menuHandler == Menu(menu, true)
    ensures Replay(null, urnPath, events).serverMenu == menu
    ensures Replay(null, urnPath, events).added == []
    ensures |Replay(null, urnPath, events).outcomes| == |events|
    ensures Replay(null, urnPath, events).outcomes[0] == Threw(AttachFailed)
    decreases |events|
  {
    var n := |events| - 1;
    if n == 0 {
      assert events[..0] == [];
    } else {
      assert events[..n][0] == events[0];
      AttachFailureIsPermanent(urnPath, events[..n], menu);
    }
  }

  /** Two notifications in a row at the database path add exactly one item,
      under the first node's menu; the second is a no-op. */
  lemma TwoNotificationsInjectOnce(urnPath: string, first: NodesChangedEventArgs, second: NodesChangedEventArgs,
                                   menu: HierarchyObject)
    requires Targets(urnPath, first) && Targets(urnPath, second)
    requires first.changedNodes[0].value.menuHandler == Menu(menu, false)
    ensures Replay(null, urnPath, [first, second]) == History(menu, [menu], [Returned, Returned])
  {
    assert [first, second][..1] == [first];
    assert [first][..0] == [];
    assert React(null, urnPath, first) == Reaction(menu, [menu], Returned);
    assert Replay(null, urnPath, [first]) == History(menu, [menu], [Returned]);
    assert React(menu, urnPath, second) == Reaction(menu, [], Returned);
  }

  class ObjectExplorerManager {
    /** `_serverMenu`: the menu the item was added to, once it was. */
    var serverMenu: HierarchyObject?
    /** `_urnPath`. */
    const urnPath: string
    /** The menus `AddChild` has hung a `DatabaseMenuItem` under, in order. */
    var injected: seq<HierarchyObject>

    /** At most one item was added, and only under the anchor. */
    ghost predicate Valid()
      reads this
    {
      injected == [] || (serverMenu != null && injected == [serverMenu])
    }

    constructor ()
      ensures Valid()
      ensures serverMenu == null && injected == [] && urnPath == DatabasePath
    {
      serverMenu := null;
      urnPath := DatabasePath;
      injected := [];
    }

    method ProviderSelectionChanged(args: NodesChangedEventArgs) returns (outcome: HandlerOutcome)
      requires Valid()
      modifies this
      ensures Valid()
      ensures var r := React(old(serverMenu), urnPath, args);
              && serverMenu == r.serverMenu
              && injected == old(injected) + r.added
              && outcome == r.outcome
    {
      if |args.changedNodes| <= 0 {
        return Returned;
      }
      var node := args.changedNodes[0];
      if node.None? {
        return Returned;
      }
      if serverMenu == null && urnPath == node.value.urnPath {
        match node.value.menuHandler {
          case NotHierarchyObject =>
            return Threw(InvalidCast);
          case NullMenuHandler =>
            serverMenu := null;
            return Threw(NullReference);
          case Menu(menu, attachThrows) =>
            serverMenu := menu;
            if attachThrows {
              return Threw(AttachFailed);
            }
            injected := injected + [menu];
        }
      }
      return Returned;
    }
  }
}

# Object Explorer manager of the SQL Server Compact Toolbox for SSMS, in Dafny

This project models `ObjectExplorerManager`, the part of the toolbox's SSMS
extension that reads SSMS's Object Explorer. It covers two pieces.

* **The server catalog** (`GetAllServerUserDatabases`, `AddToList` and
  `GetDatabaseNames`). The manager walks the explorer's hierarchy roots. It
  keeps the connection of each root that is a service provider and supplies
  `INodeInformation`. After that walk it asks each server for its user
  databases and fills a `Dictionary<string, DatabaseInfo>`. The key of each
  entry is the builder's connection string after `InitialCatalog` is set to
  the database name. One `try`/`catch` wraps the whole pass. The first
  exception is reported to telemetry, and whatever the dictionary holds at
  that point is returned.
* **The selection handler** (`Provider_SelectionChanged` with the fields
  `_serverMenu` and `_urnPath`). The first time the first changed node is at
  `Server/Database`, the handler hangs one `DatabaseMenuItem` under that
  node's menu, and it never does so again.

Files:

* `host.dfy` (module `HostModel`): the host stubs. These are the hierarchy
  roots and their `GetService` answers, the connection objects, the SQL
  query as an oracle `string -> Reply`, and `SqlConnectionStringBuilder` as
  a small class. Its parsing, catalog setting and `DataSource` are
  uninterpreted functions passed in as `ConnectionStringLibrary`.
* `catalog.dfy` (module `ServerCatalog`): what a discovery pass computes,
  written as functions. `Collect` is the walk, `Expand` is the name loop of
  `AddToList`, `AddServer` is one call of `AddToList`, `Aggregate` is the
  server loop and `Discover` is the whole pass.
* `catalog_properties.dfy` (module `CatalogProperties`): the lemmas about
  those functions.
* `catalog_builder.dfy` (module `CatalogBuilder`): the loops of the source
  as methods. Each is proved equal to its function.
* `selection.dfy` (module `SelectionBridge`): the handler. It is a class
  with the nullable anchor `serverMenu`, the constant `urnPath` and a log
  `injected` of the menus an item was added to. It also holds the pure
  transition `React` with its lemmas.

The exception that ends a pass is modelled as the second result `tracked`
of `GetAllServerUserDatabases`. That is what reaches
`Telemetry.TrackException`: `Completed` when nothing was thrown, otherwise
`Failed(f)`. The failures are `TreeUnreadable`, `RootLookupFailed`,
`NullConnection`, `BuilderRejected`, `QueryFailure` and `DuplicateKey(key)`.
The `key` of `DuplicateKey` is this model's own annotation: the source
reports only the `ArgumentException`.

Four behaviours of the code are easy to misread, and the model keeps them
as written:

* A root whose connection is not a `SqlConnectionInfo` is not discarded.
  The `as` cast appends a null entry. Dereferencing that entry at line 42
  ends the pass.
* One server's failing query does not leave the other servers to carry on.
  The single `try` aborts every later server.
* A duplicate key is neither overwritten nor skipped. `Dictionary.Add`
  throws, and that ends the pass.
* The handler sets `_serverMenu` before it builds and attaches the menu
  item. If that step throws, the anchor stays set with no item under it,
  and the handler never tries again.

## Model

| member | source | states |
|---|---|---|
| CatalogBuilder.CollectServers | src/GUI/SSMSToolbox/SSMSEngine/ObjectExplorerManager.cs:29-38 | the walk loop returns exactly `Collect(roots)`: one entry per root that supplies node information, null for a non-`SqlConnectionInfo` connection, in root order, or the lookup failure |
| CatalogBuilder.GetDatabaseNames | src/GUI/SSMSToolbox/SSMSEngine/ObjectExplorerManager.cs:70-90 | the builder is left pointing at the `master` catalog, and the names read are the server's rows for that connection, in reader order, or the query failure |
| CatalogBuilder.AddToList | src/GUI/SSMSToolbox/SSMSEngine/ObjectExplorerManager.cs:53-68 | the entries and outcome are those of `AddServer` for the builder's string at entry: a failed query adds nothing, and otherwise names are added in order until the first key already present; the builder is left on the `master` string after a failed query, and otherwise on the string of the last name processed (the clashing key when `Add` threw) |
| CatalogBuilder.GetAllServerUserDatabases | src/GUI/SSMSToolbox/SSMSEngine/ObjectExplorerManager.cs:24-51 | it always returns; the dictionary and the reported exception are exactly `Discover(host, tree)` (walk first, then servers in order, stop at the first exception, including a connection string the builder's constructor rejects) |
| CatalogProperties.CollectAppend | src/GUI/SSMSToolbox/SSMSEngine/ObjectExplorerManager.cs:31-38 | the walk over `a + b` gives the servers of `a` followed by those of `b`, and the first exception wins: servers are kept in hierarchy order |
| CatalogProperties.CollectFailsIff | src/GUI/SSMSToolbox/SSMSEngine/ObjectExplorerManager.cs:31-37 | the walk fails if and only if some root's `GetService` throws, and then with the lookup failure |
| CatalogProperties.CollectSkips | src/GUI/SSMSToolbox/SSMSEngine/ObjectExplorerManager.cs:34-37 | a root that is not a service provider, or does not supply `INodeInformation`, can be removed from anywhere without changing the walk |
| CatalogProperties.CollectKeepsNullEntry | src/GUI/SSMSToolbox/SSMSEngine/ObjectExplorerManager.cs:37 | a connection that is not a `SqlConnectionInfo` is kept in the server list as a null entry, at the position right after the servers of the roots before it |
| CatalogProperties.ExpandCompleteIff | src/GUI/SSMSToolbox/SSMSEngine/ObjectExplorerManager.cs:56-66 | the name loop adds every name if and only if every key is new and the keys are pairwise distinct; then the dictionary's keys are the old keys plus the builder strings after each `InitialCatalog` assignment |
| CatalogProperties.ExpandEntries | src/GUI/SSMSToolbox/SSMSEngine/ObjectExplorerManager.cs:56-66 | after a full name loop, each name has one entry under its key: caption `DataSource + "." + name`, connection string equal to the key, `SQLServer`, `FromServerExplorer = true`; earlier entries are unchanged, and the size grows by the number of names |
| CatalogProperties.DuplicateKeyPresent | src/GUI/SSMSToolbox/SSMSEngine/ObjectExplorerManager.cs:56-66 | before the first key already present, every earlier name was added, and that key is the builder's string after setting the catalog to its name, found among the entries |
| CatalogProperties.ExpandHitsPresentKey | src/GUI/SSMSToolbox/SSMSEngine/ObjectExplorerManager.cs:58-66 | the turn at the first key already present adds nothing, leaves the builder on that key and ends the loop |
| CatalogProperties.ExpandStopsAtFirstDuplicate | src/GUI/SSMSToolbox/SSMSEngine/ObjectExplorerManager.cs:56-66 | at the first key already present the loop stops at that key: the entries of the earlier names remain, no later name is processed, and the builder is left holding that key |
| CatalogProperties.ExpandSticky | src/GUI/SSMSToolbox/SSMSEngine/ObjectExplorerManager.cs:66 | once `Add` has thrown, later names change nothing |
| CatalogProperties.KeysUnderOverride | src/GUI/SSMSToolbox/SSMSEngine/ObjectExplorerManager.cs:58-66 | if a new `InitialCatalog` assignment replaces the previous one, each key is the server's own string with only the catalog set to that name |
| CatalogProperties.AddServerEntries | src/GUI/SSMSToolbox/SSMSEngine/ObjectExplorerManager.cs:55-66 | for a builder that behaves as documented and distinct new names, one server adds exactly one entry per name, under `withCatalog(server, name)`, with caption `DataSource(server) + "." + name` |
| CatalogProperties.AggregateAppend | src/GUI/SSMSToolbox/SSMSEngine/ObjectExplorerManager.cs:40-44 | the server loop over `a + b` runs the servers of `b` only if those of `a` raised nothing, starting from the dictionary they left |
| CatalogProperties.FailureAbortsRest | src/GUI/SSMSToolbox/SSMSEngine/ObjectExplorerManager.cs:40-50 | after a failure (null entry, rejected connection string, query, duplicate key) no later server is processed, and the partial dictionary is the answer |
| CatalogProperties.NullConnectionAborts | src/GUI/SSMSToolbox/SSMSEngine/ObjectExplorerManager.cs:42-50 | a null server entry fails that server and every later one, and the entries of the earlier servers are kept |
| CatalogProperties.ExpandKeeps | src/GUI/SSMSToolbox/SSMSEngine/ObjectExplorerManager.cs:56-67 | the name loop never removes or alters an entry that was already present |
| CatalogProperties.AddServerKeeps | src/GUI/SSMSToolbox/SSMSEngine/ObjectExplorerManager.cs:53-68 | one `AddToList` call never removes or alters an entry that was already present, whether or not it fails |
| CatalogProperties.AggregateKeeps | src/GUI/SSMSToolbox/SSMSEngine/ObjectExplorerManager.cs:40-50 | whatever fails, every entry added before the failure is in the returned dictionary |
| CatalogProperties.StepCompletedSize | src/GUI/SSMSToolbox/SSMSEngine/ObjectExplorerManager.cs:42-43 | one server that raised nothing was a non-null entry whose string the builder accepts and whose query succeeded, and it added one entry per name |
| CatalogProperties.CompletedCatalogSize | src/GUI/SSMSToolbox/SSMSEngine/ObjectExplorerManager.cs:40-44 | a server loop that raised nothing met no null entry, no rejected connection string and no failed query, and added one entry per database name over all servers |
| CatalogProperties.ThrowingRootEmptiesCatalog | src/GUI/SSMSToolbox/SSMSEngine/ObjectExplorerManager.cs:27-50 | a root whose lookup throws, wherever it sits, leaves the catalog empty: no query runs before the walk is complete |
| CatalogProperties.DiscoverSkipsNonServers | src/GUI/SSMSToolbox/SSMSEngine/ObjectExplorerManager.cs:31-37 | roots that contribute no connection do not change the pass's result |
| CatalogProperties.DiscoverCompletedSize | src/GUI/SSMSToolbox/SSMSEngine/ObjectExplorerManager.cs:24-51 | a pass that reports nothing holds exactly one entry per database name of the servers found |
| SelectionBridge.EmptyNotification | src/GUI/SSMSToolbox/SSMSEngine/ObjectExplorerManager.cs:136 | a notification without changed nodes leaves the anchor as it was and adds nothing |
| SelectionBridge.FirstNodeOnly | src/GUI/SSMSToolbox/SSMSEngine/ObjectExplorerManager.cs:137-138 | only the first changed node matters; if it is null, the call does nothing, whatever the later nodes are |
| SelectionBridge.ReactOneShot | src/GUI/SSMSToolbox/SSMSEngine/ObjectExplorerManager.cs:142-149 | one call adds at most one item, only when no anchor is set and the node is at `_urnPath`, and then the anchor is that item's menu; an anchor newly set without an item means attaching it threw; with an anchor set, nothing changes |
| SelectionBridge.AtMostOneInjection | src/GUI/SSMSToolbox/SSMSEngine/ObjectExplorerManager.cs:16-17 | from a fresh manager, over any sequence of notifications, at most one item is added, and only under the anchor |
| SelectionBridge.AttachFailureIsPermanent | src/GUI/SSMSToolbox/SSMSEngine/ObjectExplorerManager.cs:144-148 | when building or attaching the item throws on the first notification, the anchor stays on that menu with no item under it through every later notification |
| SelectionBridge.AnchoredIsInert | src/GUI/SSMSToolbox/SSMSEngine/ObjectExplorerManager.cs:142 | once the anchor is set, every later notification returns normally and changes nothing |
| SelectionBridge.OtherPathsNeverInject | src/GUI/SSMSToolbox/SSMSEngine/ObjectExplorerManager.cs:142 | notifications whose first node is at another path never set the anchor and never add an item |
| SelectionBridge.TwoNotificationsInjectOnce | src/GUI/SSMSToolbox/SSMSEngine/ObjectExplorerManager.cs:142-149 | two notifications in a row at `Server/Database` add exactly one item, under the first node's menu |
| SelectionBridge.ObjectExplorerManager.constructor | src/GUI/SSMSToolbox/SSMSEngine/ObjectExplorerManager.cs:16-22 | a new manager has no anchor, has added nothing, and watches `Server/Database` |
| SelectionBridge.ObjectExplorerManager.ProviderSelectionChanged | src/GUI/SSMSToolbox/SSMSEngine/ObjectExplorerManager.cs:134-150 | the handler's new anchor, its log of added items and its escaping exception are those of `React`, and it keeps the invariant "nothing added, or exactly one item added, under the anchor" |

## Left out

- `SetObjectExplorerEventProvider`, `GetObjectExplorer`, `GetTreeControl` and `GetExplorerHierarchies` are not modelled. They are reflective lookups into SSMS internals. The hierarchy roots are an input (`ExplorerTree`), and a failure while reading the tree control is the `Unreadable` case. The one-time subscription to `CurrentContextChanged` is not modelled.
- The SQL text, `SqlConnection`, `SqlCommand` and `CommandTimeout = 5` are not modelled. The query is an oracle from connection string to names or failure. The exclusion of the system databases and of offline ones is done by the server-side query. The client code does not enforce it, so that exclusion is not a property here.
- A reader that throws part-way through is folded into `QueryFailed`. The partial name list is discarded in the source as well.
- `SqlConnectionStringBuilder` parsing, `InitialCatalog` and `DataSource` are uninterpreted. Parsing may reject a string, which is the `BuilderRejected` failure; setting `InitialCatalog` and reading `DataSource` are taken never to throw. Nothing is claimed about the text of a key beyond "the builder's string after setting the catalog". `KeysUnderOverride` and `AddServerEntries` state their results only under stated laws of that builder.
- The `Dictionary` is a `map` value passed into and out of `AddToList`. It is local to one pass, and its only alias is that parameter, so nothing is lost. Its insertion order is not modelled.
- `Telemetry.TrackException` and the `Debug.WriteLine` calls are sinks. The reported exception is the `tracked` result.
- `DatabaseMenuItem` and `HierarchyObject.AddChild` are host widgets. An `AddChild` call that succeeds is recorded as an entry of `injected`. Whether building or attaching the item throws is an input (`attachThrows`), and the two throws are not told apart. `_package` is not modelled.
- A null `ChangedNodes` list and a null `UrnPath` are not modelled. A null `UrnPath` compares unequal to `_urnPath` and behaves like any other path.
- Running a pass twice on an unchanged tree gives the same result. This follows from `GetAllServerUserDatabases` being equal to the function `Discover`, so no lemma states it.
- Threading and the order in which the host delivers notifications are not modelled. Notifications are taken as a sequence handled one at a time.

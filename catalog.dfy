/** What `GetAllServerUserDatabases` computes, as functions over the host's
    answers. The methods in catalog_builder.dfy are proved equal to these,
    and catalog_properties.dfy proves what they promise. */
module ServerCatalog {
  import opened HostModel

  /** The toolbox's database kinds; only `SQLServer` is produced here. */
  datatype DatabaseType = SQLServer | OtherDatabaseType

  /** One catalog entry, as built in `AddToList`. */
  datatype DatabaseInfo = DatabaseInfo(
    caption: string,
    connectionString: string,
    databaseType: DatabaseType,
    fromServerExplorer: bool)

  /** The `Dictionary<string, DatabaseInfo>` the manager returns. */
  type Catalog = map<string, DatabaseInfo>

  /** The exception that ends a discovery pass and reaches the telemetry sink. */
  datatype Failure =
    | TreeUnreadable      // reading the tree control or its hierarchies threw
    | RootLookupFailed    // `GetService` on a hierarchy root threw
    | NullConnection      // a null server entry was dereferenced
    | BuilderRejected     // `new SqlConnectionStringBuilder` threw on the server's string
    | QueryFailure        // opening the server connection or reading names threw
    | DuplicateKey(key: string)  // `Dictionary.Add` met a key already present; the
                                 // key is this model's annotation, the source
                                 // reports only the exception

  datatype Outcome = Completed | Failed(failure: Failure)

  /** The dictionary returned together with what was reported. */
  datatype Run = Run(entries: Catalog, outcome: Outcome)

  /** The server list of the first loop, or the exception that stopped it.
      A `None` entry stands for a null `SqlConnectionInfo`. */
  datatype Walk = Walked(servers: seq<Option<string>>) | WalkFailed(failure: Failure)

  /** The first loop over the roots, in enumeration order. */
  function Collect(roots: seq<Root>): Walk
  {
    if roots == [] then Walked([])
    else
      var n := |roots| - 1;
      match Collect(roots[..n])
      case WalkFailed(f) => WalkFailed(f)
      case Walked(s) =>
        if Throws(roots[n]) then WalkFailed(RootLookupFailed)
        else match Contribution(roots[n])
          case None => Walked(s)
          case Some(c) => Walked(s + [c])
  }

  /** The entry for one database, once the builder holds `key`. */
  function Entry(library: ConnectionStringLibrary, key: string, name: string): DatabaseInfo
  {
    DatabaseInfo(library.dataSource(key) + "." + name, key, SQLServer, true)
  }

  /** The inner loop of `AddToList`: `entries` so far, the builder's string
      `state`, and whether every name was added (when not, `state` is the
      key that was already present). */
  datatype Expansion = Expansion(entries: Catalog, state: string, complete: bool)

  function Expand(library: ConnectionStringLibrary, start: string, names: seq<string>, acc: Catalog): Expansion
  {
    if names == [] then Expansion(acc, start, true)
    else
      var n := |names| - 1;
      var p := Expand(library, start, names[..n], acc);
      if !p.complete then p
      else
        var key := library.withCatalog(p.state, names[n]);
        if key in p.entries then Expansion(p.entries, key, false)
        else Expansion(p.entries[key := Entry(library, key, names[n])], key, true)
  }

  /** `AddToList` for a builder holding `state`: ask the server for its
      names over the master catalog, then add one entry per name. */
  function AddServer(host: Host, state: string, acc: Catalog): Run
  {
    var master := host.library.withCatalog(state, MasterCatalog);
    match host.query(master)
    case QueryFailed => Run(acc, Failed(QueryFailure))
    case Rows(names) =>
      var x := Expand(host.library, master, names, acc);
      if x.complete then Run(x.entries, Completed)
      else Run(x.entries, Failed(DuplicateKey(x.state)))
  }

  /** One turn of the second loop. */
  function ServerStep(host: Host, server: Option<string>, acc: Catalog): Run
  {
    match server
    case None => Run(acc, Failed(NullConnection))
    case Some(cs) =>
      match host.library.parse(cs)
      case None => Run(acc, Failed(BuilderRejected))
      case Some(state) => AddServer(host, state, acc)
  }

  /** The second loop: servers in list order, stopping at the first failure. */
  function Aggregate(host: Host, servers: seq<Option<string>>, acc: Catalog): Run
  {
    if servers == [] then Run(acc, Completed)
    else
      var n := |servers| - 1;
      var p := Aggregate(host, servers[..n], acc);
      if p.outcome.Failed? then p else ServerStep(host, servers[n], p.entries)
  }

  /** `GetAllServerUserDatabases` as a whole: the walk first, then the
      queries, everything inside one failure boundary. */
  function Discover(host: Host, tree: ExplorerTree): Run
  {
    match tree
    case Unreadable => Run(map[], Failed(TreeUnreadable))
    case Hierarchies(roots) =>
      match Collect(roots)
      case WalkFailed(f) => Run(map[], Failed(f))
      case Walked(servers) => Aggregate(host, servers, map[])
  }
}

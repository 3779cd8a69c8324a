/** The catalog builder of the explorer manager, as loops over the host's
    answers, each proved equal to its function in ServerCatalog. */
module CatalogBuilder {
  import opened HostModel
  import opened ServerCatalog
  import opened CatalogProperties

  /** The first loop: walk the roots in order, append the connection of
      every root that supplies node information (null when it is not a
      `SqlConnectionInfo`), stop at the first lookup that throws. */
  method CollectServers(roots: seq<Root>) returns (w: Walk)
    ensures w == Collect(roots)
  {
    var servers: seq<Option<string>> := [];
    var i := 0;
    while i < |roots|
      invariant 0 <= i <= |roots|
      invariant Collect(roots[..i]) == Walked(servers)
    {
      assert roots[..i + 1][..i] == roots[..i];
      var root := roots[i];
      match root {
        case NotServiceProvider =>
        case ServiceProvider(answer) =>
          match answer {
            case GetServiceThrows =>
              CollectFailsIff(roots);
              return WalkFailed(RootLookupFailed);
            case NotNodeInformation =>
            case NodeInformation(connection) =>
              match connection {
                case SqlConnectionInfo(cs) => servers := servers + [Some(cs)];
                case OtherConnection => servers := servers + [None];
              }
          }
      }
      i := i + 1;
    }
    assert roots[..i] == roots;
    return Walked(servers);
  }

  /** Point the builder at the master catalog and read the name column of
      every row the server returns, in order. */
  method GetDatabaseNames(builder: ConnectionStringBuilder, query: string -> Reply) returns (reply: Reply)
    modifies builder
    ensures builder.connectionString == builder.library.withCatalog(old(builder.connectionString), MasterCatalog)
    ensures reply == query(builder.connectionString)
  {
    builder.SetInitialCatalog(MasterCatalog);
    match query(builder.connectionString) {
      case QueryFailed =>
        return QueryFailed;
      case Rows(rows) =>
        var names: seq<string> := [];
        var i := 0;
        while i < |rows|
          invariant 0 <= i <= |rows|
          invariant names == rows[..i]
        {
          names := names + [rows[i]];
          i := i + 1;
        }
        assert rows[..i] == rows;
        return Rows(names);
    }
  }

  /** Add one entry per database of the builder's server, keyed by the
      builder's string after its catalog is set to the name; a failed query
      or a key already present ends the call with what was added so far. */
  method AddToList(result: Catalog, builder: ConnectionStringBuilder, query: string -> Reply)
    returns (entries: Catalog, outcome: Outcome)
    modifies builder
    ensures Run(entries, outcome) == AddServer(Host(builder.library, query), old(builder.connectionString), result)
    ensures var master := builder.library.withCatalog(old(builder.connectionString), MasterCatalog);
            builder.connectionString == match query(master)
              case QueryFailed => master
              case Rows(names) => Expand(builder.library, master, names, result).state
  {
    ghost var library := builder.library;
    var reply := GetDatabaseNames(builder, query);
    ghost var master := builder.connectionString;
    match reply {
      case QueryFailed =>
        return result, Failed(QueryFailure);
      case Rows(names) =>
        entries := result;
        var i := 0;
        while i < |names|
          invariant 0 <= i <= |names|
          invariant builder.library == library
          invariant Expand(library, master, names[..i], result) == Expansion(entries, builder.connectionString, true)
        {
          assert names[..i + 1][..i] == names[..i];
          builder.SetInitialCatalog(names[i]);
          var databaseInfo := DatabaseInfo(builder.DataSource() + "." + names[i], builder.connectionString, SQLServer, true);
          if builder.connectionString in entries {
            ExpandSticky(library, master, names[..i + 1], names[i + 1..], result);
            assert names[..i + 1] + names[i + 1..] == names;
            return entries, Failed(DuplicateKey(builder.connectionString));
          }
          entries := entries[builder.connectionString := databaseInfo];
          i := i + 1;
        }
        assert names[..i] == names;
        return entries, Completed;
    }
  }

  /** The whole pass: collect every server first, then expand them in
      order; the first exception ends the pass, is reported, and the
      dictionary built so far is returned. */
  method GetAllServerUserDatabases(host: Host, tree: ExplorerTree) returns (result: Catalog, tracked: Outcome)
    ensures Run(result, tracked) == Discover(host, tree)
  {
    result := map[];
    if tree.Unreadable? {
      return result, Failed(TreeUnreadable);
    }
    var walk := CollectServers(tree.roots);
    if walk.WalkFailed? {
      return result, Failed(walk.failure);
    }
    var servers := walk.servers;
    var i := 0;
    while i < |servers|
      invariant 0 <= i <= |servers|
      invariant Aggregate(host, servers[..i], map[]) == Run(result, Completed)
    {
      assert servers[..i + 1][..i] == servers[..i];
      assert servers == servers[..i + 1] + servers[i + 1..];
      match servers[i] {
        case None =>
          NullConnectionAborts(host, servers, i, map[]);
          return result, Failed(NullConnection);
        case Some(connectionString) =>
          if host.library.parse(connectionString).None? {
            FailureAbortsRest(host, servers[..i + 1], servers[i + 1..], map[]);
            return result, Failed(BuilderRejected);
          }
          var builder := new ConnectionStringBuilder(host.library, connectionString);
          var entries, outcome := AddToList(result, builder, host.query);
          result := entries;
          if outcome.Failed? {
            FailureAbortsRest(host, servers[..i + 1], servers[i + 1..], map[]);
            return result, outcome;
          }
      }
      i := i + 1;
    }
    assert servers[..i] == servers;
    tracked := Completed;
  }
}

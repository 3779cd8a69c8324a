/** What the catalog builder promises, proved about the functions of
    ServerCatalog. */
module CatalogProperties {
  import opened HostModel
  import opened ServerCatalog

  // ---------------------------------------------------------------------
  // The walk over the hierarchy roots

  /** Running the walk over `a` and then over `b`. */
  function Then(w: Walk, v: Walk): Walk
  {
    if w.WalkFailed? then w
    else if v.WalkFailed? then v
    else Walked(w.servers + v.servers)
  }

  /** The walk is a left-to-right scan: the servers of `a + b` are those of
      `a` followed by those of `b`, and the first exception wins. */
  lemma {:induction false} CollectAppend(a: seq<Root>, b: seq<Root>)
    ensures Collect(a + b) == Then(Collect(a), Collect(b))
    decreases |b|
  {
    if b == [] {
      assert a + b == a;
    } else {
      var n := |b| - 1;
      assert (a + b)[..|a + b| - 1] == a + b[..n];
      assert (a + b)[|a + b| - 1] == b[n];
      CollectAppend(a, b[..n]);
    }
  }

  /** The walk fails exactly when some root's lookup throws, and then with
      the lookup failure. */
  lemma {:induction false} CollectFailsIff(roots: seq<Root>)
    ensures Collect(roots).WalkFailed? <==> exists i :: 0 <= i < |roots| && Throws(roots[i])
    ensures Collect(roots).WalkFailed? ==> Collect(roots).failure == RootLookupFailed
    decreases |roots|
  {
    if roots != [] {
      var n := |roots| - 1;
      CollectFailsIff(roots[..n]);
      if Collect(roots[..n]).WalkFailed? {
        var i :| 0 <= i < n && Throws(roots[..n][i]);
        assert Throws(roots[i]);
      } else if !Throws(roots[n]) {
        forall i | 0 <= i < |roots| ensures !Throws(roots[i]) {
          if i < n { assert roots[i] == roots[..n][i]; }
        }
      }
    }
  }

  /** A root that is not a service provider, or does not supply node
      information, may be removed from anywhere without changing the walk. */
  lemma CollectSkips(a: seq<Root>, r: Root, b: seq<Root>)
    requires !Throws(r) && Contribution(r) == None
    ensures Collect(a + [r] + b) == Collect(a + b)
  {
    CollectAppend(a + [r], b);
    CollectAppend(a, [r]);
    CollectAppend(a, b);
    assert [r][..0] == [];
  }

  /** A connection that is not a `SqlConnectionInfo` is kept as a null
      entry, right after the servers of the roots before it. */
  lemma CollectKeepsNullEntry(roots: seq<Root>, i: nat)
    requires i < |roots| && roots[i] == ServiceProvider(NodeInformation(OtherConnection))
    requires Collect(roots).Walked?
    ensures Collect(roots[..i]).Walked?
    ensures |Collect(roots[..i]).servers| < |Collect(roots).servers|
    ensures Collect(roots).servers[|Collect(roots[..i]).servers|] == None
  {
    assert roots == roots[..i] + [roots[i]] + roots[i + 1..];
    CollectAppend(roots[..i] + [roots[i]], roots[i + 1..]);
    CollectAppend(roots[..i], [roots[i]]);
    assert [roots[i]][..0] == [];
    var s := Collect(roots[..i]).servers;
    assert Collect(roots).servers[|s|] == None;
  }

  // ---------------------------------------------------------------------
  // One server's names

  /** The builder's string after its `InitialCatalog` is set to each of
      `names` in turn, starting from `start`. */
  function StateAfter(library: ConnectionStringLibrary, start: string, names: seq<string>): string
  {
    if names == [] then start
    else library.withCatalog(StateAfter(library, start, names[..|names| - 1]), names[|names| - 1])
  }

  /** The key each name is added under: the builder's string right after
      `InitialCatalog = names[i]`. */
  function Keys(library: ConnectionStringLibrary, start: string, names: seq<string>): seq<string>
  {
    seq(|names|, i requires 0 <= i < |names| => StateAfter(library, start, names[..i + 1]))
  }

  /** No key is already present, and no two keys are equal. */
  ghost predicate FreshKeys(acc: Catalog, keys: seq<string>)
  {
    && (forall i :: 0 <= i < |keys| ==> keys[i] !in acc)
    && (forall i, j :: 0 <= i < j < |keys| ==> keys[i] != keys[j])
  }

  /** `big` holds every entry of `small`, unchanged. */
  ghost predicate Extends(big: Catalog, small: Catalog)
  {
    forall k :: k in small ==> k in big && big[k] == small[k]
  }

  lemma KeysPrefix(library: ConnectionStringLibrary, start: string, names: seq<string>, d: nat)
    requires d <= |names|
    ensures Keys(library, start, names[..d]) == Keys(library, start, names)[..d]
  {
    forall i | 0 <= i < d
      ensures Keys(library, start, names[..d])[i] == Keys(library, start, names)[i]
    {
      assert names[..d][..i + 1] == names[..i + 1];
    }
  }

  /** An unfinished inner loop stays where it stopped. */
  lemma {:induction false} ExpandSticky(library: ConnectionStringLibrary, start: string,
                                          a: seq<string>, b: seq<string>, acc: Catalog)
    requires !Expand(library, start, a, acc).complete
    ensures Expand(library, start, a + b, acc) == Expand(library, start, a, acc)
    decreases |b|
  {
    if b == [] {
      assert a + b == a;
    } else {
      var n := |b| - 1;
      assert (a + b)[..|a + b| - 1] == a + b[..n];
      ExpandSticky(library, start, a, b[..n], acc);
    }
  }

  lemma KeysSnoc(library: ConnectionStringLibrary, start: string, names: seq<string>)
    requires names != []
    ensures Keys(library, start, names)
         == Keys(library, start, names[..|names| - 1]) + [StateAfter(library, start, names)]
  {
    var n := |names| - 1;
    KeysPrefix(library, start, names, n);
    assert names[..n + 1] == names;
  }

  lemma FreshKeysSnoc(acc: Catalog, keys: seq<string>, k: string)
    ensures FreshKeys(acc, keys + [k]) <==> FreshKeys(acc, keys) && k !in acc && k !in keys
  {
    var ks := keys + [k];
    assert ks[..|keys|] == keys;
    if FreshKeys(acc, keys) && k !in acc && k !in keys {
      forall i, j | 0 <= i < j < |ks| ensures ks[i] != ks[j] {
        if j == |keys| { assert ks[i] == keys[i]; }
      }
    }
    if FreshKeys(acc, ks) {
      assert forall i :: 0 <= i < |keys| ==> keys[i] == ks[i];
      assert ks[|keys|] == k;
    }
  }

  lemma ElementsSnoc(keys: seq<string>, k: string)
    ensures (set q | q in keys + [k]) == (set q | q in keys) + {k}
  {
  }

  /** The inner loop of `AddToList` adds every name exactly when all keys
      are new and pairwise distinct, and its builder then holds the string
      after the last assignment. */
  lemma {:induction false} ExpandCompleteIff(library: ConnectionStringLibrary, start: string,
                                               names: seq<string>, acc: Catalog)
    ensures Expand(library, start, names, acc).complete <==> FreshKeys(acc, Keys(library, start, names))
    ensures Expand(library, start, names, acc).complete ==>
              && Expand(library, start, names, acc).state == StateAfter(library, start, names)
              && Expand(library, start, names, acc).entries.Keys
                 == acc.Keys + (set k | k in Keys(library, start, names))
    decreases |names|
  {
    if names != [] {
      var n := |names| - 1;
      var p := names[..n];
      ExpandCompleteIff(library, start, p, acc);
      KeysSnoc(library, start, names);
      var pk := Keys(library, start, p);
      var k := StateAfter(library, start, names);
      FreshKeysSnoc(acc, pk, k);
      var px := Expand(library, start, p, acc);
      if px.complete {
        ElementsSnoc(pk, k);
        assert k in px.entries <==> k in acc || k in pk;
      }
    }
  }

  /** `entries` holds, under each key, the entry for the matching name:
      caption `DataSource + "." + name`, connection string equal to the key,
      kind `SQLServer`, the explorer flag set. */
  ghost predicate EntryPerName(library: ConnectionStringLibrary, entries: Catalog,
                               keys: seq<string>, names: seq<string>)
    requires |keys| == |names|
  {
    forall i :: 0 <= i < |names| ==>
      && keys[i] in entries
      && entries[keys[i]] == DatabaseInfo(library.dataSource(keys[i]) + "." + names[i], keys[i], SQLServer, true)
  }

  /** When the inner loop adds every name, it adds one entry per name under
      its key, keeping every earlier entry. */
  lemma {:induction false} ExpandEntries(library: ConnectionStringLibrary, start: string,
                                           names: seq<string>, acc: Catalog)
    requires Expand(library, start, names, acc).complete
    ensures EntryPerName(library, Expand(library, start, names, acc).entries, Keys(library, start, names), names)
    ensures Extends(Expand(library, start, names, acc).entries, acc)
    ensures |Expand(library, start, names, acc).entries| == |acc| + |names|
    decreases |names|
  {
    if names != [] {
      var n := |names| - 1;
      var p := names[..n];
      ExpandLastStep(library, start, names, acc);
      ExpandEntries(library, start, p, acc);
      var ks := Keys(library, start, names);
      var pk := Keys(library, start, p);
      var x := Expand(library, start, names, acc);
      forall i | 0 <= i < n
        ensures ks[i] in x.entries
        ensures x.entries[ks[i]] == DatabaseInfo(library.dataSource(ks[i]) + "." + names[i], ks[i], SQLServer, true)
      {
        assert pk[i] == ks[i] && p[i] == names[i];
      }
    }
  }

  /** The last turn of a full inner loop adds a new key. */
  lemma ExpandLastStep(library: ConnectionStringLibrary, start: string, names: seq<string>, acc: Catalog)
    requires names != [] && Expand(library, start, names, acc).complete
    ensures var n := |names| - 1;
            var k := Keys(library, start, names)[n];
            var px := Expand(library, start, names[..n], acc);
            && px.complete
            && k !in px.entries
            && Keys(library, start, names[..n]) == Keys(library, start, names)[..n]
            && (forall i :: 0 <= i < n ==> Keys(library, start, names)[i] != k)
            && Expand(library, start, names, acc).entries == px.entries[k := Entry(library, k, names[n])]
  {
    var n := |names| - 1;
    var p := names[..n];
    var px := Expand(library, start, p, acc);
    ExpandCompleteIff(library, start, names, acc);
    ExpandCompleteIff(library, start, p, acc);
    KeysSnoc(library, start, names);
    var ks := Keys(library, start, names);
    var pk := Keys(library, start, p);
    var k := ks[n];
    assert k == library.withCatalog(px.state, names[n]);
    FreshKeysSnoc(acc, pk, k);
  }

  /** Before the first key that is already present, the inner loop has
      added every name and its builder holds that key's predecessor state,
      so the key is found among the entries. */
  lemma DuplicateKeyPresent(library: ConnectionStringLibrary, start: string,
                            names: seq<string>, acc: Catalog, d: nat)
    requires d < |names|
    requires FreshKeys(acc, Keys(library, start, names)[..d])
    requires Keys(library, start, names)[d] in acc || Keys(library, start, names)[d] in Keys(library, start, names)[..d]
    ensures var px := Expand(library, start, names[..d], acc);
            && px.complete
            && Keys(library, start, names)[d] == library.withCatalog(px.state, names[d])
            && Keys(library, start, names)[d] in px.entries
  {
    var ks := Keys(library, start, names);
    KeysPrefix(library, start, names, d);
    ExpandCompleteIff(library, start, names[..d], acc);
    var px := Expand(library, start, names[..d], acc);
    assert names[..d + 1][..d] == names[..d];
    assert ks[d] == StateAfter(library, start, names[..d + 1]);
    var k := ks[d];
    if k !in acc {
      assert k in (set q | q in ks[..d]);
    }
  }

  /** The turn at the first key that is already present ends the loop
      with the entries unchanged. */
  lemma ExpandHitsPresentKey(library: ConnectionStringLibrary, start: string,
                             names: seq<string>, acc: Catalog, d: nat)
    requires d < |names|
    requires FreshKeys(acc, Keys(library, start, names)[..d])
    requires Keys(library, start, names)[d] in acc || Keys(library, start, names)[d] in Keys(library, start, names)[..d]
    ensures Expand(library, start, names[..d + 1], acc)
         == Expansion(Expand(library, start, names[..d], acc).entries, Keys(library, start, names)[d], false)
  {
    DuplicateKeyPresent(library, start, names, acc, d);
    assert names[..d + 1][..d] == names[..d];
    assert names[..d + 1][d] == names[d];
  }

  /** At the first key that is already present the inner loop stops: the
      entries added before it stay, the rest of the names are not looked at,
      and the builder is left holding that key. */
  lemma ExpandStopsAtFirstDuplicate(library: ConnectionStringLibrary, start: string,
                                    names: seq<string>, acc: Catalog, d: nat)
    requires d < |names|
    requires FreshKeys(acc, Keys(library, start, names)[..d])
    requires Keys(library, start, names)[d] in acc || Keys(library, start, names)[d] in Keys(library, start, names)[..d]
    ensures Expand(library, start, names, acc)
         == Expansion(Expand(library, start, names[..d], acc).entries, Keys(library, start, names)[d], false)
  {
    ExpandHitsPresentKey(library, start, names, acc, d);
    ExpandSticky(library, start, names[..d + 1], names[d + 1..], acc);
    assert names[..d + 1] + names[d + 1..] == names;
  }

  // ---------------------------------------------------------------------
  // The builder laws under which keys and captions read naturally

  /** Setting the catalog again replaces the previous setting. */
  ghost predicate CatalogOverrides(library: ConnectionStringLibrary)
  {
    forall s, a, b :: library.withCatalog(library.withCatalog(s, a), b) == library.withCatalog(s, b)
  }

  /** Setting the catalog leaves the data source alone. */
  ghost predicate DataSourceIgnoresCatalog(library: ConnectionStringLibrary)
  {
    forall s, a :: library.dataSource(library.withCatalog(s, a)) == library.dataSource(s)
  }

  /** Different catalogs give different connection strings. */
  ghost predicate CatalogDistinguishes(library: ConnectionStringLibrary)
  {
    forall s, a, b :: a != b ==> library.withCatalog(s, a) != library.withCatalog(s, b)
  }

  lemma {:induction false} StateAfterOverride(library: ConnectionStringLibrary, s: string, names: seq<string>)
    requires CatalogOverrides(library)
    ensures StateAfter(library, library.withCatalog(s, MasterCatalog), names)
         == library.withCatalog(s, if names == [] then MasterCatalog else names[|names| - 1])
    decreases |names|
  {
    if names != [] {
      StateAfterOverride(library, s, names[..|names| - 1]);
    }
  }

  /** When a repeated `InitialCatalog` assignment replaces the previous one,
      every key is the server's own string with only the catalog set to the
      database's name, whatever came before it. */
  lemma KeysUnderOverride(library: ConnectionStringLibrary, s: string, names: seq<string>)
    requires CatalogOverrides(library)
    ensures forall i :: 0 <= i < |names| ==>
              Keys(library, library.withCatalog(s, MasterCatalog), names)[i] == library.withCatalog(s, names[i])
  {
    forall i | 0 <= i < |names|
      ensures Keys(library, library.withCatalog(s, MasterCatalog), names)[i] == library.withCatalog(s, names[i])
    {
      StateAfterOverride(library, s, names[..i + 1]);
    }
  }

  /** For a builder that behaves as documented, a server whose query
      returns distinct names not yet in the catalog contributes exactly one
      entry per name: key `withCatalog(server, name)`, caption
      `DataSource + "." + name`. */
  lemma AddServerEntries(host: Host, state: string, names: seq<string>, acc: Catalog)
    requires CatalogOverrides(host.library) && DataSourceIgnoresCatalog(host.library)
    requires CatalogDistinguishes(host.library)
    requires host.query(host.library.withCatalog(state, MasterCatalog)) == Rows(names)
    requires forall i, j :: 0 <= i < j < |names| ==> names[i] != names[j]
    requires forall i :: 0 <= i < |names| ==> host.library.withCatalog(state, names[i]) !in acc
    ensures var r := AddServer(host, state, acc);
            && r.outcome == Completed
            && Extends(r.entries, acc)
            && |r.entries| == |acc| + |names|
            && forall i :: 0 <= i < |names| ==>
                 var key := host.library.withCatalog(state, names[i]);
                 key in r.entries
                 && r.entries[key] == DatabaseInfo(host.library.dataSource(state) + "." + names[i], key, SQLServer, true)
  {
    var library := host.library;
    var master := library.withCatalog(state, MasterCatalog);
    var ks := Keys(library, master, names);
    KeysUnderOverride(library, state, names);
    ExpandCompleteIff(library, master, names, acc);
    assert FreshKeys(acc, ks);
    ExpandEntries(library, master, names, acc);
    forall i | 0 <= i < |names|
      ensures library.dataSource(ks[i]) == library.dataSource(state)
    {
      assert ks[i] == library.withCatalog(state, names[i]);
    }
  }

  // ---------------------------------------------------------------------
  // The loop over servers

  /** The server loop over `a + b` runs `a`, and then `b` only if `a`
      raised nothing. */
  lemma {:induction false} AggregateAppend(host: Host, a: seq<Option<string>>, b: seq<Option<string>>, acc: Catalog)
    ensures Aggregate(host, a + b, acc)
         == (var p := Aggregate(host, a, acc); if p.outcome.Failed? then p else Aggregate(host, b, p.entries))
    decreases |b|
  {
    if b == [] {
      assert a + b == a;
    } else {
      var n := |b| - 1;
      assert (a + b)[..|a + b| - 1] == a + b[..n];
      assert (a + b)[|a + b| - 1] == b[n];
      AggregateAppend(host, a, b[..n], acc);
    }
  }

  /** A failure in one server (null entry, query, duplicate key) aborts
      every later server: what was built so far is the answer. */
  lemma FailureAbortsRest(host: Host, a: seq<Option<string>>, b: seq<Option<string>>, acc: Catalog)
    requires Aggregate(host, a, acc).outcome.Failed?
    ensures Aggregate(host, a + b, acc) == Aggregate(host, a, acc)
  {
    AggregateAppend(host, a, b, acc);
  }

  /** A null server entry fails that server and all later ones, keeping
      the entries of the earlier servers. */
  lemma NullConnectionAborts(host: Host, servers: seq<Option<string>>, i: nat, acc: Catalog)
    requires i < |servers| && servers[i] == None
    requires Aggregate(host, servers[..i], acc).outcome == Completed
    ensures Aggregate(host, servers, acc) == Run(Aggregate(host, servers[..i], acc).entries, Failed(NullConnection))
  {
    assert servers[..i + 1][..i] == servers[..i];
    assert servers == servers[..i + 1] + servers[i + 1..];
    FailureAbortsRest(host, servers[..i + 1], servers[i + 1..], acc);
  }

  /** One server's turn never removes or alters an earlier entry. */
  lemma AddServerKeeps(host: Host, state: string, acc: Catalog)
    ensures Extends(AddServer(host, state, acc).entries, acc)
  {
    var master := host.library.withCatalog(state, MasterCatalog);
    match host.query(master)
    case QueryFailed =>
    case Rows(names) =>
      ExpandKeeps(host.library, master, names, acc);
  }

  lemma {:induction false} ExpandKeeps(library: ConnectionStringLibrary, start: string, names: seq<string>, acc: Catalog)
    ensures Extends(Expand(library, start, names, acc).entries, acc)
    decreases |names|
  {
    if names != [] {
      ExpandKeeps(library, start, names[..|names| - 1], acc);
    }
  }

  /** Whatever fails, every entry already in the dictionary is returned. */
  lemma {:induction false} AggregateKeeps(host: Host, servers: seq<Option<string>>, acc: Catalog)
    ensures Extends(Aggregate(host, servers, acc).entries, acc)
    decreases |servers|
  {
    if servers != [] {
      var n := |servers| - 1;
      AggregateKeeps(host, servers[..n], acc);
      var p := Aggregate(host, servers[..n], acc);
      if !p.outcome.Failed? {
        match servers[n]
        case None =>
        case Some(cs) =>
          match host.library.parse(cs)
          case None =>
          case Some(state) => AddServerKeeps(host, state, p.entries);
      }
    }
  }

  /** The names the server behind one list entry reports, or none. */
  function ServerNames(host: Host, server: Option<string>): seq<string>
  {
    match server
    case None => []
    case Some(cs) =>
      match host.library.parse(cs)
      case None => []
      case Some(state) =>
        match host.query(host.library.withCatalog(state, MasterCatalog))
        case QueryFailed => []
        case Rows(names) => names
  }

  function NameCount(host: Host, servers: seq<Option<string>>): nat
  {
    if servers == [] then 0
    else NameCount(host, servers[..|servers| - 1]) + |ServerNames(host, servers[|servers| - 1])|
  }

  /** The list entry is a server whose string the builder accepts and
      whose name query succeeds. */
  predicate Answers(host: Host, server: Option<string>)
  {
    && server.Some?
    && host.library.parse(server.value).Some?
    && host.query(host.library.withCatalog(host.library.parse(server.value).value, MasterCatalog)).Rows?
  }

  /** A turn of the second loop that raises nothing met an answering
      server and added one entry per name it reported. */
  lemma StepCompletedSize(host: Host, server: Option<string>, acc: Catalog)
    requires ServerStep(host, server, acc).outcome == Completed
    ensures Answers(host, server)
    ensures |ServerStep(host, server, acc).entries| == |acc| + |ServerNames(host, server)|
  {
    var state := host.library.parse(server.value).value;
    var master := host.library.withCatalog(state, MasterCatalog);
    ExpandEntries(host.library, master, host.query(master).names, acc);
  }

  /** A pass that raises nothing met no null entry, no rejected connection
      string and no failing query, and holds one entry per database name
      over all servers. */
  lemma {:induction false} CompletedCatalogSize(host: Host, servers: seq<Option<string>>, acc: Catalog)
    requires Aggregate(host, servers, acc).outcome == Completed
    ensures forall i :: 0 <= i < |servers| ==> Answers(host, servers[i])
    ensures |Aggregate(host, servers, acc).entries| == |acc| + NameCount(host, servers)
    decreases |servers|
  {
    if servers != [] {
      var n := |servers| - 1;
      var p := Aggregate(host, servers[..n], acc);
      CompletedCatalogSize(host, servers[..n], acc);
      StepCompletedSize(host, servers[n], p.entries);
      forall i | 0 <= i < n ensures Answers(host, servers[i]) {
        assert servers[i] == servers[..n][i];
      }
    }
  }

  // ---------------------------------------------------------------------
  // The whole pass

  /** A root whose lookup throws empties the whole catalog, wherever it
      sits: no query runs before every root has been walked. */
  lemma ThrowingRootEmptiesCatalog(host: Host, roots: seq<Root>, i: nat)
    requires i < |roots| && Throws(roots[i])
    ensures Discover(host, Hierarchies(roots)) == Run(map[], Failed(RootLookupFailed))
  {
    CollectFailsIff(roots);
  }

  /** Roots without node information change nothing in the catalog. */
  lemma DiscoverSkipsNonServers(host: Host, a: seq<Root>, r: Root, b: seq<Root>)
    requires !Throws(r) && Contribution(r) == None
    ensures Discover(host, Hierarchies(a + [r] + b)) == Discover(host, Hierarchies(a + b))
  {
    CollectSkips(a, r, b);
  }

  /** A full pass that raises nothing holds one entry per database name of
      every server found. */
  lemma DiscoverCompletedSize(host: Host, roots: seq<Root>)
    requires Discover(host, Hierarchies(roots)).outcome == Completed
    ensures Collect(roots).Walked?
    ensures |Discover(host, Hierarchies(roots)).entries| == NameCount(host, Collect(roots).servers)
  {
    CompletedCatalogSize(host, Collect(roots).servers, map[]);
  }
}

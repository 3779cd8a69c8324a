/** The host objects the explorer manager reads, stubbed as plain values.

    The Object Explorer tree, the connection objects hanging off its roots,
    the connection-string builder library and the SQL server are all outside
    the manager; here they are inputs. */
module HostModel {

  datatype Option<+T> = None | Some(value: T)

  /** What `containedItem.Connection` turns out to be. Only a
      `SqlConnectionInfo` survives the `as SqlConnectionInfo` cast. */
  datatype ConnectionObject =
    | SqlConnectionInfo(connectionString: string)
    | OtherConnection

  /** The answer of `provider.GetService(typeof(INodeInformation))`. */
  datatype NodeInformationAnswer =
    | NodeInformation(connection: ConnectionObject)
    | NotNodeInformation
    | GetServiceThrows

  /** The `Root` of one explorer hierarchy. */
  datatype Root =
    | ServiceProvider(answer: NodeInformationAnswer)
    | NotServiceProvider

  /** The hierarchies reachable through the tree control: either the roots in
      enumeration order (an absent `hierarchies` field gives none), or a
      failure while reading the tree control itself. */
  datatype ExplorerTree =
    | Hierarchies(roots: seq<Root>)
    | Unreadable

  /** `SqlConnectionStringBuilder`, left uninterpreted:
      `parse(s)` is the builder's `ConnectionString` right after
      `new SqlConnectionStringBuilder(s)`, or `None` when that constructor
      rejects `s` and throws, `withCatalog(s, n)` is its
      `ConnectionString` after `InitialCatalog = n` when it held `s`, and
      `dataSource(s)` is its `DataSource` while it holds `s`. */
  datatype ConnectionStringLibrary = ConnectionStringLibrary(
    parse: string -> Option<string>,
    withCatalog: (string, string) -> string,
    dataSource: string -> string)

  /** A `SqlConnectionStringBuilder` object, reduced to the string it holds.
      The manager creates one per server and overwrites its `InitialCatalog`
      in place; only that mutation is modelled. A string the constructor
      rejects never reaches it: the caller takes the exception path first. */
  class ConnectionStringBuilder {
    const library: ConnectionStringLibrary
    var connectionString: string

    constructor (library: ConnectionStringLibrary, source: string)
      requires library.parse(source).Some?
      ensures this.library == library
      ensures connectionString == library.parse(source).value
    {
      this.library := library;
      connectionString := library.parse(source).value;
    }

    function DataSource(): string
      reads this
    {
      library.dataSource(connectionString)
    }

    method SetInitialCatalog(name: string)
      modifies this
      ensures connectionString == library.withCatalog(old(connectionString), name)
    {
      connectionString := library.withCatalog(connectionString, name);
    }
  }

  /** What running the database-name query over a connection gives: the
      first column of every row, in reader order, or an exception (failed
      open, timeout, SQL error, a failure part-way through the reader). */
  datatype Reply = Rows(names: seq<string>) | QueryFailed

  /** Everything the catalog builder needs from outside. */
  datatype Host = Host(library: ConnectionStringLibrary, query: string -> Reply)

  /** The catalog the builder uses to ask a server for its databases. */
  const MasterCatalog: string := "master"

  /** The connection the root contributes to the server list, if any:
      `None` when the root is skipped, `Some(None)` when a null entry is
      appended, `Some(Some(cs))` for a real server. */
  function Contribution(r: Root): Option<Option<string>>
  {
    match r
    case NotServiceProvider => None
    case ServiceProvider(NotNodeInformation) => None
    case ServiceProvider(GetServiceThrows) => None
    case ServiceProvider(NodeInformation(SqlConnectionInfo(cs))) => Some(Some(cs))
    case ServiceProvider(NodeInformation(OtherConnection)) => Some(None)
  }

  /** Whether looking the root up raises an exception. */
  predicate Throws(r: Root)
  {
    r == ServiceProvider(GetServiceThrows)
  }
}

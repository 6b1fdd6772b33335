/** `Db._configureSequelize`: the connection options a database handle resolves from
    its configuration before it hands them to Sequelize. */
module Database {
  import opened Seqs

  datatype Engine = MySql | Postgres | MsSql | Sqlite | MariaDb

  /** The configuration of a handle: a mock, or the options of a real database. A
      number that is absent is `None`; `hasLogger` says whether a winston logger is
      given. */
  datatype DbOptions =
    | Mock
    | Options(proxy: Option<string>, mysqlDecimalNumbers: Option<bool>, multipleStatements: Option<bool>,
              logging: Option<bool>, hostname: Option<string>, dbName: string, username: string,
              password: string, port: Option<int>, engine: Engine, sqliteStoragePath: Option<string>,
              instanceName: Option<string>, timezone: Option<string>, hasLogger: bool)

  /** What the `logging` option of Sequelize ends up as: off, the logger's `info`, or
      `undefined` when logging is asked for without a logger. */
  datatype Logging = Off | LoggerInfo | Unset

  datatype Pool = Pool(acquire: int, idle: int, max: int, min: int)

  datatype DialectOptions =
    | NoDialectOptions
    | MySqlDialect(socketPath: Option<string>, connectTimeout: int, decimalNumbers: Option<bool>,
                   multipleStatements: Option<bool>, timezone: string)
    | MsSqlDialect(instanceName: Option<string>, timezone: string)

  /** What is passed to `new Sequelize`: the in-memory sqlite URL of a mock, or an
      options object. */
  datatype SequelizeConfig =
    | InMemory(logging: Logging)
    | Config(database: string, dialect: Engine, host: string, logging: Logging, password: string,
             pool: Pool, port: Option<int>, storage: Option<string>, username: string,
             dialectOptions: DialectOptions)

  /** An optional string JavaScript treats as true. */
  predicate Truthy(s: Option<string>)
  {
    s.Some? && s.value != ""
  }

  /** `x || fallback` on an optional string: the option's text unless it is absent or
      empty, so the result is empty only when the fallback is too. */
  function Or(s: Option<string>, fallback: string): (r: string)
    ensures r == fallback || (s.Some? && r == s.value)
    ensures r == "" <==> !Truthy(s) && fallback == ""
    ensures Truthy(s) ==> r == s.value
    ensures !Truthy(s) ==> r == fallback
  {
    if Truthy(s) then s.value else fallback
  }

  const FiveMinutes := 1000 * 60 * 5

  /** The port each engine listens on by default; sqlite has none. */
  function DefaultPort(engine: Engine): Option<int>
  {
    match engine
    case MsSql => Some(1433)
    case Postgres => Some(5432)
    case Sqlite => None
    case MySql => Some(3306)
    case MariaDb => Some(3306)
  }

  /** The port: the given one when it is a non-zero number, otherwise the engine's. */
  function ResolvePort(port: Option<int>, engine: Engine): Option<int>
  {
    if port.Some? && port.value != 0 then port
    else if engine == MsSql then Some(1433)
    else if engine == Postgres then Some(5432)
    else if engine == Sqlite then None
    else Some(3306)
  }

  /** A given port wins; otherwise each engine gets its standard port, and only sqlite,
      which is a file, gets none. */
  lemma PortChoice(port: Option<int>, engine: Engine)
    ensures port.Some? && port.value != 0 ==> ResolvePort(port, engine) == port
    ensures !(port.Some? && port.value != 0) ==> ResolvePort(port, engine) == DefaultPort(engine)
    ensures ResolvePort(port, engine).None? <==> engine == Sqlite && !(port.Some? && port.value != 0)
    ensures ResolvePort(port, engine).Some? ==> ResolvePort(port, engine).value != 0
  {
  }

  /** The `logging` option: the logger's `info` when logging is on. */
  function ResolveLogging(logging: Option<bool>, hasLogger: bool): (r: Logging)
    ensures r == Off <==> !(logging == Some(true))
  {
    if logging == Some(true) then (if hasLogger then LoggerInfo else Unset) else Off
  }

  /** The `dialectOptions` the `switch` sets, for the engines that have them. */
  function ResolveDialect(o: DbOptions): (d: DialectOptions)
    requires o.Options?
    ensures d.NoDialectOptions? <==> o.engine == Postgres || o.engine == Sqlite
    ensures d.MySqlDialect? ==> d.timezone != "" && d.connectTimeout == 300000
    ensures d.MsSqlDialect? ==> d.timezone != ""
  {
    match o.engine
    case MySql => MySqlDialect(o.proxy, FiveMinutes, o.mysqlDecimalNumbers, o.multipleStatements, Or(o.timezone, "+00:00"))
    case MariaDb => MySqlDialect(o.proxy, FiveMinutes, o.mysqlDecimalNumbers, o.multipleStatements, Or(o.timezone, "+00:00"))
    case MsSql => MsSqlDialect(o.instanceName, Or(o.timezone, "Europe/Zurich"))
    case _ => NoDialectOptions
  }

  /** The whole decision: what the handle passes to Sequelize, or the error it throws. */
  function Resolve(o: DbOptions): (r: Result<SequelizeConfig>)
  {
    if o.Mock? then Ok(InMemory(Off))
    else if o.engine == Sqlite && !Truthy(o.sqliteStoragePath) then
      Err("When db engine is sqlite, sqliteStoragePath must be set. Aborting..")
    else
      Ok(Config(o.dbName, o.engine, Or(o.hostname, "localhost"), ResolveLogging(o.logging, o.hasLogger),
                o.password, Pool(FiveMinutes, 10000, 10, 1), ResolvePort(o.port, o.engine),
                o.sqliteStoragePath, o.username, ResolveDialect(o)))
  }

  /** Only a sqlite database without a storage path is refused; a mock is never
      validated. */
  lemma ResolveFails(o: DbOptions)
    ensures Resolve(o).Err? <==> o.Options? && o.engine == Sqlite && !Truthy(o.sqliteStoragePath)
    ensures o.Mock? ==> Resolve(o) == Ok(InMemory(Off))
  {
  }

  /** A real configuration keeps the database, credentials, engine and storage path as
      given, connects to `localhost` unless a host is named, and uses the fixed pool. */
  lemma ResolveCopies(o: DbOptions)
    requires o.Options? && Resolve(o).Ok?
    ensures var c := Resolve(o).value;
      && c.Config?
      && c.database == o.dbName && c.username == o.username && c.password == o.password
      && c.dialect == o.engine && c.storage == o.sqliteStoragePath
      && c.host == (if Truthy(o.hostname) then o.hostname.value else "localhost")
      && c.pool == Pool(300000, 10000, 10, 1)
      && c.port == ResolvePort(o.port, o.engine)
      && (c.logging == Off <==> o.logging != Some(true))
  {
  }

  /** The time zone of a MySQL, MariaDB or SQL Server connection is the given one when
      it is non-empty, otherwise UTC for MySQL and MariaDB and Zurich for SQL Server. */
  lemma TimezoneDefaults(o: DbOptions)
    requires o.Options?
    ensures var d := ResolveDialect(o);
      && (d.MySqlDialect? ==> d.timezone == (if Truthy(o.timezone) then o.timezone.value else "+00:00"))
      && (d.MsSqlDialect? ==> d.timezone == (if Truthy(o.timezone) then o.timezone.value else "Europe/Zurich"))
      && (o.engine == MySql || o.engine == MariaDb <==> d.MySqlDialect?)
      && (o.engine == MsSql <==> d.MsSqlDialect?)
  {
  }

  /** A database handle; `sequelize` is what its connection was built from. */
  class Db {
    const options: DbOptions
    var sequelize: Option<SequelizeConfig>

    /** `new Db(options)`: configures the connection. Where the configuration throws,
        the constructor of the source throws too; this one cannot, and leaves the
        object without a configuration. */
    constructor(options: DbOptions)
      ensures this.options == options
      ensures sequelize == if Resolve(options).Ok? then Some(Resolve(options).value) else None
    {
      this.options := options;
      sequelize := None;
      new;
      var _ := ConfigureSequelize();
    }

    /** `_configureSequelize()`: `ok` is false when it throws, and then nothing changes. */
    method ConfigureSequelize() returns (ok: bool)
      modifies this
      ensures ok <==> Resolve(options).Ok?
      ensures ok ==> sequelize == Some(Resolve(options).value)
      ensures !ok ==> sequelize == old(sequelize)
    {
      if options.Mock? {
        sequelize := Some(InMemory(Off));
        return true;
      }
      if options.engine == Sqlite && !Truthy(options.sqliteStoragePath) {
        return false;
      }
      var port := ResolvePort(options.port, options.engine);
      var config := Config(options.dbName, options.engine, Or(options.hostname, "localhost"),
                           ResolveLogging(options.logging, options.hasLogger), options.password,
                           Pool(FiveMinutes, 10000, 10, 1), port, options.sqliteStoragePath,
                           options.username, NoDialectOptions);
      match config.dialect {
        case MySql =>
          config := config.(dialectOptions := MySqlDialect(options.proxy, FiveMinutes, options.mysqlDecimalNumbers,
                                                           options.multipleStatements, Or(options.timezone, "+00:00")));
        case MariaDb =>
          config := config.(dialectOptions := MySqlDialect(options.proxy, FiveMinutes, options.mysqlDecimalNumbers,
                                                           options.multipleStatements, Or(options.timezone, "+00:00")));
        case MsSql =>
          config := config.(dialectOptions := MsSqlDialect(options.instanceName, Or(options.timezone, "Europe/Zurich")));
        case _ =>
      }
      sequelize := Some(config);
      ok := true;
    }
  }
}

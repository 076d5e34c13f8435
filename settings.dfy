/** The database URL of src/config/settings.py: Settings.construct_db_url
    keeps a DATABASE_URL that is set and otherwise assembles one from the
    DB_* fields, each of which falls back to the process environment
    (given here as a map) and then to a default when it is empty, None or
    0. The environment is read when the validator runs. */
module Config {
  import opened Common
  import opened Text

  /** Python `a or b` on strings: `a` unless it is empty. */
  function Or(a: string, b: string): (r: string)
    ensures a != [] ==> r == a
    ensures a == [] ==> r == b
  {
    if a != [] then a else b
  }

  /** `x or y` where x is an Optional[str]: None and "" are both falsy. */
  function OrOpt(a: Option<string>, b: string): (r: string)
    ensures a.Some? && a.value != [] ==> r == a.value
    ensures a.None? || a.value == [] ==> r == b
  {
    if a.Some? then Or(a.value, b) else b
  }

  /** os.getenv(key). */
  function Getenv(env: map<string, string>, key: string): (r: Option<string>)
    ensures r.Some? <==> key in env
    ensures r.Some? ==> r.value == env[key]
  {
    if key in env then Some(env[key]) else None
  }

  /** os.getenv(key, default). */
  function GetenvOr(env: map<string, string>, key: string, default: string): (r: string)
    ensures key in env ==> r == env[key]
    ensures key !in env ==> r == default
  {
    if key in env then env[key] else default
  }

  // Decimal integers as int() reads them and str() writes them.

  predicate IsDigit(c: char) {
    '0' <= c <= '9'
  }

  predicate AllDigits(s: string) {
    forall k :: 0 <= k < |s| ==> IsDigit(s[k])
  }

  /** The value of a string of decimal digits. */
  function DigitsValue(s: string): (n: nat)
    requires AllDigits(s)
  {
    if s == [] then 0 else 10 * DigitsValue(s[..|s| - 1]) + (s[|s| - 1] - '0') as nat
  }

  function DigitChar(d: nat): (c: char)
    requires d < 10
    ensures IsDigit(c) && (c - '0') as nat == d
  {
    '0' + d as char
  }

  /** str(n) for n >= 0. */
  function NatToString(n: nat): (s: string)
    ensures s != [] && AllDigits(s)
  {
    if n < 10 then [DigitChar(n)] else NatToString(n / 10) + [DigitChar(n % 10)]
  }

  /** str(n). */
  function IntToString(n: int): (s: string)
    ensures s != [] && (s[0] == '-' || IsDigit(s[0])) && IsDigit(s[|s| - 1])
  {
    if n < 0 then "-" + NatToString(-n) else NatToString(n)
  }

  /** int(text) on a str: surrounding whitespace, an optional sign, then
      one or more ASCII digits. */
  function ParseInt(text: string): (r: Option<int>)
    ensures r.Some? ==> Strip(text) != []
  {
    var t := Strip(text);
    if t != [] && (t[0] == '-' || t[0] == '+') then
      var digits := t[1..];
      if digits != [] && AllDigits(digits) then
        var v: int := DigitsValue(digits);
        Some(if t[0] == '-' then -v else v)
      else None
    else if t != [] && AllDigits(t) then Some(DigitsValue(t))
    else None
  }

  /** The digits str() writes read back as the number. */
  lemma {:induction false} NatRoundTrip(n: nat)
    ensures DigitsValue(NatToString(n)) == n
  {
    if n >= 10 {
      NatRoundTrip(n / 10);
      var s := NatToString(n);
      assert s[..|s| - 1] == NatToString(n / 10);
    }
  }

  /** int(str(n)) == n. */
  lemma IntRoundTrip(n: int)
    ensures ParseInt(IntToString(n)) == Some(n)
  {
    var s := IntToString(n);
    StripKeeps(s);
    if n < 0 {
      NatRoundTrip(-n);
      assert s[1..] == NatToString(-n);
    } else {
      NatRoundTrip(n);
    }
  }

  /** user:password@ when there is a password, user@ otherwise. */
  function Auth(user: string, password: string): (a: string)
    ensures password != [] ==> a == user + ":" + password + "@"
    ensures password == [] ==> a == user + "@"
  {
    if password != [] then user + ":" + password + "@" else user + "@"
  }

  /** f"postgresql+{driver}://{auth}{host}:{port}/{db}". */
  function DbUrl(driver: string, user: string, password: string, host: string, port: int, db: string): (url: string)
  {
    "postgresql+" + driver + "://" + (Auth(user, password) + host + ":" + IntToString(port) + "/" + db)
  }

  /** The DB_* fields of a Settings object. */
  datatype DbFields = DbFields(
    user: Option<string>, password: Option<string>, host: string, port: int, name: string, driver: string)

  /** The components construct_db_url settles on. */
  function User(f: DbFields, env: map<string, string>): (r: string)
    ensures r != []
  {
    OrOpt(f.user, OrOpt(Getenv(env, "DB_USER"), "postgres"))
  }

  function Password(f: DbFields, env: map<string, string>): string {
    OrOpt(f.password, OrOpt(Getenv(env, "DB_PASSWORD"), ""))
  }

  /** int(os.getenv("DB_PORT", 5432)) when the field is 0: the default is
      an int already, an environment value is parsed. */
  function Port(f: DbFields, env: map<string, string>): (r: Result<int>)
    ensures f.port != 0 ==> r == Ok(f.port)
    ensures f.port == 0 && "DB_PORT" !in env ==> r == Ok(5432)
    ensures r.Err? ==> r.error == NotAnInteger(env["DB_PORT"])
  {
    if f.port != 0 then Ok(f.port)
    else if "DB_PORT" !in env then Ok(5432)
    else
      var parsed := ParseInt(env["DB_PORT"]);
      if parsed.Some? then Ok(parsed.value) else Err(NotAnInteger(env["DB_PORT"]))
  }

  /** The URL construct_db_url builds, or the error int() raises. */
  function BuiltUrl(f: DbFields, env: map<string, string>): (r: Result<string>)
  {
    var port := Port(f, env);
    if port.Err? then Err(port.error)
    else
      Ok(DbUrl(Or(f.driver, GetenvOr(env, "DB_DRIVER", "psycopg2")), User(f, env), Password(f, env),
               Or(f.host, GetenvOr(env, "DB_HOST", "localhost")), port.value,
               Or(f.name, GetenvOr(env, "DB_NAME", "fixing_service_db"))))
  }

  /** With the field defaults (host "localhost", port 5432, name
      "postgres") and any driver, the environment only supplies the user
      and the password. */
  lemma FieldDefaultsWin(env: map<string, string>, user: Option<string>, password: Option<string>, driver: string)
    requires driver != []
    ensures BuiltUrl(DbFields(user, password, "localhost", 5432, "postgres", driver), env)
      == Ok(DbUrl(driver, User(DbFields(user, password, "localhost", 5432, "postgres", driver), env),
                  Password(DbFields(user, password, "localhost", 5432, "postgres", driver), env),
                  "localhost", 5432, "postgres"))
  {
  }

  /** With no field and no environment value, every component takes its
      last default, the port is written as "5432" and the password part is
      left out. */
  lemma AllDefaults()
    ensures BuiltUrl(DbFields(None, None, "", 0, "", ""), map[])
      == Ok(DbUrl("psycopg2", "postgres", "", "localhost", 5432, "fixing_service_db"))
    ensures IntToString(5432) == "5432" && Auth("postgres", "") == "postgres@"
  {
    assert NatToString(54) == "54";
    assert NatToString(543) == "543";
  }

  /** The components read back out of a URL. */
  datatype UrlParts = UrlParts(driver: string, user: string, password: string, host: string, port: int, db: string)

  /** The index of the first `c` in `s`, or |s| when there is none. */
  function Find(s: string, c: char): (i: nat)
    ensures i <= |s| && (i < |s| ==> s[i] == c)
    ensures forall k :: 0 <= k < i ==> s[k] != c
  {
    if s == [] then 0 else if s[0] == c then 0 else 1 + Find(s[1..], c)
  }

  /** The first `c` of a + [c] + b is the one after `a` when `a` has none. */
  lemma FindAfter(a: string, c: char, b: string)
    requires c !in a
    ensures Find(a + [c] + b, c) == |a|
    ensures (a + [c] + b)[..|a|] == a && (a + [c] + b)[|a| + 1..] == b
  {
    var s := a + [c] + b;
    assert forall k :: 0 <= k < |a| ==> s[k] == a[k];
    assert s[|a|] == c;
  }

  /** `user` or `user:password`. */
  function ParseUserinfo(userinfo: string): (r: (string, string))
  {
    var k := Find(userinfo, ':');
    if k < |userinfo| then (userinfo[..k], userinfo[k + 1..]) else (userinfo, "")
  }

  /** `host:port/db`. */
  function ParseHostPart(hostpart: string): (r: Option<(string, int, string)>)
  {
    var m := Find(hostpart, ':');
    if m == |hostpart| then None
    else
      var tail := hostpart[m + 1..];
      var n := Find(tail, '/');
      if n == |tail| then None
      else
        var port := ParseInt(tail[..n]);
        if port.None? then None else Some((hostpart[..m], port.value, tail[n + 1..]))
  }

  /** `userinfo@host:port/db`: the userinfo ends at the first `@`. */
  function ParseAuthority(authority: string): (r: Option<(string, string, string, int, string)>)
  {
    var j := Find(authority, '@');
    if j == |authority| then None
    else
      var (user, password) := ParseUserinfo(authority[..j]);
      var hostPart := ParseHostPart(authority[j + 1..]);
      if hostPart.None? then None
      else Some((user, password, hostPart.value.0, hostPart.value.1, hostPart.value.2))
  }

  /** Splits a database URL back into its components; the inverse of
      DbUrl for components that do not contain the delimiters. */
  function ParseDbUrl(url: string): (r: Option<UrlParts>)
  {
    if |url| < 11 || url[..11] != "postgresql+" then None
    else
      var rest := url[11..];
      var i := Find(rest, ':');
      if i == |rest| || |rest[i + 1..]| < 2 || rest[i + 1..][..2] != "//" then None
      else
        var authority := ParseAuthority(rest[i + 1..][2..]);
        if authority.None? then None
        else
          var (user, password, host, port, db) := authority.value;
          Some(UrlParts(rest[..i], user, password, host, port, db))
  }

  lemma UserinfoRoundTrip(user: string, password: string)
    requires ':' !in user
    ensures ParseUserinfo(if password != [] then user + ":" + password else user) == (user, password)
  {
    if password != [] {
      FindAfter(user, ':', password);
    }
  }

  lemma HostPartRoundTrip(host: string, port: int, db: string)
    requires ':' !in host
    ensures ParseHostPart(host + ":" + (IntToString(port) + "/" + db)) == Some((host, port, db))
  {
    var ps := IntToString(port);
    FindAfter(host, ':', ps + "/" + db);
    assert '/' !in ps;
    FindAfter(ps, '/', db);
    IntRoundTrip(port);
  }

  /** The authority splits at the `@` that ends a userinfo without one. */
  lemma AuthoritySplit(userinfo: string, hostpart: string)
    requires '@' !in userinfo
    ensures var hostPart := ParseHostPart(hostpart);
      ParseAuthority(userinfo + "@" + hostpart)
        == if hostPart.None? then None
           else Some((ParseUserinfo(userinfo).0, ParseUserinfo(userinfo).1,
                      hostPart.value.0, hostPart.value.1, hostPart.value.2))
  {
    FindAfter(userinfo, '@', hostpart);
  }

  lemma AuthorityRoundTrip(user: string, password: string, host: string, port: int, db: string)
    requires ':' !in user && '@' !in user && '@' !in password && ':' !in host
    ensures ParseAuthority(Auth(user, password) + host + ":" + IntToString(port) + "/" + db)
      == Some((user, password, host, port, db))
  {
    var userinfo := if password != [] then user + ":" + password else user;
    var hostpart := host + ":" + (IntToString(port) + "/" + db);
    assert Auth(user, password) + host + ":" + IntToString(port) + "/" + db == userinfo + "@" + hostpart;
    AuthoritySplit(userinfo, hostpart);
    UserinfoRoundTrip(user, password);
    HostPartRoundTrip(host, port, db);
  }

  /** The URL splits after its scheme at the first `:`, which ends a driver
      without one. */
  lemma UrlSplit(driver: string, authority: string)
    requires ':' !in driver
    ensures var parsed := ParseAuthority(authority);
      ParseDbUrl("postgresql+" + (driver + ":" + ("//" + authority)))
        == if parsed.None? then None
           else Some(UrlParts(driver, parsed.value.0, parsed.value.1, parsed.value.2, parsed.value.3, parsed.value.4))
  {
    var rest := driver + ":" + ("//" + authority);
    assert ("postgresql+" + rest)[11..] == rest;
    FindAfter(driver, ':', "//" + authority);
    assert ("//" + authority)[2..] == authority;
  }

  lemma Regroup(driver: string, authority: string)
    ensures "postgresql+" + driver + "://" + authority == "postgresql+" + (driver + ":" + ("//" + authority))
  {
    assert "://" == ":" + "//";
  }

  /** Reading a built URL gives back its components, provided the driver,
      the user and the host have no `:` and the user and the password no
      `@`. */
  lemma UrlRoundTrip(driver: string, user: string, password: string, host: string, port: int, db: string)
    requires ':' !in driver && ':' !in user && '@' !in user && '@' !in password && ':' !in host
    ensures ParseDbUrl(DbUrl(driver, user, password, host, port, db)) == Some(UrlParts(driver, user, password, host, port, db))
  {
    var authority := Auth(user, password) + host + ":" + IntToString(port) + "/" + db;
    Regroup(driver, authority);
    UrlSplit(driver, authority);
    AuthorityRoundTrip(user, password, host, port, db);
  }

  /** The application settings. */
  class Settings {
    var databaseUrl: Option<string>
    var dbUser: Option<string>
    var dbPassword: Option<string>
    var dbHost: string
    var dbPort: int
    var dbName: string
    var dbDriver: string

    /** Settings() with the given field values; the field defaults are
        host "localhost", port 5432, name "postgres". */
    constructor (databaseUrl: Option<string>, dbUser: Option<string>, dbPassword: Option<string>, dbHost: string,
                 dbPort: int, dbName: string, dbDriver: string)
      ensures this.databaseUrl == databaseUrl && Fields() == DbFields(dbUser, dbPassword, dbHost, dbPort, dbName, dbDriver)
    {
      this.databaseUrl, this.dbUser, this.dbPassword := databaseUrl, dbUser, dbPassword;
      this.dbHost, this.dbPort, this.dbName, this.dbDriver := dbHost, dbPort, dbName, dbDriver;
    }

    function Fields(): DbFields
      reads this
    {
      DbFields(dbUser, dbPassword, dbHost, dbPort, dbName, dbDriver)
    }

    /** construct_db_url: a DATABASE_URL that is set and non-empty is kept;
        otherwise the built URL is stored, unless int() refuses the
        environment's DB_PORT, in which case nothing changes. */
    method ConstructDbUrl(env: map<string, string>) returns (r: Result<string>)
      modifies this`databaseUrl
      ensures old(databaseUrl).Some? && old(databaseUrl).value != [] ==>
        databaseUrl == old(databaseUrl) && r == Ok(old(databaseUrl).value)
      ensures (old(databaseUrl).None? || old(databaseUrl).value == []) ==>
        r == BuiltUrl(Fields(), env) && databaseUrl == (if r.Ok? then Some(r.value) else old(databaseUrl))
    {
      if databaseUrl.Some? && databaseUrl.value != [] {
        return Ok(databaseUrl.value);
      }
      var user := OrOpt(dbUser, OrOpt(Getenv(env, "DB_USER"), "postgres"));
      var password := OrOpt(dbPassword, OrOpt(Getenv(env, "DB_PASSWORD"), ""));
      var host := Or(dbHost, GetenvOr(env, "DB_HOST", "localhost"));
      var port: int;
      if dbPort != 0 {
        port := dbPort;
      } else if "DB_PORT" in env {
        var parsed := ParseInt(env["DB_PORT"]);
        if parsed.None? {
          return Err(NotAnInteger(env["DB_PORT"]));
        }
        port := parsed.value;
      } else {
        port := 5432;
      }
      var db := Or(dbName, GetenvOr(env, "DB_NAME", "fixing_service_db"));
      var driver := Or(dbDriver, GetenvOr(env, "DB_DRIVER", "psycopg2"));
      var auth: string;
      if password != [] {
        auth := user + ":" + password + "@";
      } else {
        auth := user + "@";
      }
      var url := "postgresql+" + driver + "://" + (auth + host + ":" + IntToString(port) + "/" + db);
      databaseUrl := Some(url);
      r := Ok(url);
    }
  }
}

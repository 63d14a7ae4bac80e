/** The two pure pieces of the database module: the report of which tables
    already exist, and the PostgreSQL connection URL built from the
    configured user, password, host and database name. */
module Database {
  import opened Wrappers

  // ---------------------------------------------------------------------
  // table_check

  const NoTablesMessage: string := "There is no table in the database"
  const TablesHeader: string := "Tables already exist in the database:"
  /** Newline, tab, dash, space: the start of every table entry. */
  const EntryPrefix: string := "\n\t- "

  /** The entries of the report, one `"\n\t- " + name` per table, in order. */
  function Listing(names: seq<string>): string {
    if names == [] then ""
    else Listing(names[..|names| - 1]) + EntryPrefix + names[|names| - 1]
  }

  /** The text `table_check` returns for the given table names. */
  function TableReport(names: seq<string>): string {
    if names == [] then NoTablesMessage else TablesHeader + Listing(names)
  }

  /** `table_check`: the header followed by one entry per table, or the
      no-table message when there are none. */
  method TableCheck(existingTables: seq<string>) returns (result: string)
    ensures result == TableReport(existingTables)
  {
    if |existingTables| > 0 {
      result := TablesHeader;
      for i := 0 to |existingTables|
        invariant result == TablesHeader + Listing(existingTables[..i])
      {
        assert existingTables[..i + 1][..i] == existingTables[..i];
        result := result + EntryPrefix + existingTables[i];
      }
      assert existingTables[..|existingTables|] == existingTables;
    } else {
      result := NoTablesMessage;
    }
  }

  /** Length of the listing of the given names: four characters of prefix
      plus the name, for every name. */
  function ListingSize(names: seq<string>): nat {
    if names == [] then 0
    else ListingSize(names[..|names| - 1]) + |EntryPrefix| + |names[|names| - 1]|
  }

  /** The listing of two lists of names is the concatenation of their listings. */
  lemma {:induction false} ListingAppend(a: seq<string>, b: seq<string>)
    ensures Listing(a + b) == Listing(a) + Listing(b)
    decreases |b|
  {
    if b == [] {
      assert a + b == a;
    } else {
      var b' := b[..|b| - 1];
      assert (a + b)[..|a + b| - 1] == a + b';
      ListingAppend(a, b');
    }
  }

  lemma {:induction false} ListingLength(names: seq<string>)
    ensures |Listing(names)| == ListingSize(names)
    decreases |names|
  {
    if names != [] {
      ListingLength(names[..|names| - 1]);
    }
  }

  /** Entry i of the report sits right after the entries of the names before it. */
  lemma ListingEntry(names: seq<string>, i: int)
    requires 0 <= i < |names|
    ensures ListingSize(names[..i]) + |EntryPrefix| + |names[i]| <= |Listing(names)|
    ensures Listing(names)[ListingSize(names[..i])..ListingSize(names[..i]) + |EntryPrefix| + |names[i]|]
         == EntryPrefix + names[i]
  {
    var pre, post := names[..i], names[i + 1..];
    assert names == pre + [names[i]] + post;
    ListingAppend(pre + [names[i]], post);
    ListingAppend(pre, [names[i]]);
    assert Listing([names[i]]) == EntryPrefix + names[i] by {
      assert [names[i]][..0] == [];
    }
    ListingLength(pre);
  }

  /** The report is the no-table message exactly when there are no tables;
      otherwise it starts with the header and is followed by the listing. */
  lemma ReportShape(names: seq<string>)
    ensures TableReport(names) == NoTablesMessage <==> names == []
    ensures names != [] ==> TableReport(names)[..|TablesHeader|] == TablesHeader
    ensures names != [] ==> TableReport(names)[|TablesHeader|..] == Listing(names)
  {
    if names != [] {
      assert |TableReport(names)| >= |TablesHeader| > |NoTablesMessage|;
    }
  }

  /** The report's length when there are tables: header plus entries. */
  lemma ReportLength(names: seq<string>)
    requires names != []
    ensures |TableReport(names)| == |TablesHeader| + ListingSize(names)
  {
    ListingLength(names);
  }

  // ---------------------------------------------------------------------
  // The connection URL

  const Scheme: string := "postgresql+psycopg2://"
  const Port: string := "5432"

  /** `get_connection_string` once the four settings are read: the URL starts
      with the scheme, and port 5432 always follows the domain. */
  function ConnectionUrl(username: string, password: string, domain: string, dbName: string): (r: string)
    ensures |r| == |Scheme| + |username| + |password| + |domain| + |dbName| + 8
    ensures r[..|Scheme|] == Scheme
    ensures var k := |Scheme| + |username| + |password| + |domain| + 2; r[k..k + 6] == ":" + Port + "/"
    ensures r[|r| - |dbName|..] == dbName
  {
    Scheme + username + ":" + password + "@" + domain + ":" + Port + "/" + dbName
  }

  /** The components a reader of the URL recovers. */
  datatype UrlParts = UrlParts(username: string, password: string, host: string, port: string, database: string)

  /** Position of the first occurrence of c in s. */
  function IndexOf(s: string, c: char): (r: Option<nat>)
    ensures r.Some? ==> r.value < |s| && s[r.value] == c && c !in s[..r.value]
    ensures r.None? <==> c !in s
  {
    if s == [] then None
    else if s[0] == c then Some(0)
    else
      match IndexOf(s[1..], c)
      case None => None
      case Some(i) =>
        assert s[..i + 1] == [s[0]] + s[1..][..i];
        Some(i + 1)
  }

  /** s cut at the first c, the c itself dropped. */
  function SplitAtFirst(s: string, c: char): (r: Option<(string, string)>)
    ensures r.Some? ==> s == r.value.0 + [c] + r.value.1 && c !in r.value.0
    ensures r.None? <==> c !in s
  {
    match IndexOf(s, c)
    case None => None
    case Some(i) =>
      assert s == s[..i] + [c] + s[i + 1..];
      Some((s[..i], s[i + 1..]))
  }

  /** Cutting at the first c finds the c that follows a c-free prefix. */
  lemma SplitAtFirstOf(a: string, c: char, b: string)
    requires c !in a
    ensures SplitAtFirst(a + [c] + b, c) == Some((a, b))
  {
    var s := a + [c] + b;
    var r := SplitAtFirst(s, c);
    assert r.Some? by {
      assert s[|a|] == c;
    }
    var (x, y) := r.value;
    assert |x| <= |a| by {
      assert s[|a|] == c;
      assert s == x + ([c] + y);
    }
    assert |a| <= |x| by {
      assert s[|x|] == c;
      assert s == a + ([c] + b);
    }
    assert x == s[..|a|] == a;
    assert y == s[|a| + 1..] == b;
  }

  /** Reads a URL of the form scheme user:password@host:port/database, cutting
      user information at the first '@', the user at the first ':', the host
      and port at the first '/' and the host at the first ':' (the generic
      syntax of section 3.2 of RFC 3986, without percent-decoding). */
  function ParseConnectionUrl(url: string): Option<UrlParts> {
    if |url| < |Scheme| || url[..|Scheme|] != Scheme then None
    else
      match SplitAtFirst(url[|Scheme|..], '@')
      case None => None
      case Some((userInfo, location)) =>
        match SplitAtFirst(userInfo, ':')
        case None => None
        case Some((username, password)) =>
          match SplitAtFirst(location, '/')
          case None => None
          case Some((hostPort, database)) =>
            match SplitAtFirst(hostPort, ':')
            case None => None
            case Some((host, port)) => Some(UrlParts(username, password, host, port, database))
  }

  /** When no setting contains a delimiter of its own part, the URL reads back
      as the four settings and port 5432. */
  lemma ConnectionUrlRoundTrip(username: string, password: string, domain: string, dbName: string)
    requires ':' !in username && '@' !in username && '@' !in password
    requires ':' !in domain && '/' !in domain
    ensures ParseConnectionUrl(ConnectionUrl(username, password, domain, dbName))
         == Some(UrlParts(username, password, domain, Port, dbName))
  {
    var url := ConnectionUrl(username, password, domain, dbName);
    var userInfo := username + ":" + password;
    var location := domain + ":" + Port + "/" + dbName;
    assert url[..|Scheme|] == Scheme;
    assert url[|Scheme|..] == userInfo + ['@'] + location;
    SplitAtFirstOf(userInfo, '@', location);
    SplitAtFirstOf(username, ':', password);
    assert userInfo == username + [':'] + password;
    SplitAtFirstOf(domain + ":" + Port, '/', dbName);
    assert location == (domain + ":" + Port) + ['/'] + dbName;
    SplitAtFirstOf(domain, ':', Port);
    assert domain + ":" + Port == domain + [':'] + Port;
  }

  /** As written, the settings go into the URL unescaped: a user name with a
      ':' and a password with a ':' can give the same URL. */
  lemma ConnectionUrlAmbiguous()
    ensures ConnectionUrl("admin:x", "pw", "localhost", "db") == ConnectionUrl("admin", "x:pw", "localhost", "db")
  {
  }

  /** As written, a password with an '@' is cut at that '@' and the rest of
      it is read as part of the host. */
  lemma ConnectionUrlPasswordWithAt(username: string, p1: string, p2: string, domain: string, dbName: string)
    requires ':' !in username && '@' !in username && '@' !in p1
    requires ':' !in p2 && '/' !in p2 && ':' !in domain && '/' !in domain
    ensures ParseConnectionUrl(ConnectionUrl(username, p1 + "@" + p2, domain, dbName))
         == Some(UrlParts(username, p1, p2 + "@" + domain, Port, dbName))
  {
    assert ConnectionUrl(username, p1 + "@" + p2, domain, dbName)
        == ConnectionUrl(username, p1, p2 + "@" + domain, dbName);
    ConnectionUrlRoundTrip(username, p1, p2 + "@" + domain, dbName);
  }

  // ---------------------------------------------------------------------
  // The URL with percent-encoded credentials

  /** The characters that delimit the user information, and '%' itself. */
  predicate IsReserved(c: char) {
    c == '%' || c == ':' || c == '@' || c == '/'
  }

  /** Percent-encoding of one reserved character (section 2.1 of RFC 3986). */
  function QuoteChar(c: char): (r: string)
    ensures IsReserved(c) ==> |r| == 3 && r[0] == '%'
    ensures !IsReserved(c) ==> r == [c]
  {
    if c == '%' then "%25"
    else if c == ':' then "%3A"
    else if c == '@' then "%40"
    else if c == '/' then "%2F"
    else [c]
  }

  function Quote(s: string): (r: string)
    ensures ':' !in r && '@' !in r && '/' !in r
  {
    if s == [] then [] else QuoteChar(s[0]) + Quote(s[1..])
  }

  /** The reserved character an escape stands for, if it is one of ours. */
  function EscapedChar(h: string): Option<char> {
    if h == "25" then Some('%')
    else if h == "3A" then Some(':')
    else if h == "40" then Some('@')
    else if h == "2F" then Some('/')
    else None
  }

  /** Percent-decoding; an escape it does not know is kept as it stands. */
  function Unquote(s: string): string
    decreases |s|
  {
    if s == [] then []
    else if s[0] == '%' && |s| >= 3 && EscapedChar(s[1..3]).Some? then
      [EscapedChar(s[1..3]).value] + Unquote(s[3..])
    else [s[0]] + Unquote(s[1..])
  }

  lemma {:induction false} UnquoteQuote(s: string)
    ensures Unquote(Quote(s)) == s
    decreases |s|
  {
    if s != [] {
      UnquoteQuote(s[1..]);
      var q := Quote(s);
      var head := QuoteChar(s[0]);
      assert q == head + Quote(s[1..]);
      if IsReserved(s[0]) {
        assert q[1..3] == head[1..3];
        assert q[3..] == Quote(s[1..]);
      } else {
        assert q[1..] == Quote(s[1..]);
      }
    }
  }

  /** The URL with user name and password percent-encoded before they are
      put into the template. */
  function QuotedConnectionUrl(username: string, password: string, domain: string, dbName: string): string {
    ConnectionUrl(Quote(username), Quote(password), domain, dbName)
  }

  /** With the credentials encoded, every user name and password reads back
      as it was, whatever characters they hold. */
  lemma QuotedConnectionUrlRoundTrip(username: string, password: string, domain: string, dbName: string)
    requires ':' !in domain && '/' !in domain
    ensures var p := ParseConnectionUrl(QuotedConnectionUrl(username, password, domain, dbName));
      p.Some? && Unquote(p.value.username) == username && Unquote(p.value.password) == password
      && p.value.host == domain && p.value.port == Port && p.value.database == dbName
  {
    ConnectionUrlRoundTrip(Quote(username), Quote(password), domain, dbName);
    UnquoteQuote(username);
    UnquoteQuote(password);
  }

  /** Hence distinct settings give distinct encoded URLs. */
  lemma QuotedConnectionUrlInjective(u1: string, p1: string, d1: string, n1: string,
                                     u2: string, p2: string, d2: string, n2: string)
    requires ':' !in d1 && '/' !in d1 && ':' !in d2 && '/' !in d2
    requires QuotedConnectionUrl(u1, p1, d1, n1) == QuotedConnectionUrl(u2, p2, d2, n2)
    ensures u1 == u2 && p1 == p2 && d1 == d2 && n1 == n2
  {
    QuotedConnectionUrlRoundTrip(u1, p1, d1, n1);
    QuotedConnectionUrlRoundTrip(u2, p2, d2, n2);
  }
}

/**
 * `parse_address_spec`: the `--listen-on` endpoint syntax `<protocol>:<rest>`,
 * turned into a socket family, an address and, for a filesystem socket, the
 * path that has to be removed again when the socket is closed.
 */
module AddressSpec {
  import opened Wrappers
  import Strings
  import Decimal

  datatype Family = AF_UNIX | AF_INET | AF_INET6

  /** A Unix socket address (a path, or `\0name` in the abstract namespace) or a host and port. */
  datatype Address = UnixAddress(path: string) | InetAddress(host: string, port: nat)

  datatype Endpoint = Endpoint(family: Family, address: Address, socketPath: Option<string>)

  /** The four ways the parse raises `ValueError`. */
  datatype SpecError =
    | NoProtocolSeparator     // `spec.split(':', 1)` gave one part
    | NoPortSeparator         // `rest.rsplit(':', 1)` gave one part
    | InvalidPort(port: string)
    | UnknownProtocol(spec: string)

  function ParseAddressSpec(spec: string): (r: Result<Endpoint, SpecError>)
    ensures ':' !in spec ==> r == Err(NoProtocolSeparator)
    ensures r.Ok? ==> WellFormed(r.value)
  {
    match Strings.SplitOnce(spec, ':')
    case None => Err(NoProtocolSeparator)
    case Some((protocol, rest)) =>
      if protocol == "unix" then Ok(UnixEndpoint(rest))
      else if protocol == "tcp" || protocol == "tcp6" then
        InetEndpoint(if protocol == "tcp" then AF_INET else AF_INET6, rest)
      else
        Err(UnknownProtocol(spec))
  }

  /**
   * The rest of a `unix:` spec: `@name` with a non-empty name is the abstract
   * address `\0name` with nothing to clean up; anything else, a bare `@`
   * included, is both the address and the cleanup path.
   */
  function UnixEndpoint(rest: string): (e: Endpoint)
    ensures WellFormed(e) && e.family == AF_UNIX
  {
    if |rest| > 1 && rest[0] == '@' then Endpoint(AF_UNIX, UnixAddress("\0" + rest[1..]), None)
    else Endpoint(AF_UNIX, UnixAddress(rest), Some(rest))
  }

  /** The rest of a `tcp:` or `tcp6:` spec: host before the last `:`, port after it. */
  function InetEndpoint(family: Family, rest: string): (r: Result<Endpoint, SpecError>)
    requires family != AF_UNIX
    ensures ':' !in rest <==> r == Err(NoPortSeparator)
    ensures r.Ok? ==> WellFormed(r.value) && r.value.family == family
  {
    match Strings.RSplitOnce(rest, ':')
    case None => Err(NoPortSeparator)
    case Some((host, port)) =>
      match Decimal.ParseNat(port)
      case None => Err(InvalidPort(port))
      case Some(p) => Ok(Endpoint(family, InetAddress(host, p), None))
  }

  /**
   * The endpoints the parse can produce: a Unix address is either a path that
   * is also the cleanup path, or an abstract `\0name` with a non-empty name and
   * no cleanup path; an internet address never carries a cleanup path.
   */
  predicate WellFormed(e: Endpoint)
  {
    match e.family
    case AF_UNIX =>
      && e.address.UnixAddress?
      && var p := e.address.path;
         || (e.socketPath == Some(p) && !(|p| > 1 && p[0] == '@'))
         || (e.socketPath == None && |p| >= 2 && p[0] == '\0')
    case _ => e.address.InetAddress? && e.socketPath == None
  }

  /** The spec string that denotes a well-formed endpoint; the inverse of the parse. */
  function FormatAddressSpec(e: Endpoint): string
    requires WellFormed(e)
  {
    match e.family
    case AF_UNIX =>
      if e.socketPath.None? then "unix:@" + e.address.path[1..] else "unix:" + e.address.path
    case _ => InetProtocol(e.family) + ":" + e.address.host + ":" + Decimal.Show(e.address.port)
  }

  /** The protocol name that selects an internet family. */
  function InetProtocol(family: Family): string
  {
    if family == AF_INET then "tcp" else "tcp6"
  }

  /** The protocol is what precedes the first `:`, whatever `rest` holds. */
  lemma ProtocolSplit(protocol: string, rest: string)
    requires ':' !in protocol
    ensures Strings.SplitOnce(protocol + ":" + rest, ':') == Some((protocol, rest))
  {
    var r := Strings.SplitOnce(protocol + ":" + rest, ':');
    Strings.SplitUnique(protocol, rest, r.value.0, r.value.1, ':');
  }

  /** The port is what follows the last `:`, so a host keeps every colon it holds. */
  lemma PortSplit(host: string, port: string)
    requires ':' !in port
    ensures Strings.RSplitOnce(host + ":" + port, ':') == Some((host, port))
  {
    var r := Strings.RSplitOnce(host + ":" + port, ':');
    Strings.RSplitUnique(host, port, r.value.0, r.value.1, ':');
  }

  /** The parse of `<protocol>:<rest>` hands `rest` to the branch the protocol selects. */
  lemma Dispatch(protocol: string, rest: string)
    requires ':' !in protocol
    ensures var r := ParseAddressSpec(protocol + ":" + rest);
      && (protocol == "unix" ==> r == Ok(UnixEndpoint(rest)))
      && (protocol == "tcp" ==> r == InetEndpoint(AF_INET, rest))
      && (protocol == "tcp6" ==> r == InetEndpoint(AF_INET6, rest))
      && (protocol != "unix" && protocol != "tcp" && protocol != "tcp6" ==>
            r == Err(UnknownProtocol(protocol + ":" + rest)))
  {
    ProtocolSplit(protocol, rest);
  }

  /**
   * `unix:@name` with a non-empty name is the abstract address `\0name` with
   * nothing to clean up; any other `unix:` rest, a bare `@` included, is both
   * the address and the cleanup path.
   */
  lemma ParseUnix(rest: string)
    ensures var r := ParseAddressSpec("unix:" + rest);
      && r.Ok? && r.value.family == AF_UNIX
      && (|rest| > 1 && rest[0] == '@' ==>
            r.value.address == UnixAddress("\0" + rest[1..]) && r.value.socketPath == None)
      && (!(|rest| > 1 && rest[0] == '@') ==>
            r.value.address == UnixAddress(rest) && r.value.socketPath == Some(rest))
  {
    assert "unix:" + rest == "unix" + ":" + rest;
    Dispatch("unix", rest);
  }

  /**
   * `tcp:` and `tcp6:` take the host from before the last `:` and the port from
   * after it; a port that is not a digit string raises.
   */
  lemma ParseInet(protocol: string, host: string, port: string)
    requires protocol == "tcp" || protocol == "tcp6"
    requires ':' !in port
    ensures var r := ParseAddressSpec(protocol + ":" + host + ":" + port);
      && (Decimal.ParseNat(port).None? ==> r == Err(InvalidPort(port)))
      && (Decimal.ParseNat(port).Some? ==>
            && r.Ok?
            && r.value.family == (if protocol == "tcp" then AF_INET else AF_INET6)
            && r.value.address == InetAddress(host, Decimal.ParseNat(port).value)
            && r.value.socketPath == None)
  {
    var rest := host + ":" + port;
    assert protocol + ":" + host + ":" + port == protocol + ":" + rest;
    Dispatch(protocol, rest);
    PortSplit(host, port);
  }

  /** `tcp:` or `tcp6:` followed by a rest without `:` (a port and no host) raises. */
  lemma ParseInetWithoutHost(protocol: string, rest: string)
    requires protocol == "tcp" || protocol == "tcp6"
    requires ':' !in rest
    ensures ParseAddressSpec(protocol + ":" + rest) == Err(NoPortSeparator)
  {
    Dispatch(protocol, rest);
  }

  /** Any protocol other than `unix`, `tcp` and `tcp6` raises, naming the whole spec. */
  lemma ParseUnknownProtocol(protocol: string, rest: string)
    requires ':' !in protocol
    requires protocol != "unix" && protocol != "tcp" && protocol != "tcp6"
    ensures ParseAddressSpec(protocol + ":" + rest) == Err(UnknownProtocol(protocol + ":" + rest))
  {
    Dispatch(protocol, rest);
  }

  /** Parsing a formatted endpoint recovers family, address, port and cleanup path. */
  lemma ParseFormat(e: Endpoint)
    requires WellFormed(e)
    ensures ParseAddressSpec(FormatAddressSpec(e)) == Ok(e)
  {
    match e.family
    case AF_UNIX =>
      var p := e.address.path;
      var rest := if e.socketPath.None? then "@" + p[1..] else p;
      assert FormatAddressSpec(e) == "unix:" + rest;
      assert "unix:" + rest == "unix" + ":" + rest;
      Dispatch("unix", rest);
      if e.socketPath.None? {
        assert "\0" + p[1..] == p;
      }
    case _ =>
      Decimal.ParseShow(e.address.port);
      ParseInet(InetProtocol(e.family), e.address.host, Decimal.Show(e.address.port));
  }

  /** A Unix spec is reproduced exactly by formatting what it parses to. */
  lemma FormatParseUnix(rest: string)
    ensures var r := ParseAddressSpec("unix:" + rest);
      r.Ok? && FormatAddressSpec(r.value) == "unix:" + rest
  {
    assert "unix:" + rest == "unix" + ":" + rest;
    Dispatch("unix", rest);
    FormatUnixEndpoint(rest);
  }

  lemma FormatUnixEndpoint(rest: string)
    ensures FormatAddressSpec(UnixEndpoint(rest)) == "unix:" + rest
  {
    if |rest| > 1 && rest[0] == '@' {
      var name := rest[1..];
      assert UnixEndpoint(rest).address.path[1..] == name;
      assert "unix:@" + name == "unix:" + rest;
    }
  }
}

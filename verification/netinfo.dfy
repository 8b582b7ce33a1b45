/** The text processing in the backend's system commands: reading the listening ports
    of each process out of `netstat -ano` output, sorting and de-duplicating the
    addresses a domain resolves to, and printing a window handle as `0x` plus upper-case
    hexadecimal. Running `netstat`, PowerShell and the resolver is outside the model:
    their output is a parameter. */
module NetInfo {

  import opened Options
  import opened Text
  import opened Sorting
  import opened Numerals

  /** One parsed `netstat` row: the owning process and a local port. */
  datatype Entry = Entry(pid: nat, port: nat)

  /** The local port of an address such as `0.0.0.0:135` or `[::]:445`: the text after
      the last colon, parsed as a `u16`. */
  function ParsePort(addr: string): (r: Option<nat>)
    ensures r.Some? ==> r.value < U16Limit
    ensures ':' !in addr ==> r.None?
  {
    match LastIndexOf(addr, ':')
    case None => None
    case Some(c) => ParseUnsigned(addr[c + 1..], U16Limit)
  }

  /** The entry of a row whose tokens passed the shape test: the last token parsed as a
      `u32` process id, the second as the local address. */
  function EntryOfTokens(parts: seq<string>): (r: Option<Entry>)
    requires |parts| >= 2
    ensures r.Some? ==> r.value.pid < U32Limit && r.value.port < U16Limit
    ensures forall e :: r == Some(e) <==>
      ParseUnsigned(parts[|parts| - 1], U32Limit) == Some(e.pid) && ParsePort(parts[1]) == Some(e.port)
  {
    match ParseUnsigned(parts[|parts| - 1], U32Limit)
    case None => None
    case Some(pid) =>
      match ParsePort(parts[1])
      case None => None
      case Some(port) => Some(Entry(pid, port))
  }

  predicate IsProtocol(s: string) {
    s == "TCP" || s == "UDP"
  }

  /** The tokens of a row yield `e`: a TCP or UDP row whose last token is `e`'s process
      id as a `u32` and whose second token is an address with `e`'s port as a `u16`. */
  predicate RowYields(parts: seq<string>, e: Entry) {
    && |parts| >= 2
    && IsProtocol(parts[0])
    && ParseUnsigned(parts[|parts| - 1], U32Limit) == Some(e.pid)
    && ParsePort(parts[1]) == Some(e.port)
  }

  /** The row test as written: at least five tokens, TCP or UDP. */
  function LineEntryAsWritten(line: string): (r: Option<Entry>)
    ensures forall e :: r == Some(e) <==> |Tokens(line)| >= 5 && RowYields(Tokens(line), e)
  {
    var parts := Tokens(line);
    if |parts| >= 5 && IsProtocol(parts[0]) then EntryOfTokens(parts) else None
  }

  /** The fewest tokens a row of each protocol has. Windows prints UDP rows without the
      State column, so they have four. */
  function MinTokens(protocol: string): nat {
    if protocol == "UDP" then 4 else 5
  }

  /** The row test with the UDP layout taken into account. */
  function LineEntry(line: string): (r: Option<Entry>)
    ensures r.Some? ==> r.value.pid < U32Limit && r.value.port < U16Limit
    ensures forall e :: r == Some(e) <==>
      RowYields(Tokens(line), e) && |Tokens(line)| >= MinTokens(Tokens(line)[0])
  {
    var parts := Tokens(line);
    if |parts| >= 1 && IsProtocol(parts[0]) && |parts| >= MinTokens(parts[0]) then
      EntryOfTokens(parts)
    else None
  }

  /** The corrected test accepts every row the written one accepts, with the same
      entry, and additionally four-token UDP rows. */
  lemma LineEntryExtends(line: string)
    ensures LineEntryAsWritten(line).Some? ==> LineEntry(line) == LineEntryAsWritten(line)
    ensures LineEntry(line) != LineEntryAsWritten(line) ==>
      |Tokens(line)| == 4 && Tokens(line)[0] == "UDP"
  {
  }

  /** The written test drops every four-token row. */
  lemma AsWrittenDropsFourTokenRows(line: string)
    requires |Tokens(line)| == 4
    ensures LineEntryAsWritten(line) == None
  {
  }

  // ---------------------------------------------------------------------------
  // rendered rows parse back

  lemma DecimalIsDigits(n: nat)
    ensures |Decimal(n)| >= 1 && AllDigitsIn(Decimal(n), 10)
    ensures IsWord(Decimal(n)) && ':' !in Decimal(n)
  {
    RenderRoundTrip(n, 10);
    forall i | 0 <= i < |Decimal(n)| ensures !IsWhitespace(Decimal(n)[i]) && Decimal(n)[i] != ':' {
      assert IsDigitIn(Decimal(n)[i], 10);
    }
  }

  /** The local address column as netstat prints it. */
  function Address(host: string, port: nat): string {
    host + ":" + Decimal(port)
  }

  lemma AddressParses(host: string, port: nat)
    requires port < U16Limit
    ensures ParsePort(Address(host, port)) == Some(port)
  {
    var a := Address(host, port);
    DecimalIsDigits(port);
    assert a[|host|] == ':';
    assert a[|host| + 1..] == Decimal(port);
    assert LastIndexOf(a, ':') == Some(|host|);
    ParseDecimalRoundTrip(port, U16Limit);
  }

  lemma AddressIsWord(host: string, port: nat)
    requires IsWord(host)
    ensures Address(host, port) != [] && IsWord(Address(host, port))
  {
    DecimalIsDigits(port);
    var a := Address(host, port);
    forall i | 0 <= i < |a| ensures !IsWhitespace(a[i]) {
      if i < |host| { assert a[i] == host[i]; }
      else if i > |host| { assert a[i] == Decimal(port)[i - |host| - 1]; }
    }
  }

  /** The column separator; any non-empty run of whitespace behaves the same. */
  const Gap: string := "    "

  /** A TCP row as `netstat -ano` prints it. */
  function TcpRow(host: string, port: nat, remote: string, state: string, pid: nat): string {
    Join(["TCP", Address(host, port), remote, state, Decimal(pid)], Gap)
  }

  /** A UDP row: no State column. */
  function UdpRow(host: string, port: nat, remote: string, pid: nat): string {
    Join(["UDP", Address(host, port), remote, Decimal(pid)], Gap)
  }

  /** Both tests read a printed TCP row back to its process and port. */
  lemma TcpRowParses(host: string, port: nat, remote: string, state: string, pid: nat)
    requires IsWord(host) && remote != [] && IsWord(remote) && state != [] && IsWord(state)
    requires port < U16Limit && pid < U32Limit
    ensures LineEntry(TcpRow(host, port, remote, state, pid)) == Some(Entry(pid, port))
    ensures LineEntryAsWritten(TcpRow(host, port, remote, state, pid)) == Some(Entry(pid, port))
  {
    var words := ["TCP", Address(host, port), remote, state, Decimal(pid)];
    AddressIsWord(host, port);
    DecimalIsDigits(pid);
    assert IsWord("TCP");
    TokensOfJoin(words, Gap);
    AddressParses(host, port);
    ParseDecimalRoundTrip(pid, U32Limit);
  }

  /** The corrected test reads a printed UDP row back; the written one drops it. */
  lemma UdpRowParses(host: string, port: nat, remote: string, pid: nat)
    requires IsWord(host) && remote != [] && IsWord(remote)
    requires port < U16Limit && pid < U32Limit
    ensures LineEntry(UdpRow(host, port, remote, pid)) == Some(Entry(pid, port))
    ensures LineEntryAsWritten(UdpRow(host, port, remote, pid)) == None
  {
    var words := ["UDP", Address(host, port), remote, Decimal(pid)];
    AddressIsWord(host, port);
    DecimalIsDigits(pid);
    assert IsWord("UDP");
    TokensOfJoin(words, Gap);
    AddressParses(host, port);
    ParseDecimalRoundTrip(pid, U32Limit);
  }

  /** The concrete row Windows prints for the DNS client's UDP socket. */
  lemma UdpRowDroppedExample()
    ensures LineEntryAsWritten(UdpRow("0.0.0.0", 5353, "*:*", 2468)) == None
    ensures LineEntry(UdpRow("0.0.0.0", 5353, "*:*", 2468)) == Some(Entry(2468, 5353))
  {
    UdpRowParses("0.0.0.0", 5353, "*:*", 2468);
  }

  // ---------------------------------------------------------------------------
  // the port table

  /** The entries a row parser finds in a list of lines. */
  ghost function Entries(lines: seq<string>, parse: string -> Option<Entry>): set<Entry>
    decreases |lines|
  {
    if |lines| == 0 then {}
    else
      Entries(lines[..|lines| - 1], parse)
      + match parse(lines[|lines| - 1]) case None => {} case Some(e) => {e}
  }

  /** An entry is found exactly when some line parses to it. */
  lemma {:induction false} EntriesByLine(lines: seq<string>, parse: string -> Option<Entry>, e: Entry)
    ensures e in Entries(lines, parse) <==> exists k :: 0 <= k < |lines| && parse(lines[k]) == Some(e)
    decreases |lines|
  {
    if |lines| > 0 {
      var init := lines[..|lines| - 1];
      EntriesByLine(init, parse, e);
      if e in Entries(init, parse) {
        var k :| 0 <= k < |init| && parse(init[k]) == Some(e);
        assert lines[k] == init[k];
      }
      if exists k :: 0 <= k < |lines| && parse(lines[k]) == Some(e) {
        var k :| 0 <= k < |lines| && parse(lines[k]) == Some(e);
        if k < |init| { assert init[k] == lines[k]; }
      }
    }
  }

  /** `map.entry(pid).or_default().push(port)` for every parsed row, in order. */
  function Collect(lines: seq<string>, parse: string -> Option<Entry>): map<nat, seq<nat>>
    decreases |lines|
  {
    if |lines| == 0 then map[]
    else
      var m := Collect(lines[..|lines| - 1], parse);
      match parse(lines[|lines| - 1])
      case None => m
      case Some(e) => m[e.pid := (if e.pid in m then m[e.pid] else []) + [e.port]]
  }

  /** The table has a list for exactly the processes some row names, and each list
      holds exactly the ports of that process's rows. */
  lemma {:induction false} CollectSpec(lines: seq<string>, parse: string -> Option<Entry>)
    ensures forall pid :: pid in Collect(lines, parse) <==>
      exists e :: e in Entries(lines, parse) && e.pid == pid
    ensures forall pid, port :: pid in Collect(lines, parse) ==>
      (port in Elements(Collect(lines, parse)[pid]) <==> Entry(pid, port) in Entries(lines, parse))
    decreases |lines|
  {
    if |lines| > 0 {
      var init := lines[..|lines| - 1];
      CollectSpec(init, parse);
      var m := Collect(init, parse);
      match parse(lines[|lines| - 1])
      case None =>
      case Some(e) =>
        var old_ := if e.pid in m then m[e.pid] else [];
        assert Elements(old_ + [e.port]) == Elements(old_) + {e.port};
        assert e in Entries(lines, parse);
    }
  }

  /** `get_netstat_ports`: the table with every list sorted and de-duplicated. */
  function PortsByPid(stdout: string, parse: string -> Option<Entry>): map<nat, seq<nat>> {
    var raw := Collect(Lines(stdout), parse);
    map pid | pid in raw :: SortDedup(raw[pid], NatLe)
  }

  /** Some line parses to an entry of process `pid`. */
  ghost predicate NamesPid(lines: seq<string>, parse: string -> Option<Entry>, pid: nat) {
    exists k :: 0 <= k < |lines| && parse(lines[k]).Some? && parse(lines[k]).value.pid == pid
  }

  /** Some line parses to exactly this entry. */
  ghost predicate HasRow(lines: seq<string>, parse: string -> Option<Entry>, e: Entry) {
    exists k :: 0 <= k < |lines| && parse(lines[k]) == Some(e)
  }

  /** Exactly the processes that own a parsed row appear in the table. */
  lemma PortsByPidKeys(stdout: string, parse: string -> Option<Entry>, pid: nat)
    ensures pid in PortsByPid(stdout, parse) <==> NamesPid(Lines(stdout), parse, pid)
  {
    var lines := Lines(stdout);
    CollectSpec(lines, parse);
    if pid in PortsByPid(stdout, parse) {
      var e :| e in Entries(lines, parse) && e.pid == pid;
      EntriesByLine(lines, parse, e);
    }
    if NamesPid(lines, parse, pid) {
      var k :| 0 <= k < |lines| && parse(lines[k]).Some? && parse(lines[k]).value.pid == pid;
      EntriesByLine(lines, parse, parse(lines[k]).value);
    }
  }

  /** Each process's list is strictly ascending and holds exactly the ports of its
      rows. */
  lemma PortsByPidPorts(stdout: string, parse: string -> Option<Entry>, pid: nat, port: nat)
    requires pid in PortsByPid(stdout, parse)
    ensures StrictlySortedBy(PortsByPid(stdout, parse)[pid], NatLe)
    ensures port in Elements(PortsByPid(stdout, parse)[pid]) <==>
      HasRow(Lines(stdout), parse, Entry(pid, port))
  {
    var lines := Lines(stdout);
    var raw := Collect(lines, parse);
    assert PortsByPid(stdout, parse)[pid] == SortDedup(raw[pid], NatLe);
    SortDedupPorts(raw[pid]);
    CollectSpec(lines, parse);
    EntriesByLine(lines, parse, Entry(pid, port));
  }

  lemma SortDedupPorts(ports: seq<nat>)
    ensures StrictlySortedBy(SortDedup(ports, NatLe), NatLe)
    ensures Elements(SortDedup(ports, NatLe)) == Elements(ports)
  {
    NatLeTotalOrder(Elements(ports));
    SortDedupSpec(ports, NatLe, Elements(ports));
  }

  /** The table as the backend builds it, and as it would with UDP rows read. */
  function NetstatPortsAsWritten(stdout: string): map<nat, seq<nat>> {
    PortsByPid(stdout, LineEntryAsWritten)
  }

  function NetstatPorts(stdout: string): map<nat, seq<nat>> {
    PortsByPid(stdout, LineEntry)
  }

  /** A machine whose only open socket is a UDP one reports no ports as written, and
      that socket's port as intended. */
  lemma UdpOnlyOutput(host: string, port: nat, remote: string, pid: nat)
    requires IsWord(host) && remote != [] && IsWord(remote)
    requires port < U16Limit && pid < U32Limit
    ensures NetstatPortsAsWritten(UdpRow(host, port, remote, pid)) == map[]
    ensures NetstatPorts(UdpRow(host, port, remote, pid)) == map[pid := [port]]
  {
    var line := UdpRow(host, port, remote, pid);
    UdpRowParses(host, port, remote, pid);
    UdpRowIsOneLine(host, port, remote, pid);
    SingleLineTable(line, LineEntryAsWritten);
    SingleLineTable(line, LineEntry);
  }

  /** A printed UDP row holds no line feed. */
  lemma UdpRowIsOneLine(host: string, port: nat, remote: string, pid: nat)
    requires IsWord(host) && remote != [] && IsWord(remote)
    ensures Lines(UdpRow(host, port, remote, pid)) == [UdpRow(host, port, remote, pid)]
  {
    AddressIsWord(host, port);
    DecimalIsDigits(pid);
    JoinWithoutLineFeed(["UDP", Address(host, port), remote, Decimal(pid)], Gap);
  }

  /** Output consisting of one line gives that line's entry alone, or nothing. */
  lemma SingleLineTable(line: string, parse: string -> Option<Entry>)
    requires Lines(line) == [line]
    ensures parse(line).None? ==> PortsByPid(line, parse) == map[]
    ensures parse(line).Some? ==>
      PortsByPid(line, parse) == map[parse(line).value.pid := [parse(line).value.port]]
  {
    CollectSingle(line, parse);
    if parse(line).Some? {
      var e := parse(line).value;
      SortDedupSingle(e.port);
      var r := PortsByPid(line, parse);
      assert r.Keys == {e.pid};
      assert r[e.pid] == [e.port];
    }
  }

  lemma CollectSingle(line: string, parse: string -> Option<Entry>)
    ensures parse(line).None? ==> Collect([line], parse) == map[]
    ensures parse(line).Some? ==>
      Collect([line], parse) == map[parse(line).value.pid := [parse(line).value.port]]
  {
    assert [line][..0] == [];
    assert Collect([], parse) == map[];
    if parse(line).Some? {
      var e := parse(line).value;
      assert [] + [e.port] == [e.port];
    }
  }

  lemma SortDedupSingle(port: nat)
    ensures SortDedup([port], NatLe) == [port]
  {
    assert [port][1..] == [];
    assert Sort([port], NatLe) == [port];
  }

  /** Words joined by blanks other than a line feed form a single line. */
  lemma {:induction false} JoinWithoutLineFeed(parts: seq<string>, sep: string)
    requires forall k :: 0 <= k < |parts| ==> IsWord(parts[k])
    requires '\n' !in sep
    ensures '\n' !in Join(parts, sep)
    decreases |parts|
  {
    if |parts| >= 1 {
      assert IsWhitespace('\n');
      assert '\n' !in parts[0];
    }
    if |parts| > 1 {
      JoinWithoutLineFeed(parts[1..], sep);
      assert Join(parts, sep) == parts[0] + sep + Join(parts[1..], sep);
    }
  }

  // ---------------------------------------------------------------------------
  // resolve_domain

  /** `resolve_domain`: the resolver's addresses, as text, sorted and de-duplicated; a
      lookup error is passed on. */
  function ResolveDomain(lookup: Result<seq<string>>): (r: Result<seq<string>>)
    ensures r.Err? <==> lookup.Err?
    ensures r.Err? ==> r.error == lookup.error
  {
    match lookup
    case Err(e) => Err(e)
    case Ok(ips) => Ok(SortDedup(ips, StrLe))
  }

  /** A successful lookup yields every resolved address exactly once, in ascending
      string order. */
  lemma ResolveDomainSpec(ips: seq<string>)
    ensures ResolveDomain(Ok(ips)).Ok?
    ensures StrictlySortedBy(ResolveDomain(Ok(ips)).value, StrLe)
    ensures Elements(ResolveDomain(Ok(ips)).value) == Elements(ips)
  {
    StrLeTotalOrder(Elements(ips));
    SortDedupSpec(ips, StrLe, Elements(ips));
  }

  // ---------------------------------------------------------------------------
  // window handles

  /** `format!("0x{:X}", handle)`. */
  function FormatHandle(handle: nat): string {
    "0x" + Hex(handle)
  }

  /** A formatted handle is `0x` followed by upper-case hexadecimal digits without
      leading zeros, which read back to the handle. */
  lemma FormatHandleRoundTrip(handle: nat)
    ensures var s := FormatHandle(handle);
      && |s| >= 3 && s[..2] == "0x"
      && AllDigitsIn(s[2..], 16)
      && Value(s[2..], 16) == handle
      && (s[2] == '0' <==> handle == 0)
  {
    RenderRoundTrip(handle, 16);
    assert FormatHandle(handle)[2..] == Hex(handle);
  }

  /** Distinct handles print differently. */
  lemma FormatHandleInjective(a: nat, b: nat)
    requires FormatHandle(a) == FormatHandle(b)
    ensures a == b
  {
    FormatHandleRoundTrip(a);
    FormatHandleRoundTrip(b);
  }
}

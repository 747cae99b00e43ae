/** The server selector of `MainActivity.kt`: the fixed table of game
    servers, one button per entry in declaration order, and `launchGame`,
    which splits `"host:port"` at the first colon, parses the port, and
    starts the player with both as intent extras. */
module MainActivity {
  import opened Wrappers
  import opened KotlinText

  /** The `servers` table: display name to `"host:port"`, as declared. */
  const ServerEntries: seq<(string, string)> := [
    ("Twilly", "socket5.aq.com:5588"),
    ("Artix", "socket.aq.com:5588"),
    ("Gravelyn", "socket4.aq.com:5589"),
    ("Sir Ver", "socket2.aq.com:5588"),
    ("Galanoth", "socket6.aq.com:5589"),
    ("Yorumi", "socket3.aq.com:5588"),
    ("Espada", "socket2.aq.com:5591"),
    ("Twig", "socket4.aq.com:5588"),
    ("Sepulchure", "socket2.aq.com:5590"),
    ("Safiria", "socket6.aq.com:5588"),
    ("Swordhaven", "euro.aqw.artix.com:5588"),
    ("Alteon", "socket4.aq.com:5590"),
    ("Yokai", "asia.game.artix.com:5588")
  ]

  /** One button of the selector grid: its caption and the address it launches. */
  datatype Button = Button(caption: string, serverInfo: string)

  /** `items(servers.entries.toList())`: one button per map entry, in the
      map's iteration order. */
  function ServerButtons(): seq<Button>
  {
    var entries := LinkedEntries(ServerEntries);
    seq(|entries|, i requires 0 <= i < |entries| => Button(entries[i].0, entries[i].1))
  }

  lemma ServerNamesDistinct()
    ensures DistinctKeys(ServerEntries)
  {
  }

  /** The buttons are the table's entries, one each, in declaration order. */
  lemma ButtonsFollowTable()
    ensures |ServerButtons()| == |ServerEntries|
    ensures forall i :: 0 <= i < |ServerEntries| ==>
      ServerButtons()[i] == Button(ServerEntries[i].0, ServerEntries[i].1)
  {
    ServerNamesDistinct();
    LinkedEntriesInOrder(ServerEntries);
  }

  // ---------------------------------------------------------------------
  // launchGame
  // ---------------------------------------------------------------------

  datatype Address = Address(host: string, port: int)

  datatype LaunchError = PortNotANumber(portText: string)

  /** `host = info.substringBefore(":")`, `port = info.substringAfter(":").toInt()`.
      A port text that `toInt()` rejects is the `NumberFormatException`. */
  function ParseServerInfo(info: string): (r: Result<Address, LaunchError>)
    ensures r.Ok? ==> ':' !in r.value.host && MinInt <= r.value.port <= MaxInt
    ensures ':' in info && r.Ok? ==> info == r.value.host + ":" + SubstringAfter(info, ':')
    ensures r.Err? <==> ParseInt(SubstringAfter(info, ':')).None?
    ensures r.Ok? ==> r.value.host == SubstringBefore(info, ':')
    ensures r.Ok? ==> ParseInt(SubstringAfter(info, ':')) == Some(r.value.port)
  {
    SubstringsAtFirst(info, ':');
    var host := SubstringBefore(info, ':');
    var portText := SubstringAfter(info, ':');
    match ParseInt(portText)
    case None => Err(PortNotANumber(portText))
    case Some(port) => Ok(Address(host, port))
  }

  /** How an address is written in the table. */
  function FormatAddress(a: Address): string
  {
    a.host + ":" + IntToString(a.port)
  }

  /** Parsing recovers any address whose host has no colon. */
  lemma ParseFormatted(a: Address)
    requires ':' !in a.host && MinInt <= a.port <= MaxInt
    ensures ParseServerInfo(FormatAddress(a)) == Ok(a)
  {
    SubstringsOfJoin(a.host, ':', IntToString(a.port));
    ParseIntToString(a.port);
  }

  /** Formatting reproduces a parsed text whose port is written canonically. */
  lemma FormatParsed(info: string)
    requires ':' in info && ParseServerInfo(info).Ok?
    requires Canonical(SubstringAfter(info, ':'))
    ensures FormatAddress(ParseServerInfo(info).value) == info
  {
    ToStringParseInt(SubstringAfter(info, ':'));
  }

  /** Without a colon, `substringBefore` and `substringAfter` both give the
      whole text back: the text is the host and must also parse as the port,
      so a purely numeric text serves as both. */
  lemma NoColon(info: string)
    requires ':' !in info
    ensures ParseServerInfo(info) == match ParseInt(info)
      case Some(p) => Ok(Address(info, p))
      case None => Err(PortNotANumber(info))
  {
  }

  /** A host name alone is not an address: its port text is the host name,
      and a name with a dot is no number. */
  lemma HostAloneIsRejected(info: string)
    requires ':' !in info && '.' in info
    ensures ParseServerInfo(info) == Err(PortNotANumber(info))
  {
    var k :| 0 <= k < |info| && info[k] == '.';
    assert !AllDigits(info) by { assert !IsDigit(info[k]); }
    if k > 0 {
      assert !AllDigits(info[1..]) by { assert info[1..][k - 1] == '.'; }
    }
    assert ParseInt(info).None?;
  }

  // The decimal texts of the table's four ports.
  lemma PortText5588() ensures NatToString(5588) == "5588" { assert NatToString(558) == "558"; }
  lemma PortText5589() ensures NatToString(5589) == "5589" { assert NatToString(558) == "558"; }
  lemma PortText5590() ensures NatToString(5590) == "5590" { assert NatToString(559) == "559"; }
  lemma PortText5591() ensures NatToString(5591) == "5591" { assert NatToString(559) == "559"; }

  /** An entry written `host:port` with a port of the table's range. */
  lemma TableEntry(info: string, host: string, portText: string, port: nat)
    requires info == host + ":" + portText && portText == NatToString(port)
    requires ':' !in host && 5588 <= port <= 5591
    ensures ParseServerInfo(info) == Ok(Address(host, port))
    ensures FormatAddress(Address(host, port)) == info
  {
    ParseFormatted(Address(host, port));
  }

  /** The facts of `ServersRoundTrip` for one entry. */
  ghost predicate EntryRoundTrips(info: string)
  {
    var r := ParseServerInfo(info);
    r.Ok? && FormatAddress(r.value) == info && 5588 <= r.value.port <= 5591
  }

  // One lemma per entry keeps each proof about literal text small.
  lemma EntryRoundTrips0() ensures EntryRoundTrips(ServerEntries[0].1) { PortText5588(); TableEntry(ServerEntries[0].1, "socket5.aq.com", "5588", 5588); }
  lemma EntryRoundTrips1() ensures EntryRoundTrips(ServerEntries[1].1) { PortText5588(); TableEntry(ServerEntries[1].1, "socket.aq.com", "5588", 5588); }
  lemma EntryRoundTrips2() ensures EntryRoundTrips(ServerEntries[2].1) { PortText5589(); TableEntry(ServerEntries[2].1, "socket4.aq.com", "5589", 5589); }
  lemma EntryRoundTrips3() ensures EntryRoundTrips(ServerEntries[3].1) { PortText5588(); TableEntry(ServerEntries[3].1, "socket2.aq.com", "5588", 5588); }
  lemma EntryRoundTrips4() ensures EntryRoundTrips(ServerEntries[4].1) { PortText5589(); TableEntry(ServerEntries[4].1, "socket6.aq.com", "5589", 5589); }
  lemma EntryRoundTrips5() ensures EntryRoundTrips(ServerEntries[5].1) { PortText5588(); TableEntry(ServerEntries[5].1, "socket3.aq.com", "5588", 5588); }
  lemma EntryRoundTrips6() ensures EntryRoundTrips(ServerEntries[6].1) { PortText5591(); TableEntry(ServerEntries[6].1, "socket2.aq.com", "5591", 5591); }
  lemma EntryRoundTrips7() ensures EntryRoundTrips(ServerEntries[7].1) { PortText5588(); TableEntry(ServerEntries[7].1, "socket4.aq.com", "5588", 5588); }
  lemma EntryRoundTrips8() ensures EntryRoundTrips(ServerEntries[8].1) { PortText5590(); TableEntry(ServerEntries[8].1, "socket2.aq.com", "5590", 5590); }
  lemma EntryRoundTrips9() ensures EntryRoundTrips(ServerEntries[9].1) { PortText5588(); TableEntry(ServerEntries[9].1, "socket6.aq.com", "5588", 5588); }
  lemma EntryRoundTrips10() ensures EntryRoundTrips(ServerEntries[10].1) { PortText5588(); TableEntry(ServerEntries[10].1, "euro.aqw.artix.com", "5588", 5588); }
  lemma EntryRoundTrips11() ensures EntryRoundTrips(ServerEntries[11].1) { PortText5590(); TableEntry(ServerEntries[11].1, "socket4.aq.com", "5590", 5590); }
  lemma EntryRoundTrips12() ensures EntryRoundTrips(ServerEntries[12].1) { PortText5588(); TableEntry(ServerEntries[12].1, "asia.game.artix.com", "5588", 5588); }

  /** Every table entry parses, formatting the result gives the entry back,
      and every port lies in 5588..5591. */
  lemma ServersRoundTrip()
    ensures forall i :: 0 <= i < |ServerEntries| ==>
      var r := ParseServerInfo(ServerEntries[i].1);
      && r.Ok?
      && FormatAddress(r.value) == ServerEntries[i].1
      && 5588 <= r.value.port <= 5591
  {
    forall i | 0 <= i < |ServerEntries| ensures EntryRoundTrips(ServerEntries[i].1) {
      if i == 0 { EntryRoundTrips0(); }
      else if i == 1 { EntryRoundTrips1(); }
      else if i == 2 { EntryRoundTrips2(); }
      else if i == 3 { EntryRoundTrips3(); }
      else if i == 4 { EntryRoundTrips4(); }
      else if i == 5 { EntryRoundTrips5(); }
      else if i == 6 { EntryRoundTrips6(); }
      else if i == 7 { EntryRoundTrips7(); }
      else if i == 8 { EntryRoundTrips8(); }
      else if i == 9 { EntryRoundTrips9(); }
      else if i == 10 { EntryRoundTrips10(); }
      else if i == 11 { EntryRoundTrips11(); }
      else if i == 12 { EntryRoundTrips12(); }
    }
  }

  // ---------------------------------------------------------------------
  // The launched intent
  // ---------------------------------------------------------------------

  datatype Extra = StringExtra(s: string) | IntExtra(n: int)

  /** The parts of the intent the model keeps: the activity it starts, its
      data URI and its extras. */
  datatype Intent = Intent(activity: string, data: string, extras: map<string, Extra>)

  const PlayerActivityName: string := "PlayerActivity"
  const LoaderUrl: string := "https://game.aq.com/game/gamefiles/Loader_Spider.swf"
  const HostExtra: string := "aqw_host"
  const PortExtra: string := "aqw_port"

  /** `launchGame(serverInfo)`: the intent passed to `startActivity`, or the
      exception `toInt()` throws. */
  function LaunchGame(serverInfo: string): (r: Result<Intent, LaunchError>)
    ensures r.Ok? <==> ParseServerInfo(serverInfo).Ok?
    ensures r.Ok? ==>
      var a := ParseServerInfo(serverInfo).value;
      && r.value.activity == PlayerActivityName && r.value.data == LoaderUrl
      && r.value.extras.Keys == {HostExtra, PortExtra}
      && r.value.extras[HostExtra] == StringExtra(a.host)
      && r.value.extras[PortExtra] == IntExtra(a.port)
  {
    match ParseServerInfo(serverInfo)
    case Err(e) => Err(e)
    case Ok(a) =>
      Ok(Intent(PlayerActivityName, LoaderUrl, map[HostExtra := StringExtra(a.host), PortExtra := IntExtra(a.port)]))
  }

  /** Every button launches the player, carrying the host and port that
      formatting turns back into the button's table entry. */
  lemma EveryButtonLaunches()
    ensures |ServerButtons()| == |ServerEntries|
    ensures forall i :: 0 <= i < |ServerButtons()| ==>
      ServerButtons()[i].serverInfo == ServerEntries[i].1 && LaunchRestores(ServerButtons()[i].serverInfo)
  {
    ButtonsFollowTable();
    ServersRoundTrip();
    forall i | 0 <= i < |ServerButtons()|
      ensures LaunchRestores(ServerButtons()[i].serverInfo)
    {
      EntryLaunches(ServerEntries[i].1);
    }
  }

  /** The launched extras format back to the launched text. */
  ghost predicate LaunchRestores(info: string)
  {
    var r := LaunchGame(info);
    && r.Ok?
    && r.value.extras[HostExtra].StringExtra? && r.value.extras[PortExtra].IntExtra?
    && FormatAddress(Address(r.value.extras[HostExtra].s, r.value.extras[PortExtra].n)) == info
  }

  lemma EntryLaunches(info: string)
    requires EntryRoundTrips(info)
    ensures LaunchRestores(info)
  {
  }
}

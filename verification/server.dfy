/**
 * The per-server record the collector builds from one entry of the master
 * server list: the address text is checked and split into four IP bytes and
 * a port, the name and map are cut to what fits the fixed char arrays, and
 * the server is rendered back as `a.b.c.d:port` or as its id `a.b.c.d_port`.
 * The JSON accessors are replaced by optional plain values.
 */
module Server {
  import opened Wrappers
  import opened Bytes
  import opened Util
  import opened Decimal

  /** Why an entry of the server list is skipped. */
  datatype ParseError =
    | MissingValues   // one of name, map, players, max_players, addr is absent
    | MissingPort     // no ':' in addr
    | BadIpParts      // the text before ':' does not split into four parts on '.'
    | BadIpByte       // a part reads outside 0..255
    | BadPort         // the port reads outside 1..65535

  /** Four IP bytes and a port. */
  datatype Endpoint = Endpoint(ip: seq<byte>, port: nat)

  /**
   * The members of one server-list entry; None stands for a member that is
   * absent. Name and map are the UTF-8 bytes rapidjson hands out, since the
   * collector copies them byte by byte; the address is kept as text.
   */
  datatype ServerJson = ServerJson(name: Option<seq<byte>>, mapName: Option<seq<byte>>, players: Option<int>,
                                   maxPlayers: Option<int>, addr: Option<string>)

  /** The collector's own server record (`ServerState` of main.cpp, not the one the A2S code uses). */
  datatype ServerState = ServerState(ip: seq<byte>, port: nat, name: seq<byte>, mapName: seq<byte>,
                                     players: byte, maxPlayers: byte, unreachable: bool, lastCountStat: nat)

  /** An IP part reads as a byte value. */
  predicate ByteText(piece: string) {
    0 <= Atoi(piece) <= 255
  }

  /** The text before ':' names an IP: four parts, each a byte. */
  predicate IpParts(pieces: seq<string>) {
    |pieces| == 4 && forall i :: 0 <= i < 4 ==> ByteText(pieces[i])
  }

  /** The four bytes the parts read as. */
  function IpBytes(pieces: seq<string>): (ip: seq<byte>)
    requires IpParts(pieces)
    ensures |ip| == 4 && forall i :: 0 <= i < 4 ==> ip[i] == Atoi(pieces[i])
  {
    [Atoi(pieces[0]), Atoi(pieces[1]), Atoi(pieces[2]), Atoi(pieces[3])]
  }

  /**
   * The address logic of `parseServerJson`: the text before the first ':'
   * must split on '.' into four parts that each read (with `atoi`) as a
   * byte, and the text after it must read as a port in 1..65535.
   */
  function ParseAddress(addr: string): (r: Result<Endpoint, ParseError>)
    ensures r == Err(MissingPort) <==> FindFirstOf(addr, ":", 0).None?
    ensures r.Ok? <==>
      && FindFirstOf(addr, ":", 0).Some?
      && IpParts(Split(addr[..FindFirstOf(addr, ":", 0).value], "."))
      && 1 <= Atoi(addr[FindFirstOf(addr, ":", 0).value + 1..]) <= 65535
    ensures r.Ok? ==>
      && r.value.ip == IpBytes(Split(addr[..FindFirstOf(addr, ":", 0).value], "."))
      && r.value.port == Atoi(addr[FindFirstOf(addr, ":", 0).value + 1..])
  {
    match FindFirstOf(addr, ":", 0)
    case None => Err(MissingPort)
    case Some(idx) =>
      var iport := Atoi(addr[idx + 1..]);
      var ipbytes := Split(addr[..idx], ".");
      if |ipbytes| != 4 then Err(BadIpParts)
      else if !IpParts(ipbytes) then Err(BadIpByte)
      else if iport > 65535 || iport <= 0 then Err(BadPort)
      else Ok(Endpoint(IpBytes(ipbytes), iport))
  }

  /** The address checks as `parseServerJson` runs them, with `splitString` and the loop over the four parts. */
  method ParseAddressLoop(addr: string) returns (r: Result<Endpoint, ParseError>)
    ensures r == ParseAddress(addr)
  {
    var found := FindFirstOf(addr, ":", 0);
    if found.None? {
      return Err(MissingPort);
    }
    var ipIdx := found.value;
    var ip := addr[..ipIdx];
    var iport := Atoi(addr[ipIdx + 1..]);
    var ipbytes := SplitString(ip, ".");
    if |ipbytes| != 4 {
      return Err(BadIpParts);
    }
    var bytes := ReadIpBytes(ipbytes);
    if bytes.None? {
      return Err(BadIpByte);
    }
    if iport > 65535 || iport <= 0 {
      return Err(BadPort);
    }
    return Ok(Endpoint(bytes.value, iport));
  }

  /** The loop of `parseServerJson` over the four IP parts, stopping at the first that is not a byte. */
  method ReadIpBytes(ipbytes: seq<string>) returns (r: Option<seq<byte>>)
    requires |ipbytes| == 4
    ensures r.Some? <==> IpParts(ipbytes)
    ensures r.Some? ==> r.value == IpBytes(ipbytes)
  {
    var bytes: seq<byte> := [];
    var i := 0;
    while i < 4
      invariant 0 <= i <= 4 && |bytes| == i
      invariant forall k :: 0 <= k < i ==> ByteText(ipbytes[k]) && bytes[k] == Atoi(ipbytes[k])
    {
      var b := Atoi(ipbytes[i]);
      if b > 255 || b < 0 {
        return None;
      }
      bytes := bytes + [b];
      i := i + 1;
    }
    return Some(bytes);
  }

  /** The length of the C string in `s`: up to the first terminator `nul`, or all of it. */
  function CLength<T(==)>(s: seq<T>, nul: T): (n: nat)
    ensures n <= |s|
    ensures forall i :: 0 <= i < n ==> s[i] != nul
    ensures n == |s| || s[n] == nul
  {
    if |s| == 0 then 0
    else if s[0] == nul then 0
    else 1 + CLength(s[1..], nul)
  }

  /** The text a `std::string` built from a C string holds: everything before the first NUL. */
  function CText(s: string): (t: string)
    ensures |t| <= |s| && t == s[..|t|]
    ensures forall i :: 0 <= i < |t| ==> t[i] != '\0'
    ensures |t| == |s| || s[|t|] == '\0'
  {
    s[..CLength(s, '\0')]
  }

  /** The C length is the first terminator position: any position with that property is it. */
  lemma CLengthAt<T>(s: seq<T>, nul: T, m: nat)
    requires m <= |s| && (m == |s| || s[m] == nul)
    requires forall i :: 0 <= i < m ==> s[i] != nul
    ensures CLength(s, nul) == m
  {
  }

  /** Text after a NUL never reaches a `std::string` built from the C string. */
  lemma CTextStopsAtNul(a: string, tail: string)
    ensures CText(a + "\0" + tail) == CText(a)
  {
    var s := a + "\0" + tail;
    var m := CLength(a, '\0');
    assert s[..|a|] == a;
    assert s[m] == '\0';
    CLengthAt(s, '\0', m);
    assert s[..m] == a[..m];
  }

  /**
   * What a 64-byte char array holds after `strncpy(dst, src, 64)` and
   * `dst[63] = 0`: the C string of the UTF-8 bytes `s`, cut to 63 bytes (in
   * the middle of a character if one straddles the cut).
   */
  function Truncate(s: seq<byte>): (t: seq<byte>)
    ensures |t| <= 63 && |t| <= |s|
    ensures t == s[..|t|]
    ensures forall i :: 0 <= i < |t| ==> t[i] != 0
    ensures |t| == 63 || |t| == |s| || s[|t|] == 0
  {
    var n := CLength(s, 0);
    if n > 63 then s[..63] else s[..n]
  }

  /** The contract of Truncate pins the stored bytes down: only one prefix meets it. */
  lemma TruncateUnique(s: seq<byte>, t: seq<byte>)
    requires |t| <= 63 && |t| <= |s| && t == s[..|t|]
    requires forall i :: 0 <= i < |t| ==> t[i] != 0
    requires |t| == 63 || |t| == |s| || s[|t|] == 0
    ensures t == Truncate(s)
  {
    var u := Truncate(s);
    assert |t| == |u| by {
      if |t| < |u| {
        assert false;
      }
      if |u| < |t| {
        assert false;
      }
    }
  }

  /**
   * `parseServerJson`: every member must be present, the name and map are
   * truncated, the counts are stored as `uint8_t`, and the address, copied
   * into a `std::string` up to its first NUL, must pass ParseAddress.
   */
  function ParseServerJson(json: ServerJson): (r: Result<ServerState, ParseError>)
    ensures r == Err(MissingValues) <==>
      json.name.None? || json.mapName.None? || json.players.None? || json.maxPlayers.None? || json.addr.None?
    ensures r.Ok? <==> r != Err(MissingValues) && ParseAddress(CText(json.addr.value)).Ok?
    ensures r != Err(MissingValues) && r.Err? ==> ParseAddress(CText(json.addr.value)) == Err(r.error)
    ensures r.Ok? ==>
      && Endpoint(r.value.ip, r.value.port) == ParseAddress(CText(json.addr.value)).value
      && |r.value.name| <= 63 && |r.value.mapName| <= 63
      && |r.value.name| <= |json.name.value| && |r.value.mapName| <= |json.mapName.value|
      && r.value.name == json.name.value[..|r.value.name|]
      && r.value.mapName == json.mapName.value[..|r.value.mapName|]
      && r.value.name == Truncate(json.name.value) && r.value.mapName == Truncate(json.mapName.value)
      && r.value.players == json.players.value % 256
      && r.value.maxPlayers == json.maxPlayers.value % 256
      && !r.value.unreachable && r.value.lastCountStat == 0
  {
    if json.name.None? || json.mapName.None? || json.players.None? || json.maxPlayers.None? || json.addr.None? then
      Err(MissingValues)
    else
      var ep :- ParseAddress(CText(json.addr.value));
      Ok(ServerState(ep.ip, ep.port, Truncate(json.name.value), Truncate(json.mapName.value),
                     Low8(json.players.value), Low8(json.maxPlayers.value), false, 0))
  }

  /** Whatever follows a NUL in the address member is ignored: only the C string before it is parsed. */
  lemma AddrStopsAtNul(json: ServerJson, a: string, tail: string)
    ensures ParseServerJson(json.(addr := Some(a + "\0" + tail))) == ParseServerJson(json.(addr := Some(a)))
  {
    CTextStopsAtNul(a, tail);
  }

  /** An address member that starts with a NUL reads as empty text, which has no port. */
  lemma LeadingNulAddress(name: seq<byte>, mapName: seq<byte>, players: int, maxPlayers: int, tail: string)
    ensures ParseServerJson(ServerJson(Some(name), Some(mapName), Some(players), Some(maxPlayers), Some("\0" + tail)))
         == Err(MissingPort)
  {
    var json := ServerJson(Some(name), Some(mapName), Some(players), Some(maxPlayers), Some("\0" + tail));
    assert CText(json.addr.value) == [];
  }

  /** The dotted IP of four bytes, each in decimal. */
  function IpText(ip: seq<byte>): (s: string)
    requires |ip| == 4
    ensures NoPortSeparator(s)
  {
    var d0, d1, d2, d3 := NatToString(ip[0]), NatToString(ip[1]), NatToString(ip[2]), NatToString(ip[3]);
    NatToStringNoSeparators(ip[0]);
    NatToStringNoSeparators(ip[1]);
    NatToStringNoSeparators(ip[2]);
    NatToStringNoSeparators(ip[3]);
    DottedNoPortSeparator(d2, d3);
    DottedNoPortSeparator(d1, Dotted(d2, d3));
    DottedNoPortSeparator(d0, Dotted(d1, Dotted(d2, d3)));
    Dotted(NatToString(ip[0]), Dotted(NatToString(ip[1]), Dotted(NatToString(ip[2]), NatToString(ip[3]))))
  }

  /** Neither ':' nor '_' appears in `s`. */
  predicate NoPortSeparator(s: string) {
    forall i :: 0 <= i < |s| ==> s[i] != ':' && s[i] != '_'
  }

  lemma DottedNoPortSeparator(a: string, rest: string)
    requires NoPortSeparator(a) && NoPortSeparator(rest)
    ensures NoPortSeparator(Dotted(a, rest))
  {
    var s := Dotted(a, rest);
    forall i | 0 <= i < |s| ensures s[i] != ':' && s[i] != '_' {
      if i < |a| {
        assert s[i] == s[..|a|][i];
      } else if |a| < i {
        assert s[i] == s[|a| + 1..][i - |a| - 1];
      }
    }
  }

  /** `a`, a '.', then `rest`. */
  function Dotted(a: string, rest: string): (s: string)
    ensures |s| == |a| + 1 + |rest|
    ensures s[..|a|] == a && s[|a|] == '.' && s[|a| + 1..] == rest
  {
    a + "." + rest
  }

  /** The dotted IP, the separator, and the decimal port. */
  function Render(ip: seq<byte>, port: nat, sep: char): (s: string)
    requires |ip| == 4
    ensures |s| > |IpText(ip)| && s[|IpText(ip)|] == sep
    ensures forall i :: 0 <= i < |s| && i != |IpText(ip)| ==> s[i] != ':' && s[i] != '_'
  {
    NatToStringNoSeparators(port);
    IpText(ip) + [sep] + NatToString(port)
  }

  /** `getAddrString`: `a.b.c.d:port`. */
  function AddrString(ip: seq<byte>, port: nat): (a: string)
    requires |ip| == 4
    ensures FindFirstOf(a, ":", 0) == Some(|IpText(ip)|)
  {
    FindFirstOfAt(Render(ip, port, ':'), ":", |IpText(ip)|);
    Render(ip, port, ':')
  }

  /** `getIdString`: `a.b.c.d_port`, the form used as the server's key and file name. */
  function IdString(ip: seq<byte>, port: nat): (d: string)
    requires |ip| == 4
    ensures FindFirstOf(d, "_", 0) == Some(|IpText(ip)|)
  {
    FindFirstOfAt(Render(ip, port, '_'), "_", |IpText(ip)|);
    Render(ip, port, '_')
  }

  /** The address and the id differ in exactly one place: the separator, ':' against '_'. */
  lemma AddrIdDiffer(ip: seq<byte>, port: nat)
    requires |ip| == 4
    ensures var a, d := AddrString(ip, port), IdString(ip, port);
      && |a| == |d|
      && a[|IpText(ip)|] == ':' && d[|IpText(ip)|] == '_'
      && forall i :: 0 <= i < |a| && i != |IpText(ip)| ==> a[i] == d[i]
  {
  }

  /** The address and the id contain their separator exactly once, so either determines the other. */
  lemma SeparatorUnique(ip: seq<byte>, port: nat)
    requires |ip| == 4
    ensures forall i :: 0 <= i < |AddrString(ip, port)| && AddrString(ip, port)[i] == ':' ==> i == |IpText(ip)|
    ensures forall i :: 0 <= i < |IdString(ip, port)| && IdString(ip, port)[i] == '_' ==> i == |IpText(ip)|
  {
    NatToStringNoSeparators(port);
  }

  /** Splitting on '.' peels off a part that holds no '.'. */
  lemma SplitDot(a: string, rest: string)
    requires Clean(a, ".")
    ensures Split(Dotted(a, rest), ".") == [a] + Split(rest, ".")
  {
    SplitFirst(Dotted(a, rest), ".", |a|);
  }

  /** The dotted IP splits back into its four decimal parts. */
  lemma SplitIpText(ip: seq<byte>)
    requires |ip| == 4
    ensures Split(IpText(ip), ".") == [NatToString(ip[0]), NatToString(ip[1]), NatToString(ip[2]), NatToString(ip[3])]
  {
    var d0, d1, d2, d3 := NatToString(ip[0]), NatToString(ip[1]), NatToString(ip[2]), NatToString(ip[3]);
    NatToStringNoSeparators(ip[0]);
    NatToStringNoSeparators(ip[1]);
    NatToStringNoSeparators(ip[2]);
    NatToStringNoSeparators(ip[3]);
    SplitWhole(d3, ".");
    SplitDot(d2, d3);
    SplitDot(d1, Dotted(d2, d3));
    SplitDot(d0, Dotted(d1, Dotted(d2, d3)));
  }

  /** The first ':' of the address text ends the IP and starts the port. */
  lemma AddrStringParts(ip: seq<byte>, port: nat)
    requires |ip| == 4
    ensures var s, e := AddrString(ip, port), |IpText(ip)|;
      && FindFirstOf(s, ":", 0) == Some(e)
      && s[..e] == IpText(ip)
      && s[e + 1..] == NatToString(port)
  {
    var s := AddrString(ip, port);
    var ipt := IpText(ip);
    var e := |ipt|;
    assert s[e] == ':';
    assert s[..e] == ipt;
    assert s[e + 1..] == NatToString(port);
    FindFirstOfAt(s, ":", e);
  }

  /** Parsing the text `getAddrString` renders recovers the same IP bytes and port. */
  lemma AddressRoundTrip(ip: seq<byte>, port: nat)
    requires |ip| == 4 && 1 <= port <= 65535
    ensures ParseAddress(AddrString(ip, port)) == Ok(Endpoint(ip, port))
  {
    AddrStringParts(ip, port);
    IpTextRoundTrip(ip);
    AtoiNatToString(port, []);
    assert NatToString(port) + [] == NatToString(port);
  }

  /** The dotted IP reads back, part by part, as the same four bytes. */
  lemma IpTextRoundTrip(ip: seq<byte>)
    requires |ip| == 4
    ensures IpParts(Split(IpText(ip), ".")) && IpBytes(Split(IpText(ip), ".")) == ip
  {
    var pieces := Split(IpText(ip), ".");
    SplitIpText(ip);
    forall i | 0 <= i < 4 ensures Atoi(pieces[i]) == ip[i] {
      AtoiNatToString(ip[i], []);
      assert NatToString(ip[i]) + [] == NatToString(ip[i]);
    }
  }
}

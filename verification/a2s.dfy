/**
 * The byte-level helpers of the A2S_PLAYER query: reading the player list
 * out of a reply, and packing a socket address into the 64-bit key the
 * query jobs are stored under.
 */
module A2s {
  import opened Wrappers
  import opened Bytes

  const TWO_48: int := 0x1_0000_0000_0000
  const TWO_64: int := 0x1_0000_0000_0000_0000

  /**
   * One player of a reply. The score is the signed little-endian 32-bit
   * field; the duration is a float and is kept as its four bytes.
   */
  datatype Player = Player(name: seq<byte>, score: int, duration: seq<byte>)

  /** What a parsed player always looks like: a NUL-free name, an int32 score and four duration bytes. */
  predicate WellFormed(p: Player) {
    (forall k :: 0 <= k < |p.name| ==> p.name[k] != 0)
    && -0x8000_0000 <= p.score < 0x8000_0000
    && |p.duration| == 4
  }

  /** Where the name scan starting at `i` stops: the end of the data or the first NUL. */
  function NameEnd(data: seq<byte>, i: nat): (j: nat)
    requires i <= |data|
    ensures i <= j <= |data|
    ensures forall k :: i <= k < j ==> data[k] != 0
    ensures j == |data| || data[j] == 0
    decreases |data| - i
  {
    if i < |data| && data[i] != 0 then NameEnd(data, i + 1) else i
  }

  /**
   * One player record at offset `i`: an index byte, a NUL-terminated name,
   * four score bytes and four duration bytes. None when a read would run
   * past the end of the reply.
   */
  function ReadPlayer(data: seq<byte>, i: nat): (r: Option<(Player, nat)>)
    ensures r.Some? ==> WellFormed(r.value.0)
    ensures r.Some? ==> i + 10 + |r.value.0.name| == r.value.1 <= |data|
  {
    if i >= |data| then None
    else
      var start := i + 1;
      var j := NameEnd(data, start);
      if j >= |data| then None
      else
        var s := j + 1;
        if s + 8 > |data| then None
        else Some((Player(data[start..j], I32(data[s], data[s + 1], data[s + 2], data[s + 3]), data[s + 4..s + 8]), s + 8))
  }

  /** The first `n` players after the count byte, read one after the other, and the offset after them. */
  function ReadPlayers(data: seq<byte>, n: nat): (r: Option<(seq<Player>, nat)>)
    ensures r.Some? ==> |r.value.0| == n && r.value.1 <= |data|
    ensures r.Some? ==> forall k :: 0 <= k < n ==> WellFormed(r.value.0[k])
  {
    if n == 0 then (if |data| < 6 then None else Some(([], 6)))
    else
      var front := ReadPlayers(data, n - 1);
      if front.None? then None
      else
        var next := ReadPlayer(data, front.value.1);
        if next.None? then None
        else Some((front.value.0 + [next.value.0], next.value.1))
  }

  /**
   * `parsePlayers`: byte 5 of the reply is the number of players, and that
   * many records follow. None stands for a reply too short for what it claims.
   */
  function ParsePlayers(data: seq<byte>): (r: Option<seq<Player>>)
    ensures r.Some? ==> |data| >= 6 && |r.value| == data[5]
    ensures r.Some? ==> forall k :: 0 <= k < |r.value| ==> WellFormed(r.value[k])
    ensures |data| < 6 ==> r.None?
  {
    if |data| < 6 then None
    else
      var (players, _) :- ReadPlayers(data, data[5]);
      Some(players)
  }

  /** A record read at `i` names the bytes between its index byte and the NUL that ends them. */
  lemma ReadPlayerName(data: seq<byte>, i: nat)
    requires ReadPlayer(data, i).Some?
    ensures var p := ReadPlayer(data, i).value.0;
      && p.name == data[i + 1..i + 1 + |p.name|]
      && data[i + 1 + |p.name|] == 0
  {
  }

  /** One pass of the `parsePlayers` loop body: the index byte, the name scan, the score and the duration. */
  method ReadPlayerStep(data: seq<byte>, i0: nat) returns (r: Option<(Player, nat)>)
    ensures r == ReadPlayer(data, i0)
  {
    var i := i0;
    if i >= |data| {
      return None;
    }
    var index := data[i];
    i := i + 1;
    var start := i;
    while i < |data| && data[i] != 0
      invariant start <= i <= |data|
      invariant NameEnd(data, start) == NameEnd(data, i)
    {
      i := i + 1;
    }
    if i >= |data| {
      return None;
    }
    var name := data[start..i];
    i := i + 1;
    if i + 8 > |data| {
      return None;
    }
    var score := I32(data[i], data[i + 1], data[i + 2], data[i + 3]);
    i := i + 4;
    var duration := data[i..i + 4];
    i := i + 4;
    return Some((Player(name, score, duration), i));
  }

  /** `parsePlayers`: the count byte, then `numPlayers` records read one after the other. */
  method ParsePlayersLoop(data: seq<byte>) returns (r: Option<seq<Player>>)
    ensures r == ParsePlayers(data)
  {
    if |data| < 6 {
      return None;
    }
    var i: nat := 5;
    var numPlayers := data[i];
    i := i + 1;
    var players: seq<Player> := [];
    var n := 0;
    while n < numPlayers
      invariant 0 <= n <= numPlayers
      invariant ReadPlayers(data, n) == Some((players, i))
    {
      var next := ReadPlayerStep(data, i);
      if next.None? {
        NoMorePlayers(data, n, numPlayers);
        return None;
      }
      players := players + [next.value.0];
      i := next.value.1;
      n := n + 1;
    }
    return Some(players);
  }

  /** Once one record cannot be read, the whole list cannot. */
  lemma {:induction false} NoMorePlayers(data: seq<byte>, n: nat, m: nat)
    requires n < m
    requires ReadPlayers(data, n).Some?
    requires ReadPlayer(data, ReadPlayers(data, n).value.1).None?
    ensures ReadPlayers(data, m).None?
    decreases m - n
  {
    if n + 1 < m {
      NoMorePlayers(data, n, m - 1);
    }
  }

  /** One player record as a server writes it. */
  function EncodePlayer(index: byte, p: Player): (bs: seq<byte>)
    requires WellFormed(p)
    ensures |bs| == |p.name| + 10
  {
    [index] + p.name + [0] + LE32(p.score % TWO_32) + p.duration
  }

  /** The records of `players`, each with its index byte, in order. */
  function EncodePlayers(indexes: seq<byte>, players: seq<Player>): seq<byte>
    requires |indexes| == |players|
    requires forall k :: 0 <= k < |players| ==> WellFormed(players[k])
  {
    if |players| == 0 then []
    else
      var n := |players| - 1;
      EncodePlayers(indexes[..n], players[..n]) + EncodePlayer(indexes[n], players[n])
  }

  /** A whole A2S_PLAYER reply: the header, the count byte and the records. */
  function PlayersReply(indexes: seq<byte>, players: seq<Player>): seq<byte>
    requires |indexes| == |players| < 256
    requires forall k :: 0 <= k < |players| ==> WellFormed(players[k])
  {
    [0xFF, 0xFF, 0xFF, 0xFF, 0x44, |players|] + EncodePlayers(indexes, players)
  }

  /** A slice of a slice: the part of `d` under `e[a..b]`. */
  lemma SliceOf(d: seq<byte>, i: nat, e: seq<byte>, a: nat, b: nat)
    requires i + |e| <= |d| && d[i..i + |e|] == e
    requires a <= b <= |e|
    ensures d[i + a..i + b] == e[a..b]
  {
    forall k | 0 <= k < b - a ensures d[i + a..i + b][k] == e[a..b][k] {
      assert d[i + a + k] == d[i..i + |e|][a + k];
    }
  }

  /** A record written by EncodePlayer is read back whole. */
  lemma ReadEncodedPlayer(data: seq<byte>, i: nat, index: byte, p: Player)
    requires WellFormed(p)
    requires i + |p.name| + 10 <= |data|
    requires data[i..i + |p.name| + 10] == EncodePlayer(index, p)
    ensures ReadPlayer(data, i) == Some((p, i + |p.name| + 10))
  {
    var enc := EncodePlayer(index, p);
    var four := LE32(p.score % TWO_32);
    var n := |p.name|;
    assert enc == [index] + p.name + [0] + four + p.duration;
    var s := i + n + 2;
    assert data[i + 1..i + 1 + n] == p.name by {
      SliceOf(data, i, enc, 1, 1 + n);
      assert forall k :: 0 <= k < n ==> enc[1 + k] == p.name[k];
      assert enc[1..1 + n] == p.name;
    }
    assert data[i + 1 + n] == 0 by {
      assert data[i + 1 + n] == enc[1 + n];
    }
    assert data[s..s + 4] == four by {
      SliceOf(data, i, enc, n + 2, n + 6);
      assert enc[n + 2..n + 6] == four;
    }
    assert data[s + 4..s + 8] == p.duration by {
      SliceOf(data, i, enc, n + 6, n + 10);
      assert enc[n + 6..n + 10] == p.duration;
    }
    ReadPlayerAt(data, i, p);
  }

  /** A record whose name, NUL, score bytes and duration bytes sit where the reader looks is read whole. */
  lemma ReadPlayerAt(data: seq<byte>, i: nat, p: Player)
    requires WellFormed(p)
    requires i + |p.name| + 10 <= |data|
    requires data[i + 1..i + 1 + |p.name|] == p.name && data[i + 1 + |p.name|] == 0
    requires data[i + |p.name| + 2..i + |p.name| + 6] == LE32(p.score % TWO_32)
    requires data[i + |p.name| + 6..i + |p.name| + 10] == p.duration
    ensures ReadPlayer(data, i) == Some((p, i + |p.name| + 10))
  {
    var s := i + |p.name| + 2;
    EncodedNameEnd(data, i + 1, p.name);
    assert I32(data[s], data[s + 1], data[s + 2], data[s + 3]) == p.score by {
      I32RoundTrip(p.score);
    }
  }

  /** A NUL-free name followed by a NUL ends exactly at the NUL. */
  lemma EncodedNameEnd(data: seq<byte>, start: nat, name: seq<byte>)
    requires start + |name| < |data|
    requires data[start..start + |name|] == name && data[start + |name|] == 0
    requires forall k :: 0 <= k < |name| ==> name[k] != 0
    ensures NameEnd(data, start) == start + |name|
  {
    var j := NameEnd(data, start);
    if j < start + |name| {
      assert false;
    }
  }

  /**
   * The records of `players` lie one after the other from offset 6 of
   * `data`, the last one ending at `end`.
   */
  predicate Laid(data: seq<byte>, indexes: seq<byte>, players: seq<Player>, end: nat)
    requires |indexes| == |players|
    requires forall k :: 0 <= k < |players| ==> WellFormed(players[k])
    decreases |players|
  {
    if |players| == 0 then 6 == end <= |data|
    else
      var n := |players| - 1;
      var start := end - |players[n].name| - 10;
      && 6 <= start && end <= |data|
      && data[start..end] == EncodePlayer(indexes[n], players[n])
      && Laid(data, indexes[..n], players[..n], start)
  }

  /** The bytes EncodePlayers writes at offset 6 lay the players out. */
  lemma {:induction false} EncodedLaid(data: seq<byte>, indexes: seq<byte>, players: seq<Player>)
    requires |indexes| == |players|
    requires forall k :: 0 <= k < |players| ==> WellFormed(players[k])
    requires 6 + |EncodePlayers(indexes, players)| <= |data|
    requires data[6..6 + |EncodePlayers(indexes, players)|] == EncodePlayers(indexes, players)
    ensures Laid(data, indexes, players, 6 + |EncodePlayers(indexes, players)|)
    decreases |players|
  {
    if |players| > 0 {
      var n := |players| - 1;
      var front := EncodePlayers(indexes[..n], players[..n]);
      EncodedParts(data, indexes, players, front, EncodePlayer(indexes[n], players[n]));
      EncodedLaid(data, indexes[..n], players[..n]);
    }
  }

  /** Players laid out from offset 6 are read back, and the reader stops where they end. */
  lemma {:induction false} ReadLaid(data: seq<byte>, indexes: seq<byte>, players: seq<Player>, end: nat)
    requires |indexes| == |players|
    requires forall k :: 0 <= k < |players| ==> WellFormed(players[k])
    requires Laid(data, indexes, players, end)
    ensures ReadPlayers(data, |players|) == Some((players, end))
    decreases |players|
  {
    if |players| > 0 {
      var n := |players| - 1;
      var start := end - |players[n].name| - 10;
      assert ReadPlayers(data, n) == Some((players[..n], start)) by {
        ReadLaid(data, indexes[..n], players[..n], start);
      }
      assert ReadPlayer(data, start) == Some((players[n], end)) by {
        ReadEncodedPlayer(data, start, indexes[n], players[n]);
      }
      ReadEncodedLast(data, n, players, start, end);
    }
  }

  /** Once the players before the last are read back, the last one is too. */
  lemma ReadEncodedLast(data: seq<byte>, n: nat, players: seq<Player>, i: nat, j: nat)
    requires |players| == n + 1
    requires ReadPlayers(data, n) == Some((players[..n], i))
    requires ReadPlayer(data, i) == Some((players[n], j))
    ensures ReadPlayers(data, |players|) == Some((players, j))
  {
    Snoc(players);
  }

  /** A non-empty sequence is its front followed by its last element. */
  lemma Snoc<T>(s: seq<T>)
    requires |s| > 0
    ensures s[..|s| - 1] + [s[|s| - 1]] == s
  {
  }

  /** The bytes of all records are those of the first `n` followed by those of the last. */
  lemma EncodedParts(data: seq<byte>, indexes: seq<byte>, players: seq<Player>, front: seq<byte>, last: seq<byte>)
    requires |indexes| == |players| > 0
    requires forall k :: 0 <= k < |players| ==> WellFormed(players[k])
    requires front == EncodePlayers(indexes[..|players| - 1], players[..|players| - 1])
    requires last == EncodePlayer(indexes[|players| - 1], players[|players| - 1])
    requires 6 + |EncodePlayers(indexes, players)| <= |data|
    requires data[6..6 + |EncodePlayers(indexes, players)|] == EncodePlayers(indexes, players)
    ensures EncodePlayers(indexes, players) == front + last
    ensures 6 + |front| + |last| <= |data|
    ensures data[6..6 + |front|] == front
    ensures data[6 + |front|..6 + |front| + |last|] == last
  {
    assert EncodePlayers(indexes, players) == front + last;
    SliceOf(data, 6, front + last, 0, |front|);
    assert (front + last)[..|front|] == front;
    SliceOf(data, 6, front + last, |front|, |front| + |last|);
    assert (front + last)[|front|..|front| + |last|] == last;
  }

  /** Round trip: parsing a reply written from well-formed players gives those players back. */
  lemma PlayersRoundTrip(indexes: seq<byte>, players: seq<Player>)
    requires |indexes| == |players| < 256
    requires forall k :: 0 <= k < |players| ==> WellFormed(players[k])
    ensures ParsePlayers(PlayersReply(indexes, players)) == Some(players)
  {
    var data := PlayersReply(indexes, players);
    assert data[6..6 + |EncodePlayers(indexes, players)|] == EncodePlayers(indexes, players);
    EncodedLaid(data, indexes, players);
    ReadLaid(data, indexes, players, 6 + |EncodePlayers(indexes, players)|);
  }

  /** `netaddr_to_uint64`: the 32-bit address in the low half, the 16-bit port field above it. */
  function NetKey(addr: nat, port: nat): (key: nat)
    requires addr < TWO_32 && port < TWO_16
    ensures key < TWO_48
    ensures key % TWO_32 == addr
  {
    addr + port * TWO_32
  }

  /** `uint64_to_netaddr`: the low 32 bits are the address, the next 16 the port field. */
  function NetAddr(key: nat): (a: (nat, nat))
    requires key < TWO_64
    ensures a.0 < TWO_32 && a.1 < TWO_16
  {
    (key % TWO_32, (key / TWO_32) % TWO_16)
  }

  /** Packing and unpacking an address gives the same address and port back. */
  lemma NetAddrRoundTrip(addr: nat, port: nat)
    requires addr < TWO_32 && port < TWO_16
    ensures NetAddr(NetKey(addr, port)) == (addr, port)
  {
    var key := NetKey(addr, port);
    assert key / TWO_32 == port;
  }

  /** Two addresses share a key only when they are the same address. */
  lemma NetKeyInjective(addr1: nat, port1: nat, addr2: nat, port2: nat)
    requires addr1 < TWO_32 && port1 < TWO_16
    requires addr2 < TWO_32 && port2 < TWO_16
    requires NetKey(addr1, port1) == NetKey(addr2, port2)
    ensures addr1 == addr2 && port1 == port2
  {
    NetAddrRoundTrip(addr1, port1);
    NetAddrRoundTrip(addr2, port2);
  }

  /** Unpacking then packing gives the key back exactly when the key is below 2^48. */
  lemma NetKeyOfNetAddr(key: nat)
    requires key < TWO_64
    ensures NetKey(NetAddr(key).0, NetAddr(key).1) == key <==> key < TWO_48
  {
    if key < TWO_48 {
      assert key / TWO_32 < TWO_16;
    }
  }
}

// The wire format of an update: the packet that is written in place, and a
// decoder of the message by section 4.9.5 of RFC 7761.
module Wire {
  import opened JoinPrune
  import opened Checksum

  const IPV4_HDR_SIZE: nat := 20
  const PIM_JP_HDR_SIZE: nat := 14
  const IPPROTO_PIM: byte := 103

  // ---- The bytes of an update ----

  function U16(n: nat): (r: seq<byte>)
    ensures |r| == 2
  {
    [(n / 256 % 256) as byte, (n % 256) as byte]
  }

  function U32(n: nat): (r: seq<byte>)
    ensures |r| == 4
  {
    U16(n / 0x1_0000) + U16(n % 0x1_0000)
  }

  function Flags(s: Source): byte {
    4 + (if s.wildcard then 2 else 0) + (if s.rpt then 1 else 0)
  }

  function UnicastBytes(a: Address): seq<byte> {
    [1, 0] + U32(a)
  }

  function GroupBytes(a: Address): seq<byte> {
    [1, 0, 0, 32] + U32(a)
  }

  function SourceBytes(s: Source): seq<byte> {
    [1, 0, Flags(s), 32] + U32(s.addr)
  }

  function SourcesBytes(ss: seq<Source>): seq<byte> {
    if ss == [] then [] else SourceBytes(ss[0]) + SourcesBytes(ss[1..])
  }

  // The counts are cast to 16 bits.
  function EntryBytes(e: GroupEntry): seq<byte> {
    GroupBytes(e.group) + U16(|e.joins|) + U16(|e.prunes|) + SourcesBytes(e.joins) + SourcesBytes(e.prunes)
  }

  function EntriesBytes(u: Update): seq<byte> {
    if u == [] then [] else EntryBytes(u[0]) + EntriesBytes(u[1..])
  }

  // The PIM and Join/Prune headers; the checksum is still zero, and the number of
  // groups is cast to 8 bits.
  function HeaderBytes(groups: nat, neighbor: Address, holdtime: nat): seq<byte> {
    [0x23, 0, 0, 0] + UnicastBytes(neighbor) + [0, (groups % 256) as byte] + U16(holdtime)
  }

  function MessageBytes(u: Update, neighbor: Address, holdtime: nat): seq<byte> {
    HeaderBytes(|u|, neighbor, holdtime) + EntriesBytes(u)
  }

  // The kernel fills in the checksum of this header.
  function IPv4HeaderBytes(total: nat, source: Address): seq<byte> {
    [0x45, 192] + U16(total) + [0, 0, 0x40, 0, 1, IPPROTO_PIM, 0, 0] + U32(source) + [224, 0, 0, 13]
  }

  function PacketSize(u: Update): nat {
    IPV4_HDR_SIZE + PIM_JP_HDR_SIZE + Used(u)
  }

  function PacketBytes(u: Update, source: Address, neighbor: Address, holdtime: nat): seq<byte> {
    IPv4HeaderBytes(PacketSize(u), source) + Sealed(MessageBytes(u, neighbor, holdtime), 2)
  }

  // ---- Sizes ----

  lemma {:induction false} SourcesSize(ss: seq<Source>)
    ensures |SourcesBytes(ss)| == |ss| * SRC_SIZE
  {
    if ss != [] {
      SourcesSize(ss[1..]);
    }
  }

  lemma EntryBytesSize(e: GroupEntry)
    ensures |EntryBytes(e)| == EntrySize(e)
  {
    SourcesSize(e.joins);
    SourcesSize(e.prunes);
  }

  lemma {:induction false} EntriesAppend(u: Update, v: Update)
    ensures EntriesBytes(u + v) == EntriesBytes(u) + EntriesBytes(v)
  {
    hide EntryBytes;
    if u == [] {
      assert u + v == v;
    } else {
      var first, rest := EntryBytes(u[0]), u[1..];
      calc {
        EntriesBytes(u + v);
        { assert (u + v)[0] == u[0] && (u + v)[1..] == rest + v; }
        first + EntriesBytes(rest + v);
        { EntriesAppend(rest, v); }
        first + (EntriesBytes(rest) + EntriesBytes(v));
        EntriesBytes(u) + EntriesBytes(v);
      }
    }
  }

  // The packer's account of an update is what is written for it.
  lemma {:induction false} EntriesBytesSize(u: Update)
    ensures |EntriesBytes(u)| == Used(u)
  {
    hide EntryBytes;
    if u != [] {
      var n := |u| - 1;
      EntriesBytesSize(u[..n]);
      assert u == u[..n] + [u[n]];
      EntriesAppend(u[..n], [u[n]]);
      assert [u[n]][1..] == [];
      EntryBytesSize(u[n]);
    }
  }

  // ---- The decoder ----

  datatype Message = Message(neighbor: Address, holdtime: nat, groups: Update)
  datatype Parsed<+T> = Parsed(value: T, rest: seq<byte>)

  function Read16(d: seq<byte>, i: nat): nat
    requires i + 2 <= |d|
  {
    d[i] as int * 256 + d[i + 1] as int
  }

  function Read32(d: seq<byte>, i: nat): (a: Address)
    requires i + 4 <= |d|
  {
    Read16(d, i) * 0x1_0000 + Read16(d, i + 2)
  }

  function DecodeSource(d: seq<byte>): Option<Parsed<Source>> {
    if |d| < 8 || d[0] != 1 || d[1] != 0 || d[2] / 4 != 1 || d[3] != 32 then None
    else Some(Parsed(Source(Read32(d, 4), d[2] / 2 % 2 == 1, d[2] % 2 == 1), d[8..]))
  }

  function DecodeSources(n: nat, d: seq<byte>): Option<Parsed<seq<Source>>> {
    if n == 0 then Some(Parsed([], d))
    else match DecodeSource(d)
      case None => None
      case Some(Parsed(s, d1)) =>
        match DecodeSources(n - 1, d1)
        case None => None
        case Some(Parsed(ss, d2)) => Some(Parsed([s] + ss, d2))
  }

  function DecodeEntry(d: seq<byte>): Option<Parsed<GroupEntry>> {
    if |d| < 12 || d[0] != 1 || d[1] != 0 || d[2] != 0 || d[3] != 32 then None
    else match DecodeSources(Read16(d, 8), d[12..])
      case None => None
      case Some(Parsed(joins, d1)) =>
        match DecodeSources(Read16(d, 10), d1)
        case None => None
        case Some(Parsed(prunes, d2)) => Some(Parsed(GroupEntry(Read32(d, 4), joins, prunes), d2))
  }

  function DecodeEntries(n: nat, d: seq<byte>): Option<Parsed<Update>> {
    if n == 0 then Some(Parsed([], d))
    else match DecodeEntry(d)
      case None => None
      case Some(Parsed(e, d1)) =>
        match DecodeEntries(n - 1, d1)
        case None => None
        case Some(Parsed(es, d2)) => Some(Parsed([e] + es, d2))
  }

  // A Join/Prune message: version 2, type 3, a checksum that checks, and as many
  // groups as announced, with nothing behind them.
  function DecodeMessage(d: seq<byte>): Option<Message> {
    if |d| < 14 || d[0] != 0x23 || CodeSum(d) != 0 || d[4] != 1 || d[5] != 0 then None
    else match DecodeEntries(d[11] as nat, d[14..])
      case None => None
      case Some(Parsed(u, rest)) =>
        if rest == [] then Some(Message(Read32(d, 6), Read16(d, 12), u)) else None
  }

  // The IPv4 header of a packet; its length is in 32-bit words.
  datatype IPv4Header = IPv4Header(version: nat, words: nat, tos: nat, total: nat, id: nat, dontFragment: bool,
                                   fragment: nat, ttl: nat, protocol: nat, checksum: nat,
                                   source: Address, destination: Address)

  function DecodeIPv4(d: seq<byte>): Option<IPv4Header> {
    if |d| < 20 then None
    else
      Some(IPv4Header(d[0] / 16, d[0] % 16, d[1], Read16(d, 2), Read16(d, 4), d[6] / 64 % 2 == 1,
                      Read16(d, 6) % 0x2000, d[8], d[9], Read16(d, 10), Read32(d, 12), Read32(d, 16)))
  }

  // ---- Encoding and then decoding ----

  // The IPv4 header of every packet, field by field: a message of protocol 103 that goes
  // no further than the link, to 224.0.0.13, with a checksum that is still to be set.
  lemma IPv4HeaderBack(total: nat, source: Address, rest: seq<byte>)
    requires total < 0x1_0000
    ensures DecodeIPv4(IPv4HeaderBytes(total, source) + rest)
         == Some(IPv4Header(4, 5, 192, total, 0, true, 0, 1, 103, 0, source, 0xe000_000d))
  {
    var d := IPv4HeaderBytes(total, source) + rest;
    var mid: seq<byte> := [0, 0, 0x40, 0, 1, 103, 0, 0];
    var tail: seq<byte> := [224, 0, 0, 13];
    assert d == [0x45, 192] + U16(total) + (mid + U32(source) + tail + rest);
    ReadBack16(total, [0x45, 192], mid + U32(source) + tail + rest);
    assert d == ([0x45, 192] + U16(total) + mid) + U32(source) + (tail + rest);
    ReadBack32(source, [0x45, 192] + U16(total) + mid, tail + rest);
    hide U16, U32;
    assert d[4..12] == mid;
    assert d[16..20] == tail;
    assert d[0] == 0x45 && d[1] == 192;
    assert d[4] == mid[0] && d[5] == mid[1] && d[6] == mid[2] && d[7] == mid[3] && d[8] == mid[4] && d[9] == mid[5];
    assert d[10] == mid[6] && d[11] == mid[7];
    assert d[16] == tail[0] && d[17] == tail[1] && d[18] == tail[2] && d[19] == tail[3];
  }

  // The bytes of an address, most significant first.
  lemma AddressBytes(a: Address)
    ensures U32(a) == [a / 0x100_0000, a / 0x1_0000 % 256, a / 256 % 256, a % 256]
  {
    var hi, lo := a / 0x1_0000, a % 0x1_0000;
    HighByte(a, hi, lo);
    LowBytes(a, hi, lo);
    assert U16(hi) == [(hi / 256 % 256) as byte, (hi % 256) as byte];
    assert U16(lo) == [(lo / 256 % 256) as byte, (lo % 256) as byte];
  }

  lemma HighByte(a: Address, hi: nat, lo: nat)
    requires a == hi * 0x1_0000 + lo && lo < 0x1_0000
    ensures hi / 256 < 256 && a / 0x100_0000 == hi / 256
  {
    var h, l := hi / 256, hi % 256;
    assert hi == h * 256 + l;
    assert a == h * 0x100_0000 + (l * 0x1_0000 + lo);
  }

  lemma LowBytes(a: Address, hi: nat, lo: nat)
    requires a == hi * 0x1_0000 + lo && lo < 0x1_0000
    ensures lo / 256 < 256 && a / 256 % 256 == lo / 256 && a % 256 == lo % 256
  {
    var h, l := lo / 256, lo % 256;
    assert lo == h * 256 + l;
    assert a == (hi * 256 + h) * 256 + l;
    assert a / 256 == hi * 256 + h;
  }

  // A source, in plain numbers: IPv4, native encoding, the S, W and R bits, a mask of 32
  // bits, and the address.
  lemma SourceIsBytes(s: Source)
    ensures |SourceBytes(s)| == 8
    ensures SourceBytes(s)[..4] == [1, 0, 4 + (if s.wildcard then 2 else 0) + (if s.rpt then 1 else 0), 32]
    ensures SourceBytes(s)[4..] == [s.addr / 0x100_0000, s.addr / 0x1_0000 % 256, s.addr / 256 % 256, s.addr % 256]
  {
    AddressBytes(s.addr);
    hide U32;
    assert SourceBytes(s)[4..] == U32(s.addr);
  }

  // A group entry begins with the group, of a mask of 32 bits, and the two counts.
  lemma EntryIsBytes(e: GroupEntry)
    requires |e.joins| < 0x1_0000 && |e.prunes| < 0x1_0000
    ensures |EntryBytes(e)| == 12 + 8 * (|e.joins| + |e.prunes|)
    ensures EntryBytes(e)[..4] == [1, 0, 0, 32]
    ensures EntryBytes(e)[4..8] == [e.group / 0x100_0000, e.group / 0x1_0000 % 256, e.group / 256 % 256, e.group % 256]
    ensures EntryBytes(e)[8..12] == [|e.joins| / 256, |e.joins| % 256, |e.prunes| / 256, |e.prunes| % 256]
  {
    AddressBytes(e.group);
    EntryBytesSize(e);
    hide U32, SourcesBytes;
    var b := EntryBytes(e);
    assert b[4..8] == U32(e.group);
    assert b[8..12] == U16(|e.joins|) + U16(|e.prunes|);
  }

  // A message begins with PIM version 2 and type 3, the upstream neighbor, the number of
  // groups and the hold time.
  lemma MessageIsBytes(u: Update, neighbor: Address, holdtime: nat)
    requires |u| < 256 && holdtime < 0x1_0000
    ensures var b := MessageBytes(u, neighbor, holdtime);
            && |b| == 14 + |EntriesBytes(u)| && b[14..] == EntriesBytes(u)
            && b[..6] == [2 * 16 + 3, 0, 0, 0, 1, 0]
            && b[6..10] == [neighbor / 0x100_0000, neighbor / 0x1_0000 % 256, neighbor / 256 % 256, neighbor % 256]
            && b[10..14] == [0, |u|, holdtime / 256, holdtime % 256]
  {
    AddressBytes(neighbor);
    hide U32, EntriesBytes;
    var b := MessageBytes(u, neighbor, holdtime);
    assert b[6..10] == U32(neighbor);
    assert b[10..14] == [0, |u|] + U16(holdtime);
    assert b[14..] == EntriesBytes(u);
  }

  lemma ReadBack16(n: nat, pre: seq<byte>, post: seq<byte>)
    requires n < 0x1_0000
    ensures Read16(pre + U16(n) + post, |pre|) == n
  {
  }

  lemma ReadBack32(a: Address, pre: seq<byte>, post: seq<byte>)
    ensures Read32(pre + U32(a) + post, |pre|) == a
  {
    var hi, lo := a / 0x1_0000, a % 0x1_0000;
    ReadBack16(hi, pre, U16(lo) + post);
    ReadBack16(lo, pre + U16(hi), post);
    assert pre + U32(a) + post == pre + U16(hi) + (U16(lo) + post) == (pre + U16(hi)) + U16(lo) + post;
  }

  lemma SourceBack(s: Source, rest: seq<byte>)
    ensures DecodeSource(SourceBytes(s) + rest) == Some(Parsed(s, rest))
  {
    var d := SourceBytes(s) + rest;
    var pre: seq<byte> := [1, 0, Flags(s), 32];
    ReadBack32(s.addr, pre, rest);
    assert d == pre + U32(s.addr) + rest;
    hide U32;
    assert d[8..] == rest;
  }

  lemma {:induction false} SourcesBack(ss: seq<Source>, rest: seq<byte>)
    ensures DecodeSources(|ss|, SourcesBytes(ss) + rest) == Some(Parsed(ss, rest))
  {
    hide SourceBytes, DecodeSource;
    if ss == [] {
      assert [] + rest == rest;
    } else {
      var tail := SourcesBytes(ss[1..]) + rest;
      SourcesBack(ss[1..], rest);
      SourceBack(ss[0], tail);
      assert SourcesBytes(ss) + rest == SourceBytes(ss[0]) + tail;
      assert [ss[0]] + ss[1..] == ss;
    }
  }

  // What the casts of the counts leave intact.
  ghost predicate Countable(u: Update) {
    && |u| < 256
    && forall e :: e in u ==> |e.joins| < 0x1_0000 && |e.prunes| < 0x1_0000
  }

  lemma EntryBack(e: GroupEntry, rest: seq<byte>)
    requires |e.joins| < 0x1_0000 && |e.prunes| < 0x1_0000
    ensures DecodeEntry(EntryBytes(e) + rest) == Some(Parsed(e, rest))
  {
    hide U16, U32, Read16, Read32, SourcesBytes, DecodeSources;
    var d := EntryBytes(e) + rest;
    var addr, j, p := U32(e.group), U16(|e.joins|), U16(|e.prunes|);
    var joins, prunes := SourcesBytes(e.joins), SourcesBytes(e.prunes);
    var pre: seq<byte> := [1, 0, 0, 32];
    assert d == pre + addr + (j + p + joins + prunes + rest);
    ReadBack32(e.group, pre, j + p + joins + prunes + rest);
    assert d == (pre + addr) + j + (p + joins + prunes + rest);
    ReadBack16(|e.joins|, pre + addr, p + joins + prunes + rest);
    assert d == (pre + addr + j) + p + (joins + prunes + rest);
    ReadBack16(|e.prunes|, pre + addr + j, joins + prunes + rest);
    assert d[12..] == joins + (prunes + rest);
    SourcesBack(e.joins, prunes + rest);
    SourcesBack(e.prunes, rest);
  }

  lemma {:induction false} EntriesBack(u: Update, rest: seq<byte>)
    requires forall e :: e in u ==> |e.joins| < 0x1_0000 && |e.prunes| < 0x1_0000
    ensures DecodeEntries(|u|, EntriesBytes(u) + rest) == Some(Parsed(u, rest))
  {
    hide EntryBytes, DecodeEntry;
    if u == [] {
      assert [] + rest == rest;
    } else {
      var tail := EntriesBytes(u[1..]) + rest;
      EntriesBack(u[1..], rest);
      EntryBack(u[0], tail);
      assert EntriesBytes(u) + rest == EntryBytes(u[0]) + tail;
      assert [u[0]] + u[1..] == u;
    }
  }

  // The round trip, for every update whose counts survive the casts: a receiver
  // that checks the checksum decodes exactly what was encoded.
  lemma MessageBack(u: Update, neighbor: Address, holdtime: nat)
    requires Countable(u) && holdtime < 0x1_0000
    ensures DecodeMessage(Sealed(MessageBytes(u, neighbor, holdtime), 2)) == Some(Message(neighbor, holdtime, u))
  {
    hide U16, U32, Read16, Read32, EntriesBytes, DecodeEntries, CodeSum;
    var plain := MessageBytes(u, neighbor, holdtime);
    var d := Sealed(plain, 2);
    SealedChecks(plain, 2);
    assert d[4..] == plain[4..];
    var body := EntriesBytes(u);
    assert d == d[..6] + U32(neighbor) + ([0, |u| as byte] + U16(holdtime) + body);
    ReadBack32(neighbor, d[..6], [0, |u| as byte] + U16(holdtime) + body);
    assert d == d[..12] + U16(holdtime) + body;
    ReadBack16(holdtime, d[..12], body);
    assert d[14..] == body + [];
    EntriesBack(u, []);
  }
}

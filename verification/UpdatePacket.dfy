// The Join/Prune update packet, written in place into a zeroed buffer.
module UpdatePacket {
  import opened JoinPrune
  import opened Checksum
  import opened Wire
  import opened FirstFit
  import opened Conservation
  import opened InverseFit
  import opened InverseTheorems

  class PacketWriter {
    const data: array<byte>
    const start: nat
    var end: nat

    // Nothing was written at or behind the end yet.
    ghost predicate Valid()
      reads this, data
    {
      start <= end <= data.Length && forall i :: end <= i < data.Length ==> data[i] == 0
    }

    constructor (data: array<byte>, start: nat)
      requires start <= data.Length && forall i :: start <= i < data.Length ==> data[i] == 0
      ensures Valid() && this.data == data && this.start == start && end == start
    {
      this.data, this.start, end := data, start, start;
    }

    function Size(): nat
      requires start <= end
      reads this
    {
      end - start
    }

    method Put(b: byte)
      requires Valid() && end < data.Length
      modifies this, data
      ensures Valid() && end == old(end) + 1 && data[..end] == old(data[..end]) + [b]
    {
      data[end] := b;
      end := end + 1;
    }

    // A field that is left as it is.
    method Skip(n: nat)
      requires Valid() && end + n <= data.Length
      modifies this
      ensures Valid() && end == old(end) + n && data[..end] == old(data[..end]) + Zeros(n)
    {
      end := end + n;
    }

    // Two and four bytes in network order.
    method Put16(n: nat)
      requires Valid() && end + 2 <= data.Length
      modifies this, data
      ensures Valid() && end == old(end) + 2 && data[..end] == old(data[..end]) + U16(n)
    {
      Put((n / 256 % 256) as byte);
      Put((n % 256) as byte);
    }

    method Put32(n: nat)
      requires Valid() && end + 4 <= data.Length
      modifies this, data
      ensures Valid() && end == old(end) + 4 && data[..end] == old(data[..end]) + U32(n)
    {
      hide U16;
      Put16(n / 0x1_0000);
      Put16(n % 0x1_0000);
    }

    method Put4(a: byte, b: byte, c: byte, d: byte)
      requires Valid() && end + 4 <= data.Length
      modifies this, data
      ensures Valid() && end == old(end) + 4 && data[..end] == old(data[..end]) + [a, b, c, d]
    {
      Put(a);
      Put(b);
      Put(c);
      Put(d);
    }
  }

  method WriteSource(pw: PacketWriter, s: Source)
    requires pw.Valid() && pw.end + SRC_SIZE <= pw.data.Length
    modifies pw, pw.data
    ensures pw.Valid() && pw.end == old(pw.end) + SRC_SIZE
    ensures pw.data[..pw.end] == old(pw.data[..pw.end]) + SourceBytes(s)
  {
    hide U32;
    pw.Put4(1, 0, Flags(s), 32);
    pw.Put32(s.addr);
  }

  method WriteSources(pw: PacketWriter, ss: seq<Source>)
    requires pw.Valid() && pw.end + |ss| * SRC_SIZE <= pw.data.Length
    modifies pw, pw.data
    ensures pw.Valid() && pw.end == old(pw.end) + |ss| * SRC_SIZE
    ensures pw.data[..pw.end] == old(pw.data[..pw.end]) + SourcesBytes(ss)
  {
    hide SourceBytes, SourcesBytes;
    NoSources();
    for i := 0 to |ss|
      invariant pw.Valid() && pw.end == old(pw.end) + i * SRC_SIZE
      invariant pw.data[..pw.end] == old(pw.data[..pw.end]) + SourcesBytes(ss[..i])
    {
      WriteSource(pw, ss[i]);
      SourcesMore(ss, i);
    }
    assert ss[..|ss|] == ss;
  }

  lemma NoSources()
    ensures SourcesBytes([]) == []
  {
  }

  lemma {:induction false} SourcesMore(ss: seq<Source>, i: nat)
    requires i < |ss|
    ensures SourcesBytes(ss[..i + 1]) == SourcesBytes(ss[..i]) + SourceBytes(ss[i])
  {
    hide SourceBytes;
    if i == 0 {
      assert ss[..1][1..] == [];
    } else {
      SourcesMore(ss[1..], i - 1);
      assert ss[..i + 1][1..] == ss[1..][..i] && ss[..i][1..] == ss[1..][..i - 1];
    }
  }

  method WriteGroupEntry(pw: PacketWriter, ge: GroupEntry)
    requires pw.Valid() && pw.end + EntrySize(ge) <= pw.data.Length
    modifies pw, pw.data
    ensures pw.Valid() && pw.end == old(pw.end) + EntrySize(ge)
    ensures pw.data[..pw.end] == old(pw.data[..pw.end]) + EntryBytes(ge)
  {
    hide U16, U32, SourcesBytes;
    pw.Put4(1, 0, 0, 32);
    pw.Put32(ge.group);
    pw.Put16(|ge.joins|);
    pw.Put16(|ge.prunes|);
    WriteSources(pw, ge.joins);
    WriteSources(pw, ge.prunes);
  }

  method WriteGroups(pw: PacketWriter, u: Update)
    requires pw.Valid() && pw.end + Used(u) <= pw.data.Length
    modifies pw, pw.data
    ensures pw.Valid() && pw.end == old(pw.end) + Used(u)
    ensures pw.data[..pw.end] == old(pw.data[..pw.end]) + EntriesBytes(u)
  {
    hide Used, EntryBytes, EntriesBytes;
    UsedEmpty();
    NoEntries();
    for i := 0 to |u|
      invariant pw.Valid() && pw.end == old(pw.end) + Used(u[..i])
      invariant pw.data[..pw.end] == old(pw.data[..pw.end]) + EntriesBytes(u[..i])
    {
      assert u[..i + 1] == u[..i] + [u[i]];
      UsedAppend(u[..i], u[i]);
      UsedPrefix(u, i + 1);
      EntriesAppend(u[..i], [u[i]]);
      OneEntry(u[i]);
      WriteGroupEntry(pw, u[i]);
    }
    assert u[..|u|] == u;
  }

  lemma NoEntries()
    ensures EntriesBytes([]) == []
  {
  }

  lemma OneEntry(e: GroupEntry)
    ensures EntriesBytes([e]) == EntryBytes(e)
  {
    hide EntryBytes;
    assert [e][1..] == [];
  }

  lemma {:induction false} UsedPrefix(u: Update, i: nat)
    requires i <= |u|
    ensures Used(u[..i]) <= Used(u)
  {
    if i == |u| {
      assert u[..i] == u;
    } else {
      var n := |u| - 1;
      UsedPrefix(u[..n], i);
      assert u[..n][..i] == u[..i];
    }
  }

  // The size of an update, summed over the sizes of its entries.
  method SummarySize(u: Update) returns (size: nat)
    ensures size == Used(u)
  {
    size := 0;
    for i := 0 to |u|
      invariant size == Used(u[..i])
    {
      assert u[..i + 1] == u[..i] + [u[i]];
      UsedAppend(u[..i], u[i]);
      size := size + (GRP_HDR_SIZE + (|u[i].joins| + |u[i].prunes|) * SRC_SIZE);
    }
    assert u[..|u|] == u;
  }

  method WriteIPv4Header(pw: PacketWriter, total: nat, source: Address)
    requires pw.Valid() && pw.end + IPV4_HDR_SIZE <= pw.data.Length
    modifies pw, pw.data
    ensures pw.Valid() && pw.end == old(pw.end) + IPV4_HDR_SIZE
    ensures pw.data[..pw.end] == old(pw.data[..pw.end]) + IPv4HeaderBytes(total, source)
  {
    hide U16, U32;
    ghost var before := pw.data[..pw.end];
    pw.Put(0x45);
    pw.Put(192);
    pw.Put16(total);
    assert pw.data[..pw.end] == before + ([0x45, 192] + U16(total));
    pw.Put4(0, 0, 0x40, 0);
    pw.Put4(1, IPPROTO_PIM, 0, 0);
    assert pw.data[..pw.end] == before + ([0x45, 192] + U16(total) + [0, 0, 0x40, 0, 1, IPPROTO_PIM, 0, 0]);
    pw.Put32(source);
    pw.Put4(224, 0, 0, 13);
  }

  // The checksum field is left zero.
  method WriteHdr(pw: PacketWriter)
    requires pw.Valid() && pw.end + 4 <= pw.data.Length
    modifies pw, pw.data
    ensures pw.Valid() && pw.end == old(pw.end) + 4
    ensures pw.data[..pw.end] == old(pw.data[..pw.end]) + [0x23, 0, 0, 0]
  {
    pw.Put(0x23);
    pw.Put(0);
    pw.Skip(2);
    assert Zeros(2) == [0, 0];
  }

  method WriteAddr(pw: PacketWriter, a: Address)
    requires pw.Valid() && pw.end + 6 <= pw.data.Length
    modifies pw, pw.data
    ensures pw.Valid() && pw.end == old(pw.end) + 6
    ensures pw.data[..pw.end] == old(pw.data[..pw.end]) + UnicastBytes(a)
  {
    hide U32;
    pw.Put(1);
    pw.Put(0);
    pw.Put32(a);
  }

  method WriteJPHdr(pw: PacketWriter, groups: byte, neighbor: Address, holdtime: nat)
    requires pw.Valid() && pw.end + 10 <= pw.data.Length
    modifies pw, pw.data
    ensures pw.Valid() && pw.end == old(pw.end) + 10
    ensures pw.data[..pw.end] == old(pw.data[..pw.end]) + (UnicastBytes(neighbor) + [0, groups] + U16(holdtime))
  {
    hide U16, UnicastBytes;
    WriteAddr(pw, neighbor);
    pw.Put(0);
    pw.Put(groups);
    pw.Put16(holdtime);
  }

  // Computes the checksum of the message at from and writes it into its field.
  method WriteChkSum(data: array<byte>, from: nat, size: nat, base: nat)
    requires from + size == data.Length && 4 <= size
    modifies data
    ensures data[..] == old(data[..from])
                        + WithField(old(data[from..]), 2, Computed(old(data[from..]), (base + from) % 4))
  {
    hide Computed;
    ghost var d := data[from..from + size];
    assert data[from..] == d;
    var c := IpChecksumNs(data, from, size, base);
    data[from + 2] := (c / 256 % 256) as byte;
    data[from + 3] := (c % 256) as byte;
    assert data[..] == old(data[..from]) + WithField(d, 2, c);
  }

  lemma HeaderParts(groups: nat, neighbor: Address, holdtime: nat)
    ensures HeaderBytes(groups, neighbor, holdtime)
         == [0x23, 0, 0, 0] + (UnicastBytes(neighbor) + [0, (groups % 256) as byte] + U16(holdtime))
    ensures |HeaderBytes(groups, neighbor, holdtime)| == PIM_JP_HDR_SIZE
  {
    hide U16, U32;
  }

  lemma MessageSize(u: Update, neighbor: Address, holdtime: nat)
    ensures |MessageBytes(u, neighbor, holdtime)| == PacketSize(u) - IPV4_HDR_SIZE
  {
    HeaderParts(|u|, neighbor, holdtime);
    EntriesBytesSize(u);
  }

  // The packet before its checksum is filled in.
  function PlainBytes(u: Update, source: Address, neighbor: Address, holdtime: nat): seq<byte> {
    IPv4HeaderBytes(PacketSize(u), source) + MessageBytes(u, neighbor, holdtime)
  }

  lemma PlainParts(u: Update, source: Address, neighbor: Address, holdtime: nat)
    ensures PlainBytes(u, source, neighbor, holdtime)
         == [] + IPv4HeaderBytes(PacketSize(u), source) + [0x23, 0, 0, 0]
            + (UnicastBytes(neighbor) + [0, (|u| % 256) as byte] + U16(holdtime)) + EntriesBytes(u)
    ensures |PlainBytes(u, source, neighbor, holdtime)| == PacketSize(u)
  {
    MessageSize(u, neighbor, holdtime);
    HeaderParts(|u|, neighbor, holdtime);
    assert MessageBytes(u, neighbor, holdtime) == HeaderBytes(|u|, neighbor, holdtime) + EntriesBytes(u);
    assert |IPv4HeaderBytes(PacketSize(u), source)| == IPV4_HDR_SIZE;
    hide HeaderBytes, MessageBytes, IPv4HeaderBytes, UnicastBytes, EntriesBytes, U16, Used;
    Regroup(IPv4HeaderBytes(PacketSize(u), source), [0x23, 0, 0, 0],
            UnicastBytes(neighbor) + [0, (|u| % 256) as byte] + U16(holdtime), EntriesBytes(u));
  }

  lemma Regroup<T>(a: seq<T>, b: seq<T>, c: seq<T>, d: seq<T>)
    ensures [] + a + b + c + d == a + ((b + c) + d)
  {
    assert [] + a == a;
  }

  lemma PlainSplit(u: Update, source: Address, neighbor: Address, holdtime: nat)
    ensures var plain := PlainBytes(u, source, neighbor, holdtime);
            && |plain| >= IPV4_HDR_SIZE
            && plain[..IPV4_HDR_SIZE] == IPv4HeaderBytes(PacketSize(u), source)
            && plain[IPV4_HDR_SIZE..] == MessageBytes(u, neighbor, holdtime)
  {
    hide MessageBytes, Used, U16, U32;
  }

  // Writes the headers and the groups into a zeroed buffer.
  method WritePlain(pw: PacketWriter, update: Update, source: Address, neighbor: Address, holdtime: nat)
    requires pw.Valid() && pw.start == 0 == pw.end && pw.data.Length == PacketSize(update)
    modifies pw, pw.data
    ensures pw.Valid() && pw.Size() == PacketSize(update)
    ensures pw.data[..] == PlainBytes(update, source, neighbor, holdtime)
  {
    hide Used, IPv4HeaderBytes, UnicastBytes, U16, EntriesBytes, PlainBytes;
    assert pw.data[..0] == [];
    WriteIPv4Header(pw, PacketSize(update), source);
    WriteHdr(pw);
    WriteJPHdr(pw, (|update| % 256) as byte, neighbor, holdtime);
    WriteGroups(pw, update);
    PlainParts(update, source, neighbor, holdtime);
    assert pw.data[..] == pw.data[..pw.end];
  }

  // The packet at an address base; null where the source raises an exception.
  method NewUpdatePacket(update: Update, source: Address, neighbor: Address, holdtime: nat, base: nat)
    returns (packet: array?<byte>)
    ensures packet != null && fresh(packet)
    ensures var message := MessageBytes(update, neighbor, holdtime);
            packet[..] == IPv4HeaderBytes(PacketSize(update), source)
                          + WithField(message, 2, Computed(message, (base + IPV4_HDR_SIZE) % 4))
    ensures PacketSize(update) <= TWO_32 ==> packet[..] == PacketBytes(update, source, neighbor, holdtime)
    ensures var header := IPv4Header(4, 5, 192, packet.Length, 0, true, 0, 1, 103, 0, source, 0xe000_000d);
            packet.Length < 0x1_0000 ==> DecodeIPv4(packet[..]) == Some(header)
  {
    hide Used, IPv4HeaderBytes, MessageBytes, PlainBytes, WithField, Computed, CodeSum, DecodeIPv4;
    var size := SummarySize(update);
    var pimSz := PIM_JP_HDR_SIZE + size;
    var sz := IPV4_HDR_SIZE + pimSz;
    var data := new byte[sz](_ => 0);
    var pw := new PacketWriter(data, 0);
    WritePlain(pw, update, source, neighbor, holdtime);
    if pw.Size() != sz {
      return null;
    }
    PlainSplit(update, source, neighbor, holdtime);
    assert data[..IPV4_HDR_SIZE] == data[..][..IPV4_HDR_SIZE];
    assert data[IPV4_HDR_SIZE..] == data[..][IPV4_HDR_SIZE..];
    WriteChkSum(data, IPV4_HDR_SIZE, pimSz, base);
    ComputedIsCodeSum(MessageBytes(update, neighbor, holdtime), (base + IPV4_HDR_SIZE) % 4);
    MessageSize(update, neighbor, holdtime);
    if sz < 0x1_0000 {
      IPv4HeaderBack(sz, source, data[IPV4_HDR_SIZE..]);
      assert data[..] == data[..IPV4_HDR_SIZE] + data[IPV4_HDR_SIZE..];
      assert data[..IPV4_HDR_SIZE] == IPv4HeaderBytes(sz, source);
    }
    return data;
  }

  // ---- The packets that are sent ----

  lemma {:induction false} EntryInUsed(u: Update, e: GroupEntry)
    requires e in u
    ensures EntrySize(e) <= Used(u)
  {
    var n := |u| - 1;
    if e != u[n] {
      assert u == u[..n] + [u[n]];
      EntryInUsed(u[..n], e);
    }
  }

  // An update within capacity whose entries are not empty is sent in at most 1500
  // bytes, and is decoded back.
  lemma FittingPacket(u: Update, source: Address, neighbor: Address, holdtime: nat)
    requires Fits(u) && holdtime < 0x1_0000
    requires forall e :: e in u ==> EntrySize(e) >= MIN_ENTRY_SIZE
    ensures |PacketBytes(u, source, neighbor, holdtime)| == PacketSize(u) <= 1500
    ensures DecodeMessage(PacketBytes(u, source, neighbor, holdtime)[IPV4_HDR_SIZE..])
         == Some(Message(neighbor, holdtime, u))
  {
    ShapedCount(u);
    assert Countable(u) by {
      forall e | e in u
        ensures |e.joins| < 0x1_0000 && |e.prunes| < 0x1_0000
      {
        EntryInUsed(u, e);
      }
    }
    EntriesBytesSize(u);
    hide DecodeMessage, Used, EntriesBytes, CodeSum, U16, U32;
    MessageBack(u, neighbor, holdtime);
    var m := Sealed(MessageBytes(u, neighbor, holdtime), 2);
    var h := IPv4HeaderBytes(PacketSize(u), source);
    assert (h + m)[|h|..] == m;
  }

  lemma PackedPackets(cfg: JPConfig, source: Address, neighbor: Address, holdtime: nat)
    requires DistinctGroups(cfg) && holdtime < 0x1_0000
    requires forall g :: g in cfg ==> PrunesBounded(g)
    ensures forall u :: u in Packed(cfg) ==>
              && |PacketBytes(u, source, neighbor, holdtime)| == PacketSize(u) <= 1500
              && DecodeMessage(PacketBytes(u, source, neighbor, holdtime)[IPV4_HDR_SIZE..])
              == Some(Message(neighbor, holdtime, u))
  {
    hide PacketBytes, DecodeMessage, Packed, EntrySize;
    PackedShape(cfg);
    forall u | u in Packed(cfg)
      ensures |PacketBytes(u, source, neighbor, holdtime)| == PacketSize(u) <= 1500
      ensures DecodeMessage(PacketBytes(u, source, neighbor, holdtime)[IPV4_HDR_SIZE..])
           == Some(Message(neighbor, holdtime, u))
    {
      assert Shaped(u) && Fits(u);
      FittingPacket(u, source, neighbor, holdtime);
    }
  }

  lemma InversePackets(cfg: JPConfig, source: Address, neighbor: Address, holdtime: nat)
    requires DistinctGroups(cfg) && holdtime < 0x1_0000
    ensures forall u :: u in InversePacked(cfg) ==>
              && |PacketBytes(u, source, neighbor, holdtime)| == PacketSize(u) <= 1500
              && DecodeMessage(PacketBytes(u, source, neighbor, holdtime)[IPV4_HDR_SIZE..])
              == Some(Message(neighbor, holdtime, u))
  {
    hide PacketBytes, DecodeMessage, InversePacked, EntrySize;
    InverseShape(cfg);
    forall u | u in InversePacked(cfg)
      ensures |PacketBytes(u, source, neighbor, holdtime)| == PacketSize(u) <= 1500
      ensures DecodeMessage(PacketBytes(u, source, neighbor, holdtime)[IPV4_HDR_SIZE..])
           == Some(Message(neighbor, holdtime, u))
    {
      assert Shaped(u) && Fits(u);
      FittingPacket(u, source, neighbor, holdtime);
    }
  }
}

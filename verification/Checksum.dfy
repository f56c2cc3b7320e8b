// The Internet checksum: the word-at-a-time, alignment-aware computation against
// the 16-bit one's-complement definition in section 1 of RFC 1071.
module Checksum {

  type byte = b: nat | b < 256

  const ONES: nat := 0xffff
  const TWO_32: nat := 0x1_0000_0000
  const TWO_64: nat := 0x1_0000_0000_0000_0000

  // ---- The definition ----

  // Addition of 16-bit words with an end-around carry.
  function OnesAdd(x: nat, y: nat): nat {
    if x + y > ONES then x + y - ONES else x + y
  }

  // The one's-complement sum of the 16-bit words of d; a last odd byte is padded.
  function OnesSum(d: seq<byte>): nat {
    if d == [] then 0
    else if |d| == 1 then d[0] as int * 256
    else OnesAdd(d[0] as int * 256 + d[1], OnesSum(d[2..]))
  }

  function RfcChecksum(d: seq<byte>): int {
    ONES - OnesSum(d)
  }

  ghost predicate AllZero(d: seq<byte>) {
    forall i :: 0 <= i < |d| ==> d[i] == 0
  }

  // The example in section 3 of RFC 1071, and a single byte.
  lemma RfcExample()
    ensures OnesSum([0x00, 0x01, 0xf2, 0x03, 0xf4, 0xf5, 0xf6, 0xf7]) == 0xddf2
    ensures RfcChecksum([0x00, 0x01, 0xf2, 0x03, 0xf4, 0xf5, 0xf6, 0xf7]) == 0x220d
    ensures OnesSum([0x12]) == 0x1200
  {
    var d: seq<byte> := [0x00, 0x01, 0xf2, 0x03, 0xf4, 0xf5, 0xf6, 0xf7];
    assert d[2..] == [0xf2, 0x03, 0xf4, 0xf5, 0xf6, 0xf7];
    assert d[2..][2..] == [0xf4, 0xf5, 0xf6, 0xf7];
    assert d[2..][2..][2..] == [0xf6, 0xf7];
    assert d[2..][2..][2..][2..] == [];
    assert OnesSum(d[2..][2..][2..]) == 0xf6f7;
    assert OnesSum(d[2..][2..]) == 0xf4f5 + 0xf6f7 - 0xffff;
    assert OnesSum(d[2..]) == 0xf203 + (0xf4f5 + 0xf6f7 - 0xffff) - 0xffff;
  }

  // ---- Weighted sums ----

  // A byte's place in a 32-bit word.
  type Place = p: nat | p < 4

  function After(p: Place): Place {
    if p == 3 then 0 else p + 1
  }

  // The place n bytes further on.
  function Advance(p: Place, n: nat): Place
    decreases n
  {
    if n == 0 then p else Advance(After(p), n - 1)
  }

  predicate Odd(p: Place) {
    p == 1 || p == 3
  }

  // What a byte stands for in a 16-bit word, and in a 32-bit word.
  function Term16(b: int, odd: bool): int {
    if odd then b else b * 256
  }

  function Term32(b: int, p: Place): int {
    if p == 0 then b * 0x100_0000 else if p == 1 then b * 0x1_0000 else if p == 2 then b * 256 else b
  }

  // The sum of the bytes by their places in 16-bit words.
  function Sum16(d: seq<byte>, odd: bool): nat {
    if d == [] then 0 else Term16(d[0], odd) + Sum16(d[1..], !odd)
  }

  // The same by the places in 32-bit words, the first byte being at place p.
  function Sum32(d: seq<byte>, p: Place): nat {
    if d == [] then 0 else Term32(d[0], p) + Sum32(d[1..], After(p))
  }

  // The representative of x > 0 in 1..0xffff modulo 0xffff.
  function Rep(x: nat): nat {
    if x == 0 then 0 else (x - 1) % ONES + 1
  }

  lemma RepUnique(x: nat, y: nat, k: int)
    requires x > 0 && y > 0 && x == y + ONES * k
    ensures Rep(x) == Rep(y)
  {
  }

  lemma TermStep(b: nat, p: Place) returns (k: nat)
    ensures Term32(b, p) == Term16(b, Odd(p)) + ONES * k
  {
    k := if p == 0 then b * 256 else if p == 1 then b else 0;
  }

  lemma {:induction false} Sum32IsSum16(d: seq<byte>, p: Place) returns (k: nat)
    ensures Sum32(d, p) == Sum16(d, Odd(p)) + ONES * k
  {
    if d == [] {
      k := 0;
    } else {
      hide Term16, Term32;
      var k1 := Sum32IsSum16(d[1..], After(p));
      var k2 := TermStep(d[0], p);
      k := k1 + k2;
    }
  }

  // Byte swapping: section 2(B) of RFC 1071.
  lemma {:induction false} SwapSum(d: seq<byte>, odd: bool) returns (k: nat)
    ensures 256 * Sum16(d, odd) == Sum16(d, !odd) + ONES * k
  {
    if d == [] {
      k := 0;
    } else {
      k := SwapSum(d[1..], !odd);
      k := k + (if odd then 0 else d[0]);
    }
  }

  lemma {:induction false} Sum16Zero(d: seq<byte>, odd: bool)
    ensures Sum16(d, odd) == 0 <==> AllZero(d)
  {
    if d != [] {
      Sum16Zero(d[1..], !odd);
      assert AllZero(d) <==> d[0] == 0 && AllZero(d[1..]) by {
        assert forall i :: 0 < i < |d| ==> d[i] == d[1..][i - 1];
      }
    }
  }

  lemma OnesAddRep(x: nat, y: nat)
    requires x <= ONES
    ensures OnesAdd(x, Rep(y)) == Rep(x + y)
  {
  }

  lemma {:induction false} OnesSumRep(d: seq<byte>)
    ensures OnesSum(d) == Rep(Sum16(d, false))
  {
    if |d| == 1 {
      assert Sum16(d, false) == d[0] as int * 256 + Sum16(d[1..], true);
    } else if |d| > 1 {
      OnesSumRep(d[2..]);
      assert d[1..][1..] == d[2..];
      assert Sum16(d, false) == d[0] as int * 256 + (d[1] + Sum16(d[2..], false));
      OnesAddRep(d[0] as int * 256 + d[1], Sum16(d[2..], false));
    }
  }

  lemma {:induction false} Sum32Append(d: seq<byte>, e: seq<byte>, p: Place)
    ensures Sum32(d + e, p) == Sum32(d, p) + Sum32(e, Advance(p, |d|))
  {
    hide Term32;
    if d == [] {
      assert d + e == e;
    } else {
      Sum32Append(d[1..], e, After(p));
      assert (d + e)[1..] == d[1..] + e;
    }
  }

  lemma {:induction false} Sum32Bound(d: seq<byte>, p: Place)
    ensures Sum32(d, p) <= |d| * 255 * 0x100_0000
  {
    if d != [] {
      Sum32Bound(d[1..], After(p));
    }
  }

  lemma {:induction false} AdvanceAdd(p: Place, m: nat, n: nat)
    ensures Advance(p, m + n) == Advance(Advance(p, m), n)
    decreases m
  {
    if m > 0 {
      AdvanceAdd(After(p), m - 1, n);
    }
  }

  // To the end of a word, and over a whole one.
  lemma AdvanceWord(p: Place)
    ensures Advance(p, 4 - p) == 0 && Advance(0, 4) == 0
  {
    assert Advance(0, 4) == Advance(1, 3) == Advance(2, 2) == Advance(3, 1) == Advance(0, 0);
  }

  // ---- The computation ----

  // A 32-bit word in network byte order.
  function Word(b: seq<byte>): nat
    requires |b| == 4
  {
    b[0] as int * 0x100_0000 + b[1] as int * 0x1_0000 + b[2] as int * 0x100 + b[3]
  }

  function Zeros(n: nat): seq<byte> {
    seq(n, _ => 0)
  }

  // A word into which the bytes d were copied at the given place.
  function Partial(d: seq<byte>, place: Place): (w: seq<byte>)
    requires place + |d| <= 4
    ensures |w| == 4
  {
    Zeros(place) + d + Zeros(4 - place - |d|)
  }

  lemma PartialSum(d: seq<byte>, place: Place)
    requires place + |d| <= 4
    ensures Word(Partial(d, place)) == Sum32(d, place)
  {
    if |d| > 0 {
      assert d[1..] == d[1..|d|];
      if |d| > 1 {
        assert d[1..][1..] == d[2..];
        if |d| > 2 {
          assert d[1..][1..][1..] == d[3..];
          if |d| > 3 {
            assert d[1..][1..][1..][1..] == [];
          }
        }
      }
    }
  }

  // What the computation returns, whatever the alignment of the data, when the
  // accumulator does not wrap.
  function CodeSum(d: seq<byte>): (c: nat)
    ensures c < ONES
  {
    ONES - Rep(ONES + Sum16(d, false))
  }

  // A 16-bit word with its bytes reversed.
  function Swapped(x: nat): nat {
    x / 256 + x % 256 * 256
  }

  // Folded, reversed if the data began at an odd address, and complemented.
  function Finished(acc: nat, offset: Place): int {
    ONES - (if Odd(offset) then Swapped(Rep(acc)) else Rep(acc))
  }

  // What the computation returns in any case: the accumulator has 64 bits.
  function Computed(d: seq<byte>, offset: Place): int {
    Finished((ONES + Sum32(d, offset)) % TWO_64, offset)
  }

  // Adding the upper part of a sum to its lower part.
  lemma Carry(acc: nat, m: nat, k: nat)
    requires (m == TWO_32 && k == 0x1_0001) || (m == 0x1_0000 && k == 1)
    ensures Rep(acc % m + acc / m) == Rep(acc)
  {
    if acc > 0 {
      RepUnique(acc, acc % m + acc / m, k * (acc / m));
    }
  }

  lemma SwapIsTimes256(acc: nat)
    requires 0 < acc <= ONES
    ensures Swapped(acc) == Rep(256 * acc)
  {
    RepUnique(256 * acc, Swapped(acc), acc / 256);
  }

  // Undoing an odd alignment.
  lemma OddAlignment(d: seq<byte>, acc: nat)
    requires acc == Rep(ONES + Sum16(d, true))
    ensures Swapped(acc) == Rep(ONES + Sum16(d, false))
  {
    SwapIsTimes256(acc);
    var k := SwapSum(d, true);
    var m := RepQuotient(ONES + Sum16(d, true));
    RepUnique(256 * acc, ONES + Sum16(d, false), 255 + (k as int) - 256 * (m as int));
  }

  lemma RepQuotient(x: nat) returns (m: nat)
    requires x > 0
    ensures x == Rep(x) + ONES * m
  {
    m := (x - 1) / ONES;
  }

  // Without wrapping the alignment does not matter.
  lemma UnwrappedIsCodeSum(d: seq<byte>, offset: Place)
    ensures Finished(ONES + Sum32(d, offset), offset) == CodeSum(d)
  {
    var k := Sum32IsSum16(d, offset);
    RepUnique(ONES + Sum32(d, offset), ONES + Sum16(d, Odd(offset)), k);
    if Odd(offset) {
      OddAlignment(d, Rep(ONES + Sum32(d, offset)));
    }
  }

  lemma RepFits(x: nat)
    ensures Rep(x) <= ONES
  {
  }

  lemma SwappedTwice(x: nat)
    requires x <= ONES
    ensures Swapped(Swapped(x)) == x
  {
    var hi, lo := x / 256, x % 256;
    assert Swapped(x) == hi + lo * 256;
    assert (hi + lo * 256) / 256 == lo && (hi + lo * 256) % 256 == hi;
  }

  lemma FinishedOnce(x: nat, y: nat, offset: Place)
    ensures Finished(x, offset) == Finished(y, offset) <==> Rep(x) == Rep(y)
  {
    hide Rep, Swapped;
    RepFits(x);
    RepFits(y);
    SwappedTwice(Rep(x));
    SwappedTwice(Rep(y));
  }

  // Wrapping q times takes q off the sum modulo 0xffff.
  lemma WrapExact(x: nat)
    ensures Rep(x % TWO_64) == Rep(x) <==> x < TWO_64 || (x % TWO_64 > 0 && x / TWO_64 % ONES == 0)
  {
    var q, acc := x / TWO_64, x % TWO_64;
    var k := (TWO_64 - 1) / ONES;
    assert TWO_64 == 1 + ONES * k;
    assert x == acc + q + ONES * (k * q);
    if acc > 0 {
      if q % ONES == 0 {
        RepUnique(x, acc, q / ONES + k * q);
      } else if Rep(acc) == Rep(x) {
        var m := RepQuotient(x);
        var n := RepQuotient(acc);
        Multiple(q, (m as int) - n - k * q);
        assert false;
      }
    }
  }

  lemma Multiple(q: nat, k: int)
    requires q == ONES * k
    ensures q % ONES == 0
  {
  }

  // The accumulator wraps without harm in the sum exactly when the number of times
  // is a multiple of 0xffff and something is left; up to 2^32 bytes it never wraps.
  lemma ComputedIsCodeSum(d: seq<byte>, offset: Place)
    ensures var sum := ONES + Sum32(d, offset);
            Computed(d, offset) == CodeSum(d)
            <==> sum < TWO_64 || (sum % TWO_64 > 0 && sum / TWO_64 % ONES == 0)
    ensures |d| <= TWO_32 ==> Computed(d, offset) == CodeSum(d)
  {
    hide Sum32, Sum16, CodeSum, Rep, Finished;
    var sum := ONES + Sum32(d, offset);
    UnwrappedIsCodeSum(d, offset);
    FinishedOnce(sum % TWO_64, sum, offset);
    WrapExact(sum);
    Sum32Bound(d, offset);
  }

  // All bytes 0xff.
  function Ones(n: nat): seq<byte> {
    seq(n, _ => 255)
  }

  lemma {:induction false} OnesSum32(words: nat)
    ensures Sum32(Ones(4 * words), 0) == words * 0xffff_ffff
  {
    if words > 0 {
      var rest, word := Ones(4 * (words - 1)), Ones(4);
      OnesSum32(words - 1);
      assert Ones(4 * words) == word + rest;
      Sum32Append(word, rest, 0);
      AdvanceWord(0);
      OneWord();
    }
  }

  lemma OneWord()
    ensures Sum32(Ones(4), 0) == 0xffff_ffff
  {
    assert Partial(Ones(4), 0) == Ones(4);
    PartialSum(Ones(4), 0);
  }

  // Data of 16 GiB and 8 bytes on which the accumulator wraps once, so that the result
  // is wrong.
  lemma WrapSpoils()
    ensures Computed(Ones(4 * 0x1_0000_0002), 0) != RfcChecksum(Ones(4 * 0x1_0000_0002))
    ensures CodeSum(Ones(4 * 0x1_0000_0002)) == RfcChecksum(Ones(4 * 0x1_0000_0002))
  {
    hide *;
    OnesSum32(0x1_0000_0002);
    WrapsOnce(Ones(4 * 0x1_0000_0002));
    OnesAt(4 * 0x1_0000_0002);
    SomeByte(Ones(4 * 0x1_0000_0002));
    ChecksumIsRfc(Ones(4 * 0x1_0000_0002));
  }

  lemma WrapsOnce(d: seq<byte>)
    requires Sum32(d, 0) == 0x1_0000_0002 * 0xffff_ffff
    ensures Computed(d, 0) != CodeSum(d)
  {
    hide Sum32, Computed, CodeSum;
    var sum := ONES + Sum32(d, 0);
    assert sum == TWO_64 + 0x1_0000_fffd;
    assert sum / TWO_64 == 1;
    ComputedIsCodeSum(d, 0);
  }

  lemma OnesAt(n: nat)
    requires n > 0
    ensures Ones(n) != [] && Ones(n)[0] != 0
  {
  }

  lemma SomeByte(d: seq<byte>)
    ensures d != [] && d[0] != 0 ==> !AllZero(d)
  {
  }

  lemma SubSlice<T>(s: seq<T>, from: nat, len: nat, i: nat, n: nat)
    requires from + len <= |s| && i + n <= len
    ensures s[from..from + len][i..i + n] == s[from + i..from + i + n]
  {
    var a, b := s[from..from + len][i..i + n], s[from + i..from + i + n];
    assert forall j :: 0 <= j < n ==> a[j] == b[j];
  }

  lemma SumWraps(sum: nat, word: nat)
    ensures (sum % TWO_64 + word) % TWO_64 == (sum + word) % TWO_64
  {
  }

  // The accumulator after the first i bytes of the data.
  ghost predicate Summed(acc: nat, d: seq<byte>, i: nat, offset: Place) {
    i <= |d| && acc == (ONES + Sum32(d[..i], offset)) % TWO_64
  }

  lemma SummedAll(acc: nat, d: seq<byte>, offset: Place)
    requires Summed(acc, d, |d|, offset)
    ensures Finished(acc, offset) == Computed(d, offset)
  {
    hide Sum32, Finished;
    assert d[..|d|] == d;
  }

  lemma SummedMore(acc: nat, word: nat, d: seq<byte>, i: nat, n: nat, offset: Place)
    requires Summed(acc, d, i, offset) && i + n <= |d|
    requires word == Sum32(d[i..i + n], Advance(offset, i))
    ensures Summed((acc + word) % TWO_64, d, i + n, offset)
  {
    hide Sum32;
    assert d[..i + n] == d[..i] + d[i..i + n];
    Sum32Append(d[..i], d[i..i + n], offset);
    SumWraps(ONES + Sum32(d[..i], offset), word);
  }

  // Copies n bytes at data into a word at the given place, and adds the word to
  // the 64-bit accumulator, which sums the i bytes of d before data.
  method AddWord(acc: nat, buf: array<byte>, data: nat, n: nat, place: Place,
                 ghost d: seq<byte>, ghost i: nat, ghost offset: Place)
    returns (acc': nat)
    requires i <= data && data - i + |d| <= buf.Length && d == buf[data - i..data - i + |d|]
    requires i + n <= |d| && place + n <= 4
    requires place == Advance(offset, i)
    requires Summed(acc, d, i, offset)
    ensures Summed(acc', d, i + n, offset)
  {
    hide Sum32, Word, Partial, Summed;
    SubSlice(buf[..], data - i, |d|, i, n);
    var word := Word(Partial(buf[data..data + n], place));
    PartialSum(d[i..i + n], place);
    SummedMore(acc, word, d, i, n, offset);
    acc' := (acc + word) % TWO_64;
  }

  // Folds the sum to 16 bits.
  method Fold(acc: nat) returns (c: nat)
    ensures c == Rep(acc)
  {
    Carry(acc, TWO_32, 0x1_0001);
    c := acc % TWO_32 + acc / TWO_32;
    while c / 0x1_0000 != 0
      invariant Rep(c) == Rep(acc)
      decreases c
    {
      Carry(c, 0x1_0000, 1);
      c := c % 0x1_0000 + c / 0x1_0000;
    }
  }

  method Finish(acc: nat, offset: Place) returns (c: int)
    ensures c == Finished(acc, offset)
  {
    c := Fold(acc);
    if Odd(offset) {
      c := c / 256 + c % 256 * 256;
    }
    c := ONES - c;
  }

  // The bytes up to the first whole word, if the data does not begin with one.
  method StartWord(buf: array<byte>, from: nat, len: nat, offset: Place, ghost d: seq<byte>)
    returns (acc: nat, count: nat)
    requires from + len <= buf.Length && d == buf[from..from + len]
    ensures count <= len && Summed(acc, d, count, offset)
    ensures count == len || Advance(offset, count) == 0
  {
    AdvanceWord(offset);
    assert Advance(offset, 0) == offset;
    assert Sum32([], offset) == 0 && d[..0] == [];
    acc, count := ONES, 0;
    if offset != 0 {
      hide Sum32, Advance;
      count := 4 - offset;
      if count > len {
        count := len;
      }
      acc := AddWord(acc, buf, from, count, offset, d, 0, offset);
    }
  }

  // The whole words at data; the last few bytes are left.
  method AddWords(acc: nat, buf: array<byte>, from: nat, data: nat, length: nat, ghost d: seq<byte>,
                  ghost offset: Place)
    returns (acc': nat, data': nat)
    requires from <= data && from + |d| <= buf.Length && d == buf[from..from + |d|]
    requires data + length == from + |d|
    requires length == 0 || Advance(offset, data - from) == 0
    requires Summed(acc, d, data - from, offset)
    ensures data' == data + (length - length % 4)
    ensures length == 0 || Advance(offset, data' - from) == 0
    ensures Summed(acc', d, data' - from, offset)
  {
    hide Sum32, Advance, Summed;
    acc', data' := acc, data;
    ghost var words: nat := length / 4;
    var end := data + (length - length % 4);
    while data' != end
      invariant from <= data' && data' + 4 * words == end
      invariant length == 0 || Advance(offset, data' - from) == 0
      invariant Summed(acc', d, data' - from, offset)
      decreases words
    {
      AdvanceAdd(offset, data' - from, 4);
      AdvanceWord(offset);
      acc' := AddWord(acc', buf, data', 4, 0, d, data' - from, offset);
      data', words := data' + 4, words - 1;
    }
  }

  // The bytes [from, from + len) of a buffer whose address is base.
  method IpChecksumNs(buf: array<byte>, from: nat, len: nat, base: nat) returns (c: int)
    requires from + len <= buf.Length
    ensures c == Computed(buf[from..from + len], (base + from) % 4)
    ensures len <= TWO_32 ==> c == CodeSum(buf[from..from + len])
  {
    ghost var d := buf[from..from + len];
    var offset: Place := (base + from) % 4;
    hide Sum32, CodeSum, Advance, Finished, Computed, Summed;
    var acc, count := StartWord(buf, from, len, offset, d);
    var data, length := from + count, len - count;
    acc, data := AddWords(acc, buf, from, data, length, d, offset);
    length := length % 4;
    if length != 0 {
      acc := AddWord(acc, buf, data, length, 0, d, data - from, offset);
    }
    SummedAll(acc, d, offset);
    ComputedIsCodeSum(d, offset);
    c := Finish(acc, offset);
  }

  // ---- Against the definition ----

  // The computation meets the definition unless every byte is zero: it starts
  // from 0xffff, so it then returns 0 where the definition gives 0xffff.
  lemma ChecksumIsRfc(d: seq<byte>)
    ensures CodeSum(d) == RfcChecksum(d) <==> !AllZero(d)
    ensures AllZero(d) ==> CodeSum(d) == 0 && RfcChecksum(d) == ONES
  {
    OnesSumRep(d);
    Sum16Zero(d, false);
    if !AllZero(d) {
      RepUnique(ONES + Sum16(d, false), Sum16(d, false), 1);
    }
  }

  // ---- Checking a message that carries its checksum ----

  lemma {:induction false} Sum16Append(d: seq<byte>, e: seq<byte>, odd: bool)
    ensures Sum16(d + e, odd) == Sum16(d, odd) + Sum16(e, odd == (|d| % 2 == 0))
  {
    if d == [] {
      assert d + e == e;
    } else {
      Sum16Append(d[1..], e, !odd);
      assert (d + e)[1..] == d[1..] + e;
    }
  }

  // The message with a checksum in its field, two bytes at an even place.
  function WithField(d: seq<byte>, at: nat, c: int): seq<byte>
    requires at + 2 <= |d|
  {
    d[..at] + [(c / 256 % 256) as byte, (c % 256) as byte] + d[at + 2..]
  }

  function Sealed(d: seq<byte>, at: nat): seq<byte>
    requires at + 2 <= |d|
  {
    WithField(d, at, CodeSum(d))
  }

  // Recomputing the checksum over a message whose zero checksum field was filled
  // with it gives zero.
  lemma SealedChecks(d: seq<byte>, at: nat)
    requires at % 2 == 0 && at + 2 <= |d| && d[at] == 0 && d[at + 1] == 0
    ensures CodeSum(Sealed(d, at)) == 0
  {
    SealedSum(d, at);
    hide Sum16, Sealed;
    var s, c := Sum16(d, false), CodeSum(d);
    var m := RepQuotient(ONES + s);
    RepUnique(ONES + s + c, ONES, m);
  }

  lemma CutField(d: seq<byte>, at: nat, field: seq<byte>)
    requires at + 2 <= |d| && |field| == 2
    ensures d[..at] + field + d[at + 2..] == d[..at] + (field + d[at + 2..])
    ensures field == [d[at], d[at + 1]] ==> d == d[..at] + (field + d[at + 2..])
  {
  }

  lemma SealedSum(d: seq<byte>, at: nat)
    requires at % 2 == 0 && at + 2 <= |d| && d[at] == 0 && d[at + 1] == 0
    ensures Sum16(Sealed(d, at), false) == Sum16(d, false) + CodeSum(d)
  {
    hide Sum16, CodeSum;
    var c := CodeSum(d);
    assert c / 256 % 256 * 256 + c % 256 == c;
    var pre, post := d[..at], d[at + 2..];
    var zero, field: seq<byte> := [0, 0], [(c / 256 % 256) as byte, (c % 256) as byte];
    CutField(d, at, field);
    CutField(d, at, zero);
    FieldSum(pre, zero, post);
    FieldSum(pre, field, post);
  }

  lemma FieldSum(pre: seq<byte>, field: seq<byte>, post: seq<byte>)
    requires |pre| % 2 == 0 && |field| == 2
    ensures Sum16(pre + (field + post), false)
         == Sum16(pre, false) + (field[0] as int * 256 + field[1] as int) + Sum16(post, false)
  {
    Sum16Append(pre, field + post, false);
    assert (field + post)[1..][1..] == post;
  }
}

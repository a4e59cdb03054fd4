/**
  The Internet checksum of the ping program (CalcChecksum): the 16-bit
  one's-complement sum of the packet's 16-bit words, complemented, as in
  section 4.1 of RFC 1071.

  The routine reads the packet through a `u_short *`, so a word's value
  depends on the host's byte order; every definition here takes that order
  as a parameter.
*/
module InternetChecksum {

  type Byte = b: int | 0 <= b < 256

  /** The order in which a 16-bit word is laid out in memory. */
  datatype ByteOrder = LittleEndian | BigEndian

  /** The value of the `u_short` whose two memory bytes are `first`, `second`. */
  function Word(first: Byte, second: Byte, order: ByteOrder): nat
  {
    match order
    case LittleEndian => first + 256 * second
    case BigEndian => 256 * first + second
  }

  /** The value of `oddbyte`: a zeroed `u_short` whose first memory byte is set to `b`. */
  function OddTerm(b: Byte, order: ByteOrder): nat
  {
    match order
    case LittleEndian => b
    case BigEndian => 256 * b
  }

  /** The plain (carry-keeping) sum the loop accumulates in the `long sum`. */
  function WordSum(data: seq<Byte>, order: ByteOrder): nat
  {
    if |data| == 0 then 0
    else if |data| == 1 then OddTerm(data[0], order)
    else Word(data[0], data[1], order) + WordSum(data[2..], order)
  }

  /** The two folding steps `sum = (sum >> 16) + (sum & 0xFFFF); sum += (sum >> 16);`. */
  function Fold(sum: nat): nat
  {
    var s := sum / 65536 + sum % 65536;
    s + s / 65536
  }

  /** `answer = ~sum`, truncated to the 16 bits of a `u_short`. */
  function Complement16(sum: nat): nat
  {
    65535 - sum % 65536
  }

  /** What CalcChecksum returns for the bytes `data`. */
  function Checksum(data: seq<Byte>, order: ByteOrder): nat
  {
    Complement16(Fold(WordSum(data, order)))
  }

  /** CalcChecksum(ptr, nbytes): sums the words of the first `nbytes` bytes of `ptr`. */
  method CalcChecksum(ptr: array<Byte>, nbytes: int, order: ByteOrder) returns (answer: int)
    requires nbytes <= ptr.Length
    ensures 0 <= answer < 65536
    ensures answer == Checksum(ptr[..if nbytes < 0 then 0 else nbytes], order)
  {
    ghost var total := if nbytes < 0 then 0 else nbytes;
    var sum := 0;
    var n := nbytes;
    var p := 0;
    while n > 1
      invariant 0 <= p && p + n == nbytes && (0 <= n || p == 0)
      invariant sum + WordSum(ptr[p..total], order) == WordSum(ptr[..total], order)
    {
      assert ptr[p..total][2..] == ptr[p + 2..total];
      sum := sum + Word(ptr[p], ptr[p + 1], order);
      n := n - 2;
      p := p + 2;
    }
    if n == 1 {
      assert ptr[p..total] == [ptr[p]];
      sum := sum + OddTerm(ptr[p], order);
    } else {
      assert ptr[p..total] == [];
    }
    assert sum == WordSum(ptr[..total], order);
    sum := sum / 65536 + sum % 65536;
    sum := sum + sum / 65536;
    answer := 65535 - sum % 65536;
  }

  // ---------------------------------------------------------------------
  // A reference definition: one's-complement addition with end-around
  // carry, applied word by word (section 2 of RFC 1071).
  // ---------------------------------------------------------------------

  /** One's-complement addition of two 16-bit values: a carry out of bit 15 is added back in. */
  function OnesAdd(a: nat, b: nat): nat
  {
    if a + b > 65535 then a + b - 65535 else a + b
  }

  /** The one's-complement sum of the words of `data`, the odd byte padded with zero. */
  function OnesSum(data: seq<Byte>, order: ByteOrder): nat
  {
    if |data| == 0 then 0
    else if |data| == 1 then OddTerm(data[0], order)
    else OnesAdd(Word(data[0], data[1], order), OnesSum(data[2..], order))
  }

  /** The representative in 0..65535 of `s` modulo 65535 that is 0 only for `s == 0`. */
  function EndAround(s: nat): nat
  {
    if s == 0 then 0 else (s - 1) % 65535 + 1
  }

  /** The largest packet for which two folding steps are enough. */
  const MaxChecksumBytes: nat := 131072

  lemma EndAroundOfSmall(s: nat)
    requires s <= 65535
    ensures EndAround(s) == s
  {
  }

  /** Two values that agree modulo 65535 and are 0 together have the same representative. */
  lemma EndAroundCongruent(s: nat, t: nat, q: int)
    requires s == t + 65535 * q
    requires s == 0 <==> t == 0
    ensures EndAround(s) == EndAround(t)
  {
    if s != 0 {
      var r := (t - 1) % 65535;
      var k := (t - 1) / 65535;
      assert t - 1 == 65535 * k + r;
      assert s - 1 == 65535 * (k + q) + r;
    }
  }

  lemma OnesAddEndAround(w: nat, s: nat)
    requires w <= 65535
    ensures OnesAdd(w, EndAround(s)) == EndAround(w + s)
  {
    if s == 0 {
      EndAroundOfSmall(w);
    } else {
      var e := EndAround(s);
      var k := (s - 1) / 65535;
      assert s - 1 == 65535 * k + (e - 1);
      assert 1 <= e <= 65535;
      if w + e > 65535 {
        EndAroundOfSmall(w + e - 65535);
        EndAroundCongruent(w + s, w + e - 65535, k + 1);
      } else {
        EndAroundOfSmall(w + e);
        EndAroundCongruent(w + s, w + e, k);
      }
    }
  }

  lemma {:induction false} OnesSumIsEndAround(data: seq<Byte>, order: ByteOrder)
    ensures OnesSum(data, order) == EndAround(WordSum(data, order))
  {
    if |data| == 0 {
    } else if |data| == 1 {
      EndAroundOfSmall(OddTerm(data[0], order));
    } else {
      OnesSumIsEndAround(data[2..], order);
      OnesAddEndAround(Word(data[0], data[1], order), WordSum(data[2..], order));
    }
  }

  /** The two folding steps give the end-around representative for any sum below 2^32. */
  lemma FoldIsEndAround(s: nat)
    requires s < 4294967296
    ensures Fold(s) % 65536 == EndAround(s)
  {
    var hi, lo := s / 65536, s % 65536;
    var s1 := hi + lo;
    assert s == s1 + 65535 * hi;
    assert s1 <= 131070;
    if s1 < 65536 {
      assert Fold(s) == s1;
      EndAroundOfSmall(s1);
      EndAroundCongruent(s, s1, hi);
    } else {
      assert Fold(s) == s1 + 1;
      assert Fold(s) % 65536 == s1 - 65535;
      EndAroundOfSmall(s1 - 65535);
      EndAroundCongruent(s, s1 - 65535, hi + 1);
    }
  }

  lemma {:induction false} WordSumBound(data: seq<Byte>, order: ByteOrder)
    ensures WordSum(data, order) <= 65535 * ((|data| + 1) / 2)
  {
    if |data| >= 2 {
      WordSumBound(data[2..], order);
      assert (|data| + 1) / 2 == (|data[2..]| + 1) / 2 + 1;
    }
  }

  /**
    CalcChecksum computes the complement of the one's-complement sum of
    the packet's words, odd byte zero-padded, and the result fits in 16 bits.
  */
  lemma ChecksumIsComplementedOnesSum(data: seq<Byte>, order: ByteOrder)
    requires |data| <= MaxChecksumBytes
    ensures Checksum(data, order) < 65536
    ensures Checksum(data, order) == 65535 - OnesSum(data, order)
  {
    WordSumBound(data, order);
    FoldIsEndAround(WordSum(data, order));
    OnesSumIsEndAround(data, order);
  }

  /** Summing a concatenation whose first part has even length sums the parts. */
  lemma {:induction false} WordSumAppend(a: seq<Byte>, b: seq<Byte>, order: ByteOrder)
    requires |a| % 2 == 0
    ensures WordSum(a + b, order) == WordSum(a, order) + WordSum(b, order)
  {
    if |a| > 0 {
      assert (a + b)[2..] == a[2..] + b;
      WordSumAppend(a[2..], b, order);
    } else {
      assert a + b == b;
    }
  }

  /** An odd trailing byte adds one term: the byte, zero-extended to 16 bits in memory. */
  lemma OddTrailingByte(data: seq<Byte>, b: Byte, order: ByteOrder)
    requires |data| % 2 == 0
    ensures WordSum(data + [b], order) == WordSum(data, order) + OddTerm(b, order)
    ensures order == LittleEndian ==> WordSum(data + [b], order) == WordSum(data, order) + b
  {
    WordSumAppend(data, [b], order);
  }

  /** An even length adds no extra term: a trailing pair adds exactly its word. */
  lemma EvenTrailingPair(data: seq<Byte>, b0: Byte, b1: Byte, order: ByteOrder)
    requires |data| % 2 == 0
    ensures WordSum(data + [b0, b1], order) == WordSum(data, order) + Word(b0, b1, order)
  {
    WordSumAppend(data, [b0, b1], order);
    assert [b0, b1][2..] == [];
  }

  /** The two bytes a `u_short` store of `c` writes, in memory order. */
  function Store16(c: nat, order: ByteOrder): (bytes: (Byte, Byte))
    requires c < 65536
    ensures Word(bytes.0, bytes.1, order) == c
  {
    match order
    case LittleEndian => (c % 256, c / 256)
    case BigEndian => (c / 256, c % 256)
  }

  /** The packet with the 16-bit value `c` stored in its checksum field (bytes 2 and 3). */
  function WithChecksum(p: seq<Byte>, c: nat, order: ByteOrder): (q: seq<Byte>)
    requires 4 <= |p| && c < 65536
    ensures |q| == |p| && q[..2] == p[..2] && q[4..] == p[4..]
    ensures Word(q[2], q[3], order) == c
  {
    var bytes := Store16(c, order);
    p[2 := bytes.0][3 := bytes.1]
  }

  lemma SplitAtChecksumField(p: seq<Byte>, order: ByteOrder)
    requires 4 <= |p|
    ensures WordSum(p, order) == Word(p[0], p[1], order) + Word(p[2], p[3], order) + WordSum(p[4..], order)
  {
    assert p == [p[0], p[1]] + ([p[2], p[3]] + p[4..]);
    WordSumAppend([p[0], p[1]], [p[2], p[3]] + p[4..], order);
    WordSumAppend([p[2], p[3]], p[4..], order);
    assert [p[0], p[1]][2..] == [];
    assert [p[2], p[3]][2..] == [];
  }

  /** Adding the complement of a sum's representative gives one's-complement "minus zero". */
  lemma ComplementCancels(s: nat)
    ensures EndAround(s + (65535 - EndAround(s))) == 65535
  {
    var c := 65535 - EndAround(s);
    EndAroundOfSmall(65535);
    if s != 0 {
      var k := (s - 1) / 65535;
      assert s - 1 == 65535 * k + (EndAround(s) - 1);
      assert s + c == 65535 + 65535 * k;
      EndAroundCongruent(s + c, 65535, k);
    }
  }

  /** Storing `c` into a zeroed checksum field adds exactly `c` to the word sum. */
  lemma StoreAddsToSum(p: seq<Byte>, c: nat, order: ByteOrder)
    requires 4 <= |p| && c < 65536
    requires p[2] == 0 && p[3] == 0
    ensures WordSum(WithChecksum(p, c, order), order) == WordSum(p, order) + c
  {
    var q := WithChecksum(p, c, order);
    SplitAtChecksumField(p, order);
    SplitAtChecksumField(q, order);
    assert q[0] == p[0] && q[1] == p[1];
  }

  /**
    Storing the checksum of a packet whose checksum field is zero into that
    field (even offset 2), and recomputing over the same bytes, gives 0:
    the receiver's verification rule, in either byte order.
  */
  lemma ChecksumRoundTrip(p: seq<Byte>, order: ByteOrder)
    requires 4 <= |p| <= MaxChecksumBytes
    requires p[2] == 0 && p[3] == 0
    ensures Checksum(WithChecksum(p, Checksum(p, order), order), order) == 0
  {
    var s := WordSum(p, order);
    var c := Checksum(p, order);
    WordSumBound(p, order);
    FoldIsEndAround(s);
    assert c == 65535 - EndAround(s);
    StoreAddsToSum(p, c, order);
    ComplementCancels(s);
    FoldIsEndAround(s + c);
  }
}

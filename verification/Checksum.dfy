/**
 The internet checksum (RFC 1071) as the program computes it: a loop of big-endian words into a
 32-bit accumulator, then a fold loop. `WordSum` and `Fold` are its unbounded meaning.
 */
module Checksum {
  import opened Bytes

  /** The exact sum of the big-endian 16-bit words of `data`; an odd last octet is a high octet. */
  function WordSum(data: seq<byte>): nat {
    if |data| == 0 then 0
    else if |data| == 1 then (data[0] as int) * 0x100
    else U16At(data, 0) + WordSum(data[2..])
  }

  /**
   The one's-complement value of a sum: its residue modulo 65535 in 1..65535, and 0 only for 0.
   `FoldLoop` shows that the end-around carry loop computes it.
   */
  function Fold(sum: nat): u16 {
    if sum == 0 then 0 else 1 + (sum - 1) % 0xffff
  }

  function Complement(x: u16): u16 {
    0xffff - x
  }

  /** A region "verifies" when its one's-complement sum is all ones (RFC 1071, section 1). */
  predicate Verifies(sum: nat) {
    Fold(sum) == 0xffff
  }

  /** The pseudo header sum of section 3.1 of RFC 9293 and section 8.1 of RFC 8200. */
  function PseudoSum(protocol: byte, src: seq<byte>, dst: seq<byte>, length: nat): nat {
    WordSum(src) + WordSum(dst) + protocol + length
  }

  // ---- One's-complement arithmetic ----

  /** The fold keeps the value modulo 65535. */
  lemma FoldCarries(sum: nat) returns (carries: nat)
    ensures sum == Fold(sum) + 0xffff * carries
  {
    carries := if sum == 0 then 0 else (sum - 1) / 0xffff;
  }

  /** A value of 1..65535 that is congruent to a non-zero sum is its fold. */
  lemma FoldIsUnique(sum: nat, value: u16, carries: int)
    requires sum == value + 0xffff * carries
    requires sum == 0 <==> value == 0
    ensures Fold(sum) == value
  {
    var own := FoldCarries(sum);
    assert 0xffff * (own - carries) == value - Fold(sum);
  }

  /** Folding a part first does not change the folded total. */
  lemma FoldAbsorbs(a: nat, b: nat)
    ensures Fold(a + Fold(b)) == Fold(a + b)
  {
    var part := FoldCarries(b);
    var whole := FoldCarries(a + b);
    FoldIsUnique(a + Fold(b), Fold(a + b), whole - part);
  }

  /** Storing the complement of a sum makes the whole verify. */
  lemma ComplementVerifies(sum: nat)
    ensures Verifies(sum + Complement(Fold(sum)))
  {
    var carries := FoldCarries(sum);
    FoldIsUnique(sum + Complement(Fold(sum)), 0xffff, carries);
  }

  /** A sum verifies exactly when it is a non-zero multiple of 65535. */
  lemma VerifiesIff(sum: nat)
    ensures Verifies(sum) <==> sum > 0 && sum % 0xffff == 0
  {
    var carries := FoldCarries(sum);
  }

  lemma {:induction false} WordSumConcat(a: seq<byte>, b: seq<byte>)
    requires |a| % 2 == 0
    ensures WordSum(a + b) == WordSum(a) + WordSum(b)
    decreases |a|
  {
    if |a| == 0 {
      assert a + b == b;
    } else {
      assert (a + b)[2..] == a[2..] + b;
      WordSumConcat(a[2..], b);
    }
  }

  /**
   With `WordSumConcat` this is all of RFC 1071, section 1: two octets are a word, high octet first, and
   an odd number of octets counts as if a zero octet followed.
   */
  lemma WordSumPads(data: seq<byte>, high: byte, low: byte)
    ensures WordSum([high, low]) == (high as int) * 256 + low && WordSum([]) == 0
    ensures |data| % 2 == 1 ==> WordSum(data + [0]) == WordSum(data)
  {
    assert [high, low][2..] == [];
    if |data| % 2 == 1 {
      var last := |data| - 1;
      assert data == data[..last] + [data[last]] && data + [0] == data[..last] + [data[last], 0];
      WordSumConcat(data[..last], [data[last]]);
      WordSumConcat(data[..last], [data[last], 0]);
      assert [data[last], 0][2..] == [];
    }
  }

  lemma {:induction false} WordSumBound(data: seq<byte>)
    ensures WordSum(data) <= 0xffff * ((|data| + 1) / 2)
    decreases |data|
  {
    if |data| >= 2 {
      WordSumBound(data[2..]);
    }
  }

  /** Writing a word at an even offset changes the sum by exactly the difference of the words. */
  lemma {:induction false} WordSumPut(b: seq<byte>, at: nat, v: u16)
    requires at + 2 <= |b| && at % 2 == 0
    ensures WordSum(PutU16(b, at, v)) == WordSum(b) - U16At(b, at) + v
    decreases at
  {
    var r := PutU16(b, at, v);
    if at == 0 {
      assert r[2..] == b[2..];
    } else {
      assert r[2..] == PutU16(b[2..], at - 2, v);
      WordSumPut(b[2..], at - 2, v);
    }
  }

  /** Zero the field, sum, store the complement: the region then verifies, whatever `initial` is. */
  lemma StoredChecksumVerifies(b: seq<byte>, at: nat, initial: nat)
    requires at + 2 <= |b| && at % 2 == 0
    ensures var zeroed := PutU16(b, at, 0);
            var stored := PutU16(zeroed, at, Complement(Fold(initial + WordSum(zeroed))));
            Verifies(initial + WordSum(stored))
  {
    var zeroed := PutU16(b, at, 0);
    WordSumPut(zeroed, at, Complement(Fold(initial + WordSum(zeroed))));
    ComplementVerifies(initial + WordSum(zeroed));
  }

  /**
   Within 131072 octets and a 16-bit start value the 32-bit accumulator never wraps. The bound is
   the largest even one: `AccumulatorBoundIsTight`.
   */
  lemma AccumulatorFits(data: seq<byte>, initial: u16)
    requires |data| <= 131072
    ensures initial + WordSum(data) < 0x1_0000_0000
    ensures ToU32(initial + WordSum(data)) == initial + WordSum(data)
  {
    WordSumBound(data);
  }

  function AllOnes(words: nat): seq<byte> {
    seq(2 * words, i => 0xff)
  }

  lemma {:induction false} WordSumOfOnes(words: nat)
    ensures WordSum(AllOnes(words)) == 0xffff * words
  {
    if words > 0 {
      assert AllOnes(words)[2..] == AllOnes(words - 1);
      WordSumOfOnes(words - 1);
    }
  }

  lemma AccumulatorBoundIsTight(words: nat)
    requires words > 65536
    ensures |AllOnes(words)| > 131072 && 0xffff + WordSum(AllOnes(words)) >= 0x1_0000_0000
  {
    WordSumOfOnes(words);
  }

  // ---- The loops ----

  /** One round of the carry loop keeps the one's-complement value. */
  lemma CarryRound(sum: nat)
    ensures Fold(sum % 0x1_0000 + sum / 0x1_0000) == Fold(sum)
  {
    var carries := FoldCarries(sum);
    FoldIsUnique(sum % 0x1_0000 + sum / 0x1_0000, Fold(sum), carries - sum / 0x1_0000);
  }

  method FoldLoop(start: u32) returns (sum: u16)
    ensures sum == Fold(start)
  {
    var acc: u32 := start;
    while acc / 0x1_0000 != 0
      invariant Fold(acc) == Fold(start)
      decreases acc
    {
      CarryRound(acc);
      acc := acc % 0x1_0000 + acc / 0x1_0000;
    }
    FoldIsUnique(acc, acc, 0);
    sum := acc;
  }

  lemma WrapsOnce(total: nat, word: u16)
    ensures ToU32(ToU32(total) + word) == ToU32(total + word)
  {
    assert total == ToU32(total) + 0x1_0000_0000 * (total / 0x1_0000_0000);
  }

  lemma WordSumStart(data: seq<byte>, initial: u16)
    ensures WordSum(data[0..]) == WordSum(data) && ToU32(initial) == initial
  {
    assert data[0..] == data;
  }

  lemma WordSumStep(data: seq<byte>, at: nat)
    requires at + 2 <= |data|
    ensures WordSum(data[at..]) == U16At(data, at) + WordSum(data[at + 2..])
  {
    assert data[at..][2..] == data[at + 2..];
  }

  lemma WordSumEnd(data: seq<byte>, at: nat)
    requires at <= |data| <= at + 1
    ensures WordSum(data[at..]) == if at < |data| then (data[at] as int) * 0x100 else 0
  {}

  lemma FiveWords(x: seq<byte>, at: nat)
    requires at + 10 <= |x|
    ensures WordSum(x[at..])
         == U16At(x, at) + U16At(x, at + 2) + U16At(x, at + 4) + U16At(x, at + 6) + U16At(x, at + 8)
            + WordSum(x[at + 10..])
  {
    hide U16At, WordSum;
    WordSumStep(x, at);
    WordSumStep(x, at + 2);
    WordSumStep(x, at + 4);
    WordSumStep(x, at + 6);
    WordSumStep(x, at + 8);
  }

  /** `checksum`: not complemented. The accumulator wraps at 32 bits, as u32 addition does. */
  method Sum(data: seq<byte>, initial: u16) returns (r: u16)
    ensures r == Fold(ToU32(initial + WordSum(data)))
    ensures |data| <= 131072 ==> r == Fold(initial + WordSum(data))
  {
    hide *;
    var sum: u32 := initial;
    var i := 0;
    ghost var total: nat := initial;
    WordSumStart(data, initial);
    while i + 1 < |data|
      invariant 0 <= i <= |data|
      invariant total + WordSum(data[i..]) == initial + WordSum(data)
      invariant sum == ToU32(total)
    {
      WordSumStep(data, i);
      WrapsOnce(total, U16At(data, i));
      total := total + U16At(data, i);
      sum := ToU32(sum + U16At(data, i));
      i := i + 2;
    }
    WordSumEnd(data, i);
    if i < |data| {
      WrapsOnce(total, (data[i] as int) * 0x100);
      total := total + (data[i] as int) * 0x100;
      sum := ToU32(sum + (data[i] as int) * 0x100);
    }
    if |data| <= 131072 {
      AccumulatorFits(data, initial);
    }
    r := FoldLoop(sum);
  }

  /** `checksum_combine` */
  method Combine(a: u16, b: u16) returns (r: u16)
    ensures r == Fold(a + b)
  {
    r := FoldLoop(a + b);
  }

  /** `pseudo_header_checksum`, for the even-length addresses of both IP versions. */
  method PseudoHeader(protocol: byte, src: seq<byte>, dst: seq<byte>, length: u16) returns (r: u16)
    requires |src| == |dst| && (|src| == 4 || |src| == 16)
    ensures r == Fold(PseudoSum(protocol, src, dst, length))
  {
    var s := AddWords(src);
    var d := AddWords(dst);
    r := FoldLoop(s + d + protocol + length);
  }

  /** One of the two word loops of `pseudo_header_checksum`. */
  method AddWords(data: seq<byte>) returns (sum: u32)
    requires |data| == 4 || |data| == 16
    ensures sum == WordSum(data) <= 0xffff * 8
  {
    sum := 0;
    var i := 0;
    WordSumBound(data);
    while i + 1 < |data|
      invariant 0 <= i <= |data| && i % 2 == 0
      invariant sum + WordSum(data[i..]) == WordSum(data)
    {
      assert data[i..][2..] == data[i + 2..];
      sum := sum + U16At(data, i);
      i := i + 2;
    }
  }

  /** `internet_checksum`: the complemented form used by the NAT and fragmentation code. */
  method InternetChecksum(data: seq<byte>) returns (r: u16)
    ensures |data| <= 131072 ==> r == Complement(Fold(WordSum(data)))
  {
    var s := Sum(data, 0);
    r := Complement(s);
  }

  // ---- Piecewise sums ----

  /**
   Summing an even-length piece and passing the result on as `initial` gives the sum of the whole;
   so does combining two sums. This is what lets a pseudo header sum be computed once.
   */
  lemma PiecewiseSum(a: seq<byte>, b: seq<byte>, initial: nat)
    requires |a| % 2 == 0
    ensures Fold(Fold(initial + WordSum(a)) + WordSum(b)) == Fold(initial + WordSum(a + b))
    ensures Fold(Fold(initial + WordSum(a)) + Fold(WordSum(b))) == Fold(initial + WordSum(a + b))
  {
    hide *;
    WordSumConcat(a, b);
    FoldAbsorbs(WordSum(b), initial + WordSum(a));
    FoldAbsorbs(Fold(WordSum(b)), initial + WordSum(a));
    FoldAbsorbs(initial + WordSum(a), WordSum(b));
  }
}

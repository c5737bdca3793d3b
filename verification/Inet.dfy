/** The Internet checksum: a 32-bit accumulator of big-endian words, folded at the end. */
module Inet {

  type Byte = b: int | 0 <= b < 256

  const UINT32: nat := 0x1_0000_0000
  /** The largest size for which the accumulator cannot wrap. */
  const MAX_SIZE: nat := 131074

  /** The big-endian 16-bit word at `i`; a last odd byte is the high half of a word. */
  function Word(buf: seq<Byte>, i: nat): nat
    requires i < |buf|
  {
    256 * buf[i] as int + if i + 1 < |buf| then buf[i + 1] else 0
  }

  /** The exact sum of the words of a buffer. */
  function WordSum(buf: seq<Byte>): nat {
    if buf == [] then 0
    else if |buf| == 1 then Word(buf, 0)
    else Word(buf, 0) + WordSum(buf[2..])
  }

  lemma ModAdd(x: nat, y: nat)
    ensures (x % UINT32 + y) % UINT32 == (x + y) % UINT32
  {
  }

  /** Accumulates a buffer in 32-bit arithmetic, two bytes at a time. */
  method ChecksumAcc(acc0: nat, buf: seq<Byte>) returns (acc: nat)
    requires acc0 < UINT32
    ensures acc == (acc0 + WordSum(buf)) % UINT32
  {
    acc := acc0;
    var pos, size := 0, |buf|;
    ghost var sum := 0;
    while size > 1
      invariant pos + size == |buf| && 0 <= pos && 0 <= size
      invariant 0 <= sum && sum + WordSum(buf[pos..]) == WordSum(buf)
      invariant acc == (acc0 + sum) % UINT32
      decreases size
    {
      assert buf[pos..][2..] == buf[pos + 2..];
      ModAdd(acc0 + sum, Word(buf, pos));
      acc := (acc + Word(buf, pos)) % UINT32;
      sum := sum + Word(buf, pos);
      pos := pos + 2;
      size := size - 2;
    }
    if size > 0 {
      ModAdd(acc0 + sum, Word(buf, pos));
      acc := (acc + Word(buf, pos)) % UINT32;
    }
  }

  /** Folds the carries back in, at most twice, and complements. */
  function ChecksumEnd(acc: nat): (sum: nat)
    requires acc < UINT32
    ensures sum <= 0xffff
  {
    var once := acc / 0x1_0000 + acc % 0x1_0000;
    var twice := if once > 0xffff then once / 0x1_0000 + once % 0x1_0000 else once;
    0xffff - twice
  }

  function Checksum(buf: seq<Byte>): nat {
    ChecksumEnd(WordSum(buf) % UINT32)
  }

  // ---------------------------------------------------------------- RFC 1071

  /** One's complement addition of 16-bit words: the carry comes back in at the end. */
  function OnesAdd(a: nat, b: nat): (r: nat)
    requires a <= 0xffff && b <= 0xffff
    ensures r <= 0xffff
  {
    if a + b > 0xffff then a + b - 0xffff else a + b
  }

  function OnesSum(buf: seq<Byte>): (r: nat)
    ensures r <= 0xffff
  {
    if buf == [] then 0
    else if |buf| == 1 then Word(buf, 0)
    else OnesAdd(Word(buf, 0), OnesSum(buf[2..]))
  }

  /** The checksum as RFC 1071 defines it. */
  function Reference(buf: seq<Byte>): nat {
    0xffff - OnesSum(buf)
  }

  /** Two 16-bit values stand for the same sum: equal modulo 0xffff, and zero only for zero. */
  predicate Stands(r: nat, sum: nat) {
    r <= 0xffff && r % 0xffff == sum % 0xffff && (r == 0 <==> sum == 0)
  }

  lemma StandsUnique(a: nat, b: nat, sum: nat)
    requires Stands(a, sum) && Stands(b, sum)
    ensures a == b
  {
  }

  lemma {:induction false} OnesSumStands(buf: seq<Byte>)
    ensures Stands(OnesSum(buf), WordSum(buf))
  {
    if |buf| > 1 {
      OnesSumStands(buf[2..]);
      OneMoreStands(Word(buf, 0), OnesSum(buf[2..]), WordSum(buf[2..]));
    } else if |buf| == 1 {
      assert WordSum(buf) == Word(buf, 0);
    }
  }

  lemma OneMoreStands(w: nat, r: nat, sum: nat)
    requires w <= 0xffff && Stands(r, sum)
    ensures Stands(OnesAdd(w, r), w + sum)
  {
    assert (w + r) % 0xffff == (w + sum) % 0xffff;
  }

  lemma EndStands(acc: nat)
    requires acc < UINT32
    ensures Stands(0xffff - ChecksumEnd(acc), acc)
  {
  }

  lemma {:induction false} SumBound(buf: seq<Byte>)
    ensures WordSum(buf) <= (|buf| + 1) / 2 * 0xffff
  {
    if |buf| > 1 {
      SumBound(buf[2..]);
    }
  }

  lemma ChecksumStands(buf: seq<Byte>)
    ensures Stands(0xffff - Checksum(buf), WordSum(buf) % UINT32)
  {
    EndStands(WordSum(buf) % UINT32);
  }

  lemma NoWrap(buf: seq<Byte>)
    requires |buf| <= MAX_SIZE
    ensures WordSum(buf) < UINT32 && WordSum(buf) % UINT32 == WordSum(buf)
  {
    SumBound(buf);
  }

  lemma ChecksumIsReference(buf: seq<Byte>)
    requires |buf| <= MAX_SIZE
    ensures Checksum(buf) == Reference(buf)
  {
    NoWrap(buf);
    OnesSumStands(buf);
    ChecksumStands(buf);
    StandsUnique(0xffff - Checksum(buf), OnesSum(buf), WordSum(buf));
  }

  // ---------------------------------------------------------------- the exact size bound

  function Fill(n: nat, b: Byte): seq<Byte> {
    seq(n, _ => b)
  }

  lemma {:induction false} FillSum(k: nat, b: Byte)
    ensures WordSum(Fill(2 * k, b)) == k * (257 * b as int)
  {
    if k > 0 {
      FillSum(k - 1, b);
      assert Fill(2 * k, b)[2..] == Fill(2 * (k - 1), b);
    }
  }

  lemma {:induction false} ZeroSum(n: nat)
    ensures WordSum(Fill(n, 0)) == 0
  {
    if n > 1 {
      ZeroSum(n - 2);
      assert Fill(n, 0)[2..] == Fill(n - 2, 0);
    }
  }

  /** A buffer of `n` bytes whose words sum to 2^32 + 255. */
  function Overflowing(n: nat): (buf: seq<Byte>)
    requires MAX_SIZE < n
    ensures |buf| == n
  {
    Fill(MAX_SIZE, 255) + ([1] + Fill(n - MAX_SIZE - 1, 0))
  }

  lemma OverflowingSum(n: nat)
    requires MAX_SIZE < n
    ensures WordSum(Overflowing(n)) == UINT32 + 255
  {
    var tail: seq<Byte> := [1] + Fill(n - MAX_SIZE - 1, 0);
    SplitSum(Fill(MAX_SIZE, 255), tail);
    FillSum(65537, 255);
    if |tail| > 1 {
      assert tail[2..] == Fill(|tail| - 2, 0);
      ZeroSum(|tail| - 2);
    }
  }

  /** Words sums add up when a buffer is split at an even offset. */
  lemma {:induction false} SplitSum(a: seq<Byte>, b: seq<Byte>)
    requires |a| % 2 == 0
    ensures WordSum(a + b) == WordSum(a) + WordSum(b)
  {
    if a == [] {
      assert a + b == b;
    } else {
      SplitSum(a[2..], b);
      assert (a + b)[2..] == a[2..] + b;
    }
  }

  /** The code computes the RFC 1071 checksum of every buffer of a size up to 131074, and no more. */
  lemma ReferenceExactly(n: nat)
    ensures (forall buf: seq<Byte> | |buf| == n :: Checksum(buf) == Reference(buf)) <==> n <= 131074
  {
    if n <= MAX_SIZE {
      forall buf: seq<Byte> | |buf| == n
        ensures Checksum(buf) == Reference(buf)
      {
        ChecksumIsReference(buf);
      }
    } else {
      OverflowingFails(n);
    }
  }

  lemma OverflowingFails(n: nat)
    requires MAX_SIZE < n
    ensures Checksum(Overflowing(n)) != Reference(Overflowing(n))
  {
    OverflowingSum(n);
    WrappedFails(Overflowing(n));
  }

  lemma WrappedFails(buf: seq<Byte>)
    requires WordSum(buf) == UINT32 + 255
    ensures Checksum(buf) != Reference(buf)
  {
    OnesSumStands(buf);
    ChecksumStands(buf);
    assert (UINT32 + 255) % UINT32 == 255;
    WrapIsSeen(0xffff - Checksum(buf), OnesSum(buf));
  }

  lemma WrapIsSeen(wrapped: nat, exact: nat)
    requires Stands(wrapped, 255) && Stands(exact, UINT32 + 255)
    ensures wrapped != exact
  {
    assert (UINT32 + 255) % 0xffff == 256;
  }

  /** Accumulating in pieces, split at any even offset, changes nothing, wrapped or not. */
  lemma SplitAnywhereEven(acc: nat, a: seq<Byte>, b: seq<Byte>)
    requires |a| % 2 == 0
    ensures ((acc + WordSum(a)) % UINT32 + WordSum(b)) % UINT32 == (acc + WordSum(a + b)) % UINT32
  {
    SplitSum(a, b);
    ModAdd(acc + WordSum(a), WordSum(b));
  }

  // ---------------------------------------------------------------- a stored checksum verifies

  /** The buffer with a 16-bit value stored big-endian at `at`. */
  function Store16(buf: seq<Byte>, at: nat, v: nat): (r: seq<Byte>)
    requires at + 1 < |buf| && v <= 0xffff
    ensures |r| == |buf|
  {
    buf[at := v / 256][at + 1 := v % 256]
  }

  lemma {:induction false} StoreSum(buf: seq<Byte>, at: nat, v: nat)
    requires at + 1 < |buf| && at % 2 == 0 && v <= 0xffff
    requires buf[at] == 0 && buf[at + 1] == 0
    ensures WordSum(Store16(buf, at, v)) == WordSum(buf) + v
  {
    var r := Store16(buf, at, v);
    if at == 0 {
      assert r[2..] == buf[2..];
    } else {
      StoreSum(buf[2..], at - 2, v);
      assert r[2..] == Store16(buf[2..], at - 2, v);
    }
  }

  lemma ComplementCancels(sum: nat, r: nat)
    requires Stands(r, sum)
    ensures Stands(0xffff, sum + (0xffff - r))
  {
  }

  /**
   Storing the checksum in a zeroed 16-bit field at an even offset makes the checksum of the
   whole buffer zero.
   */
  lemma StoredChecksumVerifies(buf: seq<Byte>, at: nat)
    requires |buf| <= MAX_SIZE && at + 1 < |buf| && at % 2 == 0
    requires buf[at] == 0 && buf[at + 1] == 0
    ensures Checksum(Store16(buf, at, Checksum(buf))) == 0
  {
    var r := Store16(buf, at, Checksum(buf));
    NoWrap(buf);
    NoWrap(r);
    ChecksumStands(buf);
    ChecksumStands(r);
    StoreSum(buf, at, Checksum(buf));
    ComplementCancels(WordSum(buf), 0xffff - Checksum(buf));
    StandsUnique(0xffff - Checksum(r), 0xffff, WordSum(r));
  }

  // ---------------------------------------------------------------- the words

  /** A last odd byte counts as the high half of a word, as if a zero byte followed. */
  lemma {:induction false} OddIsPadded(buf: seq<Byte>)
    requires |buf| % 2 == 1
    ensures WordSum(buf + [0]) == WordSum(buf)
  {
    if |buf| > 1 {
      OddIsPadded(buf[2..]);
      assert (buf + [0])[2..] == buf[2..] + [0];
    } else {
      assert (buf + [0])[2..] == [];
    }
  }

  /** The example of section 3 of RFC 1071. */
  lemma KnownSum()
    ensures OnesSum([0x00, 0x01, 0xf2, 0x03, 0xf4, 0xf5, 0xf6, 0xf7]) == 0xddf2
  {
    var b: seq<Byte> := [0x00, 0x01, 0xf2, 0x03, 0xf4, 0xf5, 0xf6, 0xf7];
    assert b[2..][2..] == b[4..] && b[4..][2..] == b[6..] && b[6..][2..] == [];
    assert OnesSum(b[6..]) == 0xf6f7;
    assert OnesSum(b[4..]) == 0xebed;
    assert OnesSum(b[2..]) == 0xddf1;
  }
}

/** ng_checksum of ustack/tcp.c, the one's complement sum of section 1 of RFC 1071, on a little-endian host. */
module Checksum {

  type Byte = x: int | 0 <= x < 256
  type Word16 = x: int | 0 <= x < 0x1_0000

  /** The sum of the 16-bit words of a buffer; a last odd byte counts as a word of its own. */
  function WordSum(b: seq<Byte>): nat {
    if b == [] then 0
    else if |b| == 1 then b[0]
    else b[0] + 256 * b[1] + WordSum(b[2..])
  }

  /** The laws of the sum: nothing for nothing, a byte and a word by their value, and two parts add up. */
  lemma WordSumOf(x: Byte, y: Byte)
    ensures WordSum([]) == 0 && WordSum([x]) == x && WordSum([x, y]) == x + 256 * y
  {
    assert [x, y][2..] == [];
  }

  lemma {:induction false} WordSumAdds(a: seq<Byte>, b: seq<Byte>)
    requires |a| % 2 == 0
    ensures WordSum(a + b) == WordSum(a) + WordSum(b)
  {
    if a == [] {
      assert a + b == b;
    } else {
      assert (a + b)[2..] == a[2..] + b;
      WordSumAdds(a[2..], b);
    }
  }

  /** Only zeros add up to nothing. */
  lemma {:induction false} WordSumZero(b: seq<Byte>)
    ensures WordSum(b) == 0 <==> forall i :: 0 <= i < |b| ==> b[i] == 0
  {
    if |b| > 1 {
      WordSumZero(b[2..]);
      assert forall i :: 2 <= i < |b| ==> b[i] == b[2..][i - 2];
    }
  }

  /** The value 16-bit one's complement addition gives to a sum: congruent modulo 65535, and 0 only for 0. */
  function Folded(s: nat): (f: Word16)
    ensures f % 65535 == s % 65535 && (f == 0 <==> s == 0)
  {
    if s == 0 then 0 else (s - 1) % 65535 + 1
  }

  lemma FoldStep(s: nat)
    requires s >= 0x1_0000
    ensures s % 0x1_0000 + s / 0x1_0000 < s && Folded(s % 0x1_0000 + s / 0x1_0000) == Folded(s)
  {
    var q, r := s / 0x1_0000, s % 0x1_0000;
    assert s - 1 == (r + q - 1) + 65535 * q;
    ModShift(r + q - 1, q);
  }

  lemma ModShift(x: nat, k: nat)
    ensures (x + 65535 * k) % 65535 == x % 65535
  {
  }

  /** The first loop of ng_checksum, and the odd byte. */
  method AddWords(b: seq<Byte>) returns (sum: nat)
    ensures sum == WordSum(b)
  {
    sum := 0;
    var addr: nat, count: nat := 0, |b|;
    assert b[0..] == b;
    while count > 1
      invariant addr + count == |b| && sum + WordSum(b[addr..]) == WordSum(b)
    {
      assert b[addr..][2..] == b[addr + 2..];
      sum := sum + (b[addr] as int + 256 * b[addr + 1] as int);
      addr, count := addr + 2, count - 2;
    }
    if count > 0 {
      sum := sum + b[addr] as int;
    }
  }

  /** ng_checksum. */
  method NgChecksum(b: seq<Byte>) returns (r: Word16)
    ensures r == 0xffff - Folded(WordSum(b))
    ensures r == 0xffff <==> forall i :: 0 <= i < |b| ==> b[i] == 0
  {
    hide WordSum, Folded;
    var sum := AddWords(b);
    while sum / 0x1_0000 != 0
      invariant Folded(sum) == Folded(WordSum(b))
      decreases sum
    {
      FoldStep(sum);
      sum := sum % 0x1_0000 + sum / 0x1_0000;
    }
    FoldedSmall(sum);
    WordSumZero(b);
    r := 0xffff - sum;
  }

  lemma FoldedSmall(s: nat)
    requires s < 0x1_0000
    ensures Folded(s) == s
  {
  }

  /** A word stored at an even place of a buffer where the two bytes were 0 adds its value. */
  lemma {:induction false} StoreAdds(b: seq<Byte>, p: nat, c: Word16)
    requires p % 2 == 0 && p + 1 < |b| && b[p] == b[p + 1] == 0
    ensures WordSum(b[p := c % 256][p + 1 := c / 256]) == WordSum(b) + c
  {
    var b' := b[p := c % 256][p + 1 := c / 256];
    if p > 0 {
      StoreAdds(b[2..], p - 2, c);
      assert b'[2..] == b[2..][p - 2 := c % 256][p - 1 := c / 256];
    } else {
      assert b'[2..] == b[2..];
    }
  }

  /** A buffer passes the check exactly if its word sum is a positive multiple of 65535. */
  lemma PassesIff(b: seq<Byte>)
    ensures Folded(WordSum(b)) == 0xffff <==> WordSum(b) > 0 && WordSum(b) % 65535 == 0
  {
  }

  /** Computing the checksum over a zeroed field and storing it there makes the second computation return 0. */
  method Seal(b: seq<Byte>, p: nat) returns (sealed: seq<Byte>, again: Word16)
    requires p % 2 == 0 && p + 1 < |b| && b[p] == b[p + 1] == 0
    ensures |sealed| == |b| && forall i :: 0 <= i < |b| && i != p && i != p + 1 ==> sealed[i] == b[i]
    ensures again == 0 && Folded(WordSum(sealed)) == 0xffff
  {
    var c := NgChecksum(b);
    sealed := b[p := c % 256][p + 1 := c / 256];
    StoreAdds(b, p, c);
    Completes(WordSum(b));
    again := NgChecksum(sealed);
  }

  lemma Completes(s: nat)
    ensures Folded(s + (0xffff - Folded(s))) == 0xffff
  {
    if s > 0 {
      var q := (s - 1) / 65535;
      assert s + (0xffff - Folded(s)) - 1 == 65534 + 65535 * q;
      ModShift(65534, q);
    }
  }

  /** Anything else in the field does not pass, but the other form of the same value: only one word does. */
  lemma OnlyTheChecksumPasses(b: seq<Byte>, p: nat, c: Word16)
    requires p % 2 == 0 && p + 1 < |b| && b[p] == b[p + 1] == 0
    ensures Folded(WordSum(b[p := c % 256][p + 1 := c / 256])) == 0xffff
      <==> c == 0xffff - Folded(WordSum(b)) || (c == 0xffff && WordSum(b) > 0 && WordSum(b) % 65535 == 0)
  {
    StoreAdds(b, p, c);
    OnlyOneCompletes(WordSum(b), c);
  }

  /** What must be added to a sum to fold to all ones. */
  lemma OnlyOneCompletes(s: nat, c: Word16)
    ensures Folded(s + c) == 0xffff <==> c == 0xffff - Folded(s) || (c == 0xffff && s > 0 && s % 65535 == 0)
  {
    if s > 0 {
      var q, r := (s - 1) / 65535, (s - 1) % 65535;
      assert s + c - 1 == r + c + 65535 * q;
      ModShift(r + c, q);
      assert Folded(s) == r + 1 && Folded(s + c) == (r + c) % 65535 + 1;
      assert s % 65535 == 0 <==> r == 65534;
      if r + c >= 65535 { ModShift(r + c - 65535, 1); }
    }
  }
}

/** The Internet checksum of the firmware's network code. */
module Checksum {

  import opened Basics

  type Word = x: int | 0 <= x < 0x1_0000

  ghost function Sum(s: seq<Word>): nat {
    if s == [] then 0 else Sum(s[..|s| - 1]) + s[|s| - 1]
  }

  lemma {:induction false} SumBound(s: seq<Word>)
    ensures Sum(s) <= 0xffff * |s|
  {
    if s != [] { SumBound(s[..|s| - 1]); }
  }

  lemma {:induction false} SumAppend(a: seq<Word>, b: seq<Word>)
    ensures Sum(a + b) == Sum(a) + Sum(b)
  {
    if b == [] {
      assert a + b == a;
    } else {
      SumAppend(a, b[..|b| - 1]);
      assert (a + b)[..|a + b| - 1] == a + b[..|b| - 1];
    }
  }

  /** One's complement arithmetic, sections 1 and 2 of RFC 1071: the 16-bit value
      congruent to `n` modulo 65535 that is zero only for zero. */
  function Ones(n: nat): (r: nat)
    ensures r < TWO16
  {
    if n == 0 then 0 else (n - 1) % 0xffff + 1
  }

  lemma OnesUnique(n: nat, r: nat)
    requires r < TWO16 && (r - n) % 0xffff == 0 && (r == 0 <==> n == 0)
    ensures r == Ones(n)
  {
  }

  lemma OnesFold(n: nat)
    ensures Ones(n % TWO16 + n / TWO16) == Ones(n)
    ensures n >= TWO16 ==> n % TWO16 + n / TWO16 < n
  {
    assert n == n / TWO16 * 0xffff + (n % TWO16 + n / TWO16);
    OnesShift(n % TWO16 + n / TWO16, n / TWO16);
  }

  lemma OnesShift(n: nat, k: nat)
    requires n > 0 || k == 0
    ensures Ones(n + k * 0xffff) == Ones(n)
  {
    if n > 0 {
      assert (n + k * 0xffff - 1) % 0xffff == (n - 1) % 0xffff;
    }
  }

  /** Summing in parts is summing the whole. */
  lemma OnesChains(a: nat, b: nat)
    ensures Ones(Ones(a) + b) == Ones(a + b)
  {
    if a > 0 {
      var k := (a - 1) / 0xffff;
      assert a == Ones(a) + k * 0xffff;
      OnesShift(Ones(a) + b, k);
    }
  }

  /** The checksum loop with its 32-bit accumulator, then folding. */
  method ChksumBuffer(buf: array<Word>, nshorts: nat, initial: nat) returns (chksum: nat)
    requires nshorts <= buf.Length && initial < TWO32
    ensures initial + Sum(buf[..nshorts]) < TWO32 ==> chksum == Ones(initial + Sum(buf[..nshorts]))
    ensures nshorts <= TWO16 && initial < TWO16 ==> initial + Sum(buf[..nshorts]) < TWO32
    ensures chksum < TWO16
  {
    chksum := initial;
    for i := 0 to nshorts
      invariant chksum < TWO32
      invariant initial + Sum(buf[..i]) < TWO32 ==> chksum == initial + Sum(buf[..i])
    {
      assert buf[..i + 1][..i] == buf[..i];
      chksum := (chksum + buf[i]) % TWO32;
    }
    ghost var total := chksum;
    while chksum >= TWO16
      invariant Ones(chksum) == Ones(total)
    {
      OnesFold(chksum);
      chksum := chksum % TWO16 + chksum / TWO16;
    }
    SumBound(buf[..nshorts]);
  }

  /** Zeroes the checksum field of a header and fills it in, as for an IP packet
      (section 3.1 of RFC 791): whoever sums the header gets all ones. */
  method FillChecksum(hdr: array<Word>, field: nat)
    requires field < hdr.Length <= TWO16
    modifies hdr
    ensures forall i | 0 <= i < hdr.Length && i != field :: hdr[i] == old(hdr[i])
    ensures Ones(Sum(hdr[..])) == 0xffff
  {
    hdr[field] := 0;
    ghost var zeroed := hdr[..];
    var c := ChksumBuffer(hdr, hdr.Length, 0);
    assert hdr[..hdr.Length] == zeroed;
    hdr[field] := 0xffff - c;
    SumSet(zeroed, field, hdr[field]);
    assert hdr[..] == zeroed[field := hdr[field]];
    ComplementCloses(Sum(zeroed));
  }

  lemma SumSet(s: seq<Word>, i: nat, v: Word)
    requires i < |s| && s[i] == 0
    ensures Sum(s[i := v]) == Sum(s) + v
  {
    var a, b := s[..i], s[i + 1..];
    assert s == a + [s[i]] + b && s[i := v] == a + [v] + b;
    SumAppend(a + [s[i]], b);
    SumAppend(a, [s[i]]);
    SumAppend(a + [v], b);
    SumAppend(a, [v]);
    assert Sum([s[i]]) == s[i] && Sum([v]) == v by {
      assert [v][..0] == [] && [s[i]][..0] == [];
    }
  }

  lemma ComplementCloses(s: nat)
    ensures Ones(s + (0xffff - Ones(s))) == 0xffff
  {
    if s > 0 {
      var k := (s - 1) / 0xffff;
      assert s == Ones(s) + k * 0xffff;
      OnesShift(0xffff, k);
    }
  }

  /** The checksum of an ICMP echo reply: the header sum seeds the sum over the
      data, of which an odd last byte is left out. */
  method EchoChecksum(hdr: array<Word>, data: array<Word>) returns (c: Word)
    requires hdr.Length == 4 && hdr[1] == 0 && data.Length <= TWO16
    ensures c == 0xffff - Ones(Sum(hdr[..]) + Sum(data[..]))
    ensures Ones(Sum(hdr[..][1 := c]) + Sum(data[..])) == 0xffff
  {
    var h := ChksumBuffer(hdr, 4, 0);
    var d := ChksumBuffer(data, data.Length, h);
    assert hdr[..4] == hdr[..] && data[..data.Length] == data[..];
    OnesChains(Sum(hdr[..]), Sum(data[..]));
    c := 0xffff - d;
    SumSet(hdr[..], 1, c);
    ComplementCloses(Sum(hdr[..]) + Sum(data[..]));
  }

  /** With data of odd length the receiver, who pads the last byte with zero,
      finds the reply intact exactly when that byte is zero. */
  lemma OddByte(sum: nat, last: nat)
    requires last < 256 && Ones(sum) == 0xffff
    ensures Ones(sum + last * 256) == 0xffff <==> last == 0
  {
    var k := (sum - 1) / 0xffff;
    assert sum == 0xffff + k * 0xffff;
    if last > 0 {
      OnesShift(last * 256, k + 1);
    }
  }
}

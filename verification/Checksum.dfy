/**
 The Internet checksum of src/protocol.cc, on a little-endian host: RFC 1071, sections 1, 2 and 4.1.

 `&`, `>>`, `<<` and `~` on unsigned values are written as the arithmetic they stand for, and every
 32-bit and 16-bit wrap-around is explicit.
 */
module Checksums {

  type Byte = x: int | 0 <= x < 0x100
  type Word = x: int | 0 <= x < 0x1_0000
  type Word32 = x: int | 0 <= x < 0x1_0000_0000

  const MOD32: int := 0x1_0000_0000

  /** A native 16-bit load of bytes 2k and 2k + 1. */
  function WordAt(b: seq<Byte>, k: nat): Word
    requires 2 * k + 1 < |b|
  {
    b[2 * k] + 256 * (b[2 * k + 1] as int)
  }

  function Add32(a: Word32, b: int): Word32 {
    (a + b) % MOD32
  }

  lemma SmallMod(x: nat)
    requires x < MOD32
    ensures x % MOD32 == x
  {
  }

  lemma Add32Mod(s: int, w: int)
    ensures Add32(s % MOD32, w) == (s + w) % MOD32
  {
  }

  /** The sum of the first `n` words. */
  function WordSum(b: seq<Byte>, n: nat): nat
    requires 2 * n <= |b|
  {
    if n == 0 then 0 else WordSum(b, n - 1) + WordAt(b, n - 1)
  }

  /** What `checksum` adds up: the words, and a left-over byte as it is. */
  function Total(b: seq<Byte>): nat {
    WordSum(b, |b| / 2) + if |b| % 2 == 1 then b[|b| - 1] else 0
  }

  /** One pass of the folding loop. */
  function Carry(sum: nat): nat {
    sum % 0x1_0000 + sum / 0x1_0000
  }

  function Fold(sum: nat): Word
    decreases sum
  {
    if sum / 0x1_0000 == 0 then sum else Fold(Carry(sum))
  }

  function FoldPasses(sum: nat): nat
    decreases sum
  {
    if sum / 0x1_0000 == 0 then 0 else 1 + FoldPasses(Carry(sum))
  }

  function Complement(w: Word): Word {
    0xFFFF - w
  }

  /** The value `checksum` returns for the bytes `b`. */
  function ChecksumOf(b: seq<Byte>): Word {
    Complement(Fold(Total(b) % MOD32))
  }

  // ---------- Folding ----------

  lemma CarryKeepsResidue(sum: nat)
    requires sum > 0
    ensures Carry(sum) > 0 && (Carry(sum) - 1) % 0xFFFF == (sum - 1) % 0xFFFF
  {
    var q := sum / 0x1_0000;
    assert sum - 1 == Carry(sum) - 1 + 0xFFFF * q;
    ModShift(Carry(sum) - 1, q);
  }

  lemma ModShift(x: int, q: int)
    ensures (x + 0xFFFF * q) % 0xFFFF == x % 0xFFFF
  {
  }

  /** The one's-complement representative of a sum: 0 only for 0, otherwise 1 to 65535. */
  function Ones(sum: nat): Word {
    if sum == 0 then 0 else (sum - 1) % 0xFFFF + 1
  }

  /** Folding computes it. */
  lemma {:induction false} FoldIs(sum: nat)
    ensures Fold(sum) == Ones(sum)
    decreases sum
  {
    if sum / 0x1_0000 != 0 {
      CarryKeepsResidue(sum);
      FoldIs(Carry(sum));
    }
  }

  /** For a 32-bit sum the loop ends within two passes. */
  lemma FoldPassesBound(sum: Word32)
    ensures FoldPasses(sum) <= 2
  {
    if sum / 0x1_0000 != 0 {
      var s1 := Carry(sum);
      assert s1 <= 0xFFFF + 0xFFFF;
      assert FoldPasses(s1) <= 1 by {
        if s1 / 0x1_0000 != 0 {
          assert Carry(s1) / 0x1_0000 == 0;
          assert FoldPasses(Carry(s1)) == 0;
        }
      }
    }
  }

  lemma SumBound(b: seq<Byte>, n: nat)
    requires 2 * n <= |b|
    ensures WordSum(b, n) <= n * 0xFFFF
  {
  }

  /** For up to 65537 words the 32-bit accumulator does not overflow. */
  lemma NoOverflow(b: seq<Byte>)
    requires |b| <= 2 * 65537
    ensures Total(b) < MOD32
  {
    SumBound(b, |b| / 2);
  }

  lemma ExactChecksum(b: seq<Byte>)
    requires |b| <= 2 * 65537
    ensures ChecksumOf(b) == Complement(Fold(Total(b)))
  {
    NoOverflow(b);
    SmallMod(Total(b));
  }

  // ---------- The functions of src/protocol.cc ----------

  /** The loop that ends both checksum functions. */
  method FoldSum(start: Word32) returns (sum: Word, ghost passes: nat)
    ensures sum == Fold(start) && passes == FoldPasses(start) <= 2
  {
    var s: Word32 := start;
    passes := 0;
    FoldPassesBound(start);
    while s / 0x1_0000 != 0
      invariant Fold(s) == Fold(start) && passes + FoldPasses(s) == FoldPasses(start)
      decreases s
    {
      s := s % 0x1_0000 + s / 0x1_0000;
      passes := passes + 1;
    }
    sum := s;
  }

  method FoldAndInvert(sum: Word32) returns (answer: Word)
    ensures answer == Complement(Fold(sum))
  {
    var folded, _ := FoldSum(sum);
    answer := 0xFFFF - folded;
  }

  /** A 32-bit addition that may wrap; `total` is the unbounded sum. */
  method AddWord(a: Word32, ghost total: nat, w: Word) returns (sum: Word32, ghost total': nat)
    requires a == total % MOD32
    ensures total' == total + w && sum == total' % MOD32
  {
    Add32Mod(total, w);
    sum, total' := Add32(a, w), total + w;
  }

  method Checksum(addr: array<Byte>, start: nat, len: int) returns (answer: Word)
    requires start + len <= addr.Length && start <= addr.Length
    ensures answer == ChecksumOf(addr[start..start + if len < 0 then 0 else len])
  {
    ghost var b: seq<Byte> := addr[start..start + if len < 0 then 0 else len];
    var count := len;
    var sum: Word32 := 0;
    ghost var total: nat := 0;
    var next := start;
    ghost var n := 0;
    while count > 1
      invariant next == start + 2 * n && count == len - 2 * n && 2 * n <= |b|
      invariant total == WordSum(b, n) && sum == total % MOD32
      decreases count
    {
      var w: Word := addr[next] + 256 * (addr[next + 1] as int);
      assert w == WordAt(b, n);
      sum, total := AddWord(sum, total, w);
      next := next + 2;
      count := count - 2;
      n := n + 1;
    }
    assert n == |b| / 2;
    if count > 0 {
      sum, total := AddWord(sum, total, addr[next]);
    }
    answer := FoldAndInvert(sum);
  }

  /** The header fields `udp4_checksum2` reads, as native loads of their bytes in network order. */
  datatype Headers = Headers(src: Word32, dst: Word32, protocol: Byte, source: Word, dest: Word, len: Word) {
    function Sum(): nat {
      src % 0x1_0000 + src / 0x1_0000 + dst % 0x1_0000 + dst / 0x1_0000 + 256 * protocol
      + len + source + dest + len
    }
  }

  /** What `udp4_checksum2` adds up of the payload: a left-over byte is shifted left. */
  function ShiftedTotal(payload: seq<Byte>): nat {
    WordSum(payload, |payload| / 2)
    + if |payload| % 2 == 1 then 256 * (payload[|payload| - 1] as int) else 0
  }

  function UdpTotal(h: Headers, payload: seq<Byte>): nat {
    h.Sum() + ShiftedTotal(payload)
  }

  function UdpChecksumOf(h: Headers, payload: seq<Byte>): Word {
    Complement(Fold(UdpTotal(h, payload) % MOD32))
  }

  lemma ShiftedTotalParts(payload: seq<Byte>, n: nat)
    requires 2 * n <= |payload| <= 2 * n + 1
    ensures ShiftedTotal(payload)
            == WordSum(payload, n) + if |payload| == 2 * n + 1 then 256 * (payload[2 * n] as int) else 0
  {
    assert n == |payload| / 2;
  }

  lemma UdpChecksumIs(h: Headers, payload: seq<Byte>, total: nat, sum: Word32)
    requires total == UdpTotal(h, payload) && sum == total % MOD32
    ensures UdpChecksumOf(h, payload) == Complement(Fold(sum))
  {
  }

  /** `base` is the unbounded sum, which has not wrapped. */
  method SumHeaders(h: Headers) returns (sum: Word32, ghost base: nat)
    ensures base == h.Sum() && sum == base % MOD32
  {
    sum := Accumulate(0, h.src % 0x1_0000);
    sum := Accumulate(sum, h.src / 0x1_0000);
    sum := Accumulate(sum, h.dst % 0x1_0000);
    sum := Accumulate(sum, h.dst / 0x1_0000);
    var tmp := ShiftedByte(h.protocol);
    sum := Accumulate(sum, tmp);
    sum := Accumulate(sum, h.len);
    sum := Accumulate(sum, h.source);
    sum := Accumulate(sum, h.dest);
    sum := Accumulate(sum, h.len);
    base := sum;
    SmallMod(base);
  }

  /** A 32-bit addition that cannot wrap. */
  method Accumulate(a: Word32, w: Word) returns (sum: Word32)
    requires a + w < MOD32
    ensures sum == a + w
  {
    sum := Add32(a, w);
  }

  /** A byte moved to the high half of a 16-bit word. */
  method ShiftedByte(b: Byte) returns (tmp: Word)
    ensures tmp == 256 * b
  {
    tmp := b;
    tmp := tmp * 256 % 0x1_0000;
  }

  method Udp4Checksum2(h: Headers, payload: array<Byte>, payloadlen: int) returns (check: Word)
    requires payloadlen <= payload.Length
    ensures check == UdpChecksumOf(h, payload[..if payloadlen < 0 then 0 else payloadlen])
  {
    var sum, base := SumHeaders(h);
    ghost var total;
    sum, total := SumPayload(sum, base, payload, payloadlen);
    check := FoldAndInvert(sum);
    UdpChecksumIs(h, payload[..if payloadlen < 0 then 0 else payloadlen], total, sum);
  }

  /** The loop over the payload, and its left-over byte. */
  method SumPayload(start: Word32, ghost base: nat, payload: array<Byte>, payloadlen: int)
    returns (sum: Word32, ghost total: nat)
    requires payloadlen <= payload.Length && start == base % MOD32
    ensures total == base + ShiftedTotal(payload[..if payloadlen < 0 then 0 else payloadlen])
    ensures sum == total % MOD32
  {
    ghost var b: seq<Byte> := payload[..if payloadlen < 0 then 0 else payloadlen];
    sum, total := start, base;
    var left, next := payloadlen, 0;
    ghost var n := 0;
    while left > 1
      invariant next == 2 * n && left == payloadlen - 2 * n && 2 * n <= |b|
      invariant total == base + WordSum(b, n) && sum == total % MOD32
      decreases left
    {
      var w: Word := payload[next] + 256 * (payload[next + 1] as int);
      assert w == WordAt(b, n);
      sum, total := AddWord(sum, total, w);
      next := next + 2;
      left := left - 2;
      n := n + 1;
    }
    ShiftedTotalParts(b, n);
    if left == 1 {
      var tmp := ShiftedByte(payload[next]);
      sum, total := AddWord(sum, total, tmp);
    }
  }

  // ---------- Memory images ----------

  function Image16(w: Word): (b: seq<Byte>)
    ensures |b| == 2
  {
    [w % 256, w / 256]
  }

  function Image32(w: Word32): (b: seq<Byte>)
    ensures |b| == 4
  {
    Image16(w % 0x1_0000) + Image16(w / 0x1_0000)
  }

  /** The pseudo-header of section 4.1 of RFC 1071 and of the 'Checksum' field of RFC 768. */
  function PseudoHeader(h: Headers): (b: seq<Byte>)
    ensures |b| == 12
  {
    Image32(h.src) + Image32(h.dst) + Image16(256 * h.protocol) + Image16(h.len)
  }

  function UdpHeader(h: Headers, check: Word): (b: seq<Byte>)
    ensures |b| == 8
  {
    Image16(h.source) + Image16(h.dest) + Image16(h.len) + Image16(check)
  }

  lemma {:induction false} WordSumConcat(a: seq<Byte>, b: seq<Byte>, n: nat)
    requires |a| % 2 == 0 && 2 * n <= |b|
    ensures WordSum(a + b, |a| / 2 + n) == WordSum(a, |a| / 2) + WordSum(b, n)
    decreases n
  {
    if n == 0 {
      WordSumPrefix(a, b, |a| / 2);
    } else {
      WordSumConcat(a, b, n - 1);
      assert WordAt(a + b, |a| / 2 + n - 1) == WordAt(b, n - 1);
    }
  }

  lemma {:induction false} WordSumPrefix(a: seq<Byte>, b: seq<Byte>, n: nat)
    requires 2 * n <= |a|
    ensures WordSum(a + b, n) == WordSum(a, n)
    decreases n
  {
    if n > 0 {
      WordSumPrefix(a, b, n - 1);
      assert WordAt(a + b, n - 1) == WordAt(a, n - 1);
    }
  }

  lemma TotalConcat(a: seq<Byte>, b: seq<Byte>)
    requires |a| % 2 == 0
    ensures Total(a + b) == Total(a) + Total(b)
  {
    WordSumConcat(a, b, |b| / 2);
    assert |a + b| / 2 == |a| / 2 + |b| / 2;
  }

  lemma TotalImage16(w: Word)
    ensures Total(Image16(w)) == w
  {
    var b := Image16(w);
    assert WordSum(b, 1) == WordSum(b, 0) + WordAt(b, 0);
  }

  lemma TotalImage32(w: Word32)
    ensures Total(Image32(w)) == w % 0x1_0000 + w / 0x1_0000
  {
    TotalConcat(Image16(w % 0x1_0000), Image16(w / 0x1_0000));
    TotalImage16(w % 0x1_0000);
    TotalImage16(w / 0x1_0000);
  }

  lemma TotalPseudoHeader(h: Headers)
    ensures Total(PseudoHeader(h)) == h.src % 0x1_0000 + h.src / 0x1_0000 + h.dst % 0x1_0000 + h.dst / 0x1_0000
                                      + 256 * h.protocol + h.len
  {
    var a, b, c, d := Image32(h.src), Image32(h.dst), Image16(256 * h.protocol), Image16(h.len);
    TotalConcat(a + b + c, d);
    TotalConcat(a + b, c);
    TotalConcat(a, b);
    TotalImage32(h.src);
    TotalImage32(h.dst);
    TotalImage16(256 * h.protocol);
    TotalImage16(h.len);
  }

  lemma TotalUdpHeader(h: Headers, check: Word)
    ensures Total(UdpHeader(h, check)) == h.source + h.dest + h.len + check
  {
    var a, b, c, d := Image16(h.source), Image16(h.dest), Image16(h.len), Image16(check);
    TotalConcat(a + b + c, d);
    TotalConcat(a + b, c);
    TotalConcat(a, b);
    TotalImage16(h.source);
    TotalImage16(h.dest);
    TotalImage16(h.len);
    TotalImage16(check);
  }

  /** The buffer a receiver checks: pseudo-header, UDP header and payload. */
  function Datagram(h: Headers, check: Word, payload: seq<Byte>): seq<Byte> {
    PseudoHeader(h) + UdpHeader(h, check) + payload
  }

  lemma TotalDatagram(h: Headers, check: Word, payload: seq<Byte>)
    ensures Total(Datagram(h, check, payload)) == h.Sum() + check + Total(payload)
  {
    TotalConcat(PseudoHeader(h) + UdpHeader(h, check), payload);
    TotalConcat(PseudoHeader(h), UdpHeader(h, check));
    TotalPseudoHeader(h);
    TotalUdpHeader(h, check);
  }

  // ---------- The zero-copy checksum against the reference ----------

  /** For every even length, whatever the bytes, `udp4_checksum2` is `checksum` over the datagram laid
      out in memory with a zero checksum field. */
  lemma ZeroCopyExact(h: Headers, payload: seq<Byte>)
    requires |payload| % 2 == 0
    ensures UdpChecksumOf(h, payload) == ChecksumOf(Datagram(h, 0, payload))
  {
    TotalDatagram(h, 0, payload);
  }

  /** For every payload an IP packet can hold, it is exact if and only if the length is even or the
      left-over byte is zero. */
  lemma ZeroCopyExactIff(h: Headers, payload: seq<Byte>)
    requires |payload| <= 0xFFFF && h.protocol != 0
    ensures UdpChecksumOf(h, payload) == ChecksumOf(Datagram(h, 0, payload))
            <==> |payload| % 2 == 0 || payload[|payload| - 1] == 0
  {
    TotalDatagram(h, 0, payload);
    if |payload| % 2 == 1 {
      var s, last := h.Sum() + WordSum(payload, |payload| / 2), payload[|payload| - 1];
      SumBound(payload, |payload| / 2);
      OddByteMatters(s, last);
    }
  }

  lemma OddByteMatters(s: nat, last: Byte)
    requires 0 < s && s + 256 * last < MOD32
    ensures Fold((s + 256 * last) % MOD32) == Fold((s + last) % MOD32) <==> last == 0
  {
    var x, y := s + 256 * last, s + last;
    SmallMod(x);
    SmallMod(y);
    FoldIs(x);
    FoldIs(y);
    OddOnes(s, last);
  }

  lemma OddOnes(s: nat, last: Byte)
    requires 0 < s
    ensures Ones(s + 256 * last) == Ones(s + last) <==> last == 0
  {
    var x, y := s + 256 * last - 1, s + last - 1;
    assert x - y == 255 * last;
    if x % 0xFFFF == y % 0xFFFF {
      var q := x / 0xFFFF - y / 0xFFFF;
      assert x - y == 0xFFFF * q;
      assert last == 257 * q;
    }
  }

  ghost predicate ZeroFrom(b: seq<Byte>, n: nat) {
    forall i | n <= i < |b| :: b[i] == 0
  }

  lemma {:induction false} ZeroWords(b: seq<Byte>, m: nat, n: nat)
    requires m <= n && 2 * n <= |b| && ZeroFrom(b, 2 * m)
    ensures WordSum(b, n) == WordSum(b, m)
    decreases n
  {
    if m < n { ZeroWords(b, m, n - 1); }
  }

  /** When everything after an even prefix is zero, checksumming the prefix gives the checksum of the
      whole payload laid out in memory, be its length even or odd. */
  lemma PrefixSuffices(h: Headers, payload: seq<Byte>, n: nat)
    requires n <= |payload| && n % 2 == 0 && ZeroFrom(payload, n)
    ensures UdpChecksumOf(h, payload[..n]) == ChecksumOf(Datagram(h, 0, payload))
  {
    TotalDatagram(h, 0, payload);
    ZeroWords(payload, n / 2, |payload| / 2);
    assert payload[..n] + payload[n..] == payload;
    WordSumPrefix(payload[..n], payload[n..], n / 2);
  }

  // ---------- Verification by the receiver ----------

  lemma ComplementCancels(s: nat)
    requires 0 < s
    ensures Fold(s + Complement(Fold(s))) == 0xFFFF
  {
    FoldIs(s);
    FoldIs(s + Complement(Ones(s)));
    var q := (s - 1) / 0xFFFF;
    assert s + Complement(Ones(s)) == 0xFFFF + 0xFFFF * q;
    ModShift(0xFFFE, q);
  }

  /** Storing the checksum of a buffer in one of its zero words makes the buffer check. */
  lemma ChecksumVerifies(a: seq<Byte>, b: seq<Byte>)
    requires |a| % 2 == 0 && |a| + 2 + |b| <= 2 * 65536
    requires 0 < Total(a) + Total(b)
    ensures ChecksumOf(a + Image16(ChecksumOf(a + Image16(0) + b)) + b) == 0
  {
    var s := Total(a) + Total(b);
    TotalWithField(a, 0, b);
    ExactChecksum(a + Image16(0) + b);
    var c := Complement(Fold(s));
    TotalWithField(a, c, b);
    ExactChecksum(a + Image16(c) + b);
    ComplementCancels(s);
  }

  lemma TotalWithField(a: seq<Byte>, w: Word, b: seq<Byte>)
    requires |a| % 2 == 0
    ensures Total(a + Image16(w) + b) == Total(a) + w + Total(b)
  {
    TotalConcat(a + Image16(w), b);
    TotalConcat(a, Image16(w));
    TotalImage16(w);
  }

  /** A receiver that sums the pseudo-header, the UDP header with its check field, and the whole
      zero-tailed payload gets 0xffff. */
  lemma DatagramVerifies(h: Headers, payload: seq<Byte>, n: nat)
    requires n <= |payload| <= 0xFFFF && n % 2 == 0 && ZeroFrom(payload, n) && h.protocol != 0
    ensures Fold(Total(Datagram(h, UdpChecksumOf(h, payload[..n]), payload))) == 0xFFFF
  {
    var s := h.Sum() + Total(payload);
    PrefixSuffices(h, payload, n);
    TotalDatagram(h, 0, payload);
    var check := Complement(Fold(s));
    ExactChecksum(Datagram(h, 0, payload));
    assert UdpChecksumOf(h, payload[..n]) == check;
    TotalDatagram(h, check, payload);
    ComplementCancels(s);
  }

  /** RFC 768 has a computed zero transmitted as all ones; the code sends the zero, which tells the
      receiver there is no checksum, exactly when the sum is a multiple of 65535. */
  lemma ZeroCheckIff(h: Headers, payload: seq<Byte>)
    requires |payload| <= 0xFFFF && h.protocol != 0
    ensures UdpChecksumOf(h, payload) == 0 <==> UdpTotal(h, payload) % 0xFFFF == 0
  {
    SumBound(payload, |payload| / 2);
    var t := UdpTotal(h, payload);
    assert t % MOD32 == t;
    FoldIs(t);
    LastResidue(t);
  }

  lemma LastResidue(t: nat)
    requires t > 0
    ensures (t - 1) % 0xFFFF == 0xFFFE <==> t % 0xFFFF == 0
  {
    if (t - 1) % 0xFFFF == 0xFFFE {
      assert t == 0xFFFF * ((t - 1) / 0xFFFF + 1);
    }
  }

  // ---------- Byte order ----------

  function Swap(w: Word): Word {
    w % 256 * 256 + w / 256
  }

  function SwapBytes(b: seq<Byte>): (r: seq<Byte>)
    requires |b| % 2 == 0
    ensures |r| == |b|
  {
    seq(|b|, i requires 0 <= i < |b| => if i % 2 == 0 then b[i + 1] else b[i - 1])
  }

  lemma SwapWordAt(b: seq<Byte>, k: nat)
    requires |b| % 2 == 0 && 2 * k + 1 < |b|
    ensures WordAt(SwapBytes(b), k) == Swap(WordAt(b, k))
  {
  }

  /** Swapping the bytes of a word multiplies it by 256, modulo 65535. */
  lemma SwapIsTimes256(w: Word)
    ensures 256 * w == Swap(w) + 0xFFFF * (w / 256)
  {
  }

  ghost function HighBytes(b: seq<Byte>, n: nat): nat
    requires 2 * n <= |b|
  {
    if n == 0 then 0 else HighBytes(b, n - 1) + WordAt(b, n - 1) / 256
  }

  lemma {:induction false} SwapSum(b: seq<Byte>, n: nat)
    requires |b| % 2 == 0 && 2 * n <= |b|
    ensures 256 * WordSum(b, n) == WordSum(SwapBytes(b), n) + 0xFFFF * HighBytes(b, n)
    ensures WordSum(b, n) == 0 <==> WordSum(SwapBytes(b), n) == 0
    decreases n
  {
    if n > 0 {
      SwapSum(b, n - 1);
      SwapWordAt(b, n - 1);
      SwapIsTimes256(WordAt(b, n - 1));
    }
  }

  lemma SwapFold(s: nat, t: nat, q: nat)
    requires 256 * s == t + 0xFFFF * q && (s == 0 <==> t == 0)
    ensures Fold(t) == Swap(Fold(s))
  {
    FoldIs(s);
    FoldIs(t);
    if s > 0 {
      var f, g := Fold(s), Fold(t);
      var a, c := (s - 1) / 0xFFFF, (t - 1) / 0xFFFF;
      assert s == f + 0xFFFF * a && t == g + 0xFFFF * c;
      SwapIsTimes256(f);
      var k := 256 * a + f / 256 - c - q;
      assert g == Swap(f) + 0xFFFF * k;
      assert 1 <= Swap(f) <= 0xFFFF;
      assert k == 0;
    }
  }

  /** Byte-order independence, section 2(B) of RFC 1071: on byte-swapped words the checksum comes out
      byte-swapped, so native loads and stores put the right bytes on the wire. */
  lemma ByteOrderIndependent(b: seq<Byte>)
    requires |b| % 2 == 0 && |b| <= 2 * 65537
    ensures ChecksumOf(SwapBytes(b)) == Swap(ChecksumOf(b))
  {
    var n := |b| / 2;
    SwapSum(b, n);
    SumBound(b, n);
    SumBound(SwapBytes(b), n);
    SwapFold(WordSum(b, n), WordSum(SwapBytes(b), n), HighBytes(b, n));
    ExactChecksum(b);
    ExactChecksum(SwapBytes(b));
    SwapComplement(Fold(WordSum(b, n)));
  }

  lemma SwapComplement(w: Word)
    ensures Complement(Swap(w)) == Swap(Complement(w))
  {
  }

  // ---------- The repository's own vectors ----------

  function Repeat(b: Byte, n: nat): (r: seq<Byte>)
    ensures |r| == n && forall i | 0 <= i < n :: r[i] == b
  {
    if n == 0 then [] else Repeat(b, n - 1) + [b]
  }

  lemma {:induction false} RepeatSum(b: Byte, n: nat, k: nat)
    requires 2 * k <= n
    ensures WordSum(Repeat(b, n), k) == k * (257 * b)
    decreases k
  {
    if k > 0 {
      RepeatSum(b, n, k - 1);
      assert k * (257 * b) == (k - 1) * (257 * b) + 257 * b;
    }
  }

  /** Six bytes "a", eight bytes "A" and, with a left-over byte, seven bytes "A". */
  lemma KnownVectors()
    ensures ChecksumOf(Repeat(0x61, 6)) == 0xdbdb
    ensures ChecksumOf(Repeat(0x41, 8)) == 0xfafa
    ensures ChecksumOf(Repeat(0x41, 7)) == 0x3bfb
  {
    RepeatSum(0x61, 6, 3);
    RepeatSum(0x41, 8, 4);
    RepeatSum(0x41, 7, 3);
    FoldIs(3 * (257 * 0x61));
    FoldIs(4 * (257 * 0x41));
    FoldIs(3 * (257 * 0x41) + 0x41);
  }
}

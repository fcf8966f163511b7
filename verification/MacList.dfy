/**
 The next-hop list of src/maclist.cc: a comma-separated list of MAC addresses parsed with `sscanf`,
 and handed out in rotation.
 */
module MacLists {
  import opened Options

  /** An address; see `IsMac`. */
  type Mac = seq<int>

  predicate IsByte(b: int) {
    0 <= b < 256
  }

  predicate IsMac(m: Mac) {
    |m| == 6 && forall i | 0 <= i < 6 :: IsByte(m[i])
  }

  // ---------- sscanf ----------

  predicate IsSpace(c: char) {
    c == ' ' || '\t' <= c <= '\r'
  }

  function HexDigit(c: char): (r: Option<nat>)
    ensures r.Some? ==> r.value < 16
  {
    if '0' <= c <= '9' then Some(c as int - '0' as int)
    else if 'a' <= c <= 'f' then Some(c as int - 'a' as int + 10)
    else if 'A' <= c <= 'F' then Some(c as int - 'A' as int + 10)
    else None
  }

  function SkipSpace(s: string): (r: string)
    ensures |r| <= |s|
  {
    if s != "" && IsSpace(s[0]) then SkipSpace(s[1..]) else s
  }

  /** The value of the leading hexadecimal digits, continuing from `acc`, and what follows them. */
  function ReadHex(s: string, acc: nat): (r: (nat, string))
    ensures |r.1| <= |s|
  {
    if s != "" && HexDigit(s[0]).Some? then ReadHex(s[1..], 16 * acc + HexDigit(s[0]).value) else (acc, s)
  }

  /** One `%hhx` conversion: a 64-bit conversion that saturates, cut to its low byte. */
  function ScanByte(s: string): (r: Option<(int, string)>)
    ensures r.Some? ==> |r.value.1| < |s| && IsByte(r.value.0)
  {
    var t := SkipSpace(s);
    if t == "" || HexDigit(t[0]).None? then None
    else
      var (v, rest) := ReadHex(t[1..], HexDigit(t[0]).value);
      Some((if v >= 0x1_0000_0000_0000_0000 then 255 else v % 256, rest))
  }

  /** The fields `sscanf` assigns for `n` conversions separated by colons. */
  function ScanFields(s: string, n: nat): (fields: seq<int>)
    ensures |fields| <= n && forall i | 0 <= i < |fields| :: IsByte(fields[i])
    decreases n
  {
    if n == 0 then []
    else match ScanByte(s)
      case None => []
      case Some((b, rest)) =>
        [b] + if rest != "" && rest[0] == ':' then ScanFields(rest[1..], n - 1) else []
  }

  /** The number of conversions in the format. */
  const CONVERSIONS: nat := 6

  /** What `sscanf` assigns of one address. */
  function ScanMac(s: string): (fields: seq<int>)
    ensures |fields| <= 6 && (|fields| == 6 ==> IsMac(fields))
  {
    ScanFields(s, CONVERSIONS)
  }

  // ---------- The list ----------

  function Commas(s: string): nat {
    if s == "" then 0 else (if s[0] == ',' then 1 else 0) + Commas(s[1..])
  }

  /** What follows the first comma: `strchr` plus one. */
  function AfterComma(s: string): (r: string)
    ensures |r| <= |s|
    ensures Commas(s) > 0 ==> Commas(r) == Commas(s) - 1 && |r| < |s|
  {
    if s == "" then "" else if s[0] == ',' then s[1..] else AfterComma(s[1..])
  }

  /** The first `n` addresses of `s`, or nothing if one of them does not parse. */
  function ParseMacs(s: string, n: nat): (r: Option<seq<Mac>>)
    ensures r.Some? ==> |r.value| == n
    decreases n
  {
    if n == 0 then Some([])
    else
      var fields := ScanMac(s);
      if |fields| < 6 then None
      else Prepend([fields], ParseMacs(AfterComma(s), n - 1))
  }

  /** How many of the first `n` addresses parse before one that does not. */
  function ParsedCount(s: string, n: nat): (k: nat)
    ensures k <= n && (ParseMacs(s, n).Some? <==> k == n)
    decreases n
  {
    if n == 0 || |ScanMac(s)| < 6 then 0 else 1 + ParsedCount(AfterComma(s), n - 1)
  }

  /** How many addresses are expected; the comma count starts at the second character. */
  function Expected(s: string): nat
    requires s != ""
  {
    Commas(s[1..]) + 1
  }

  function Parse(s: string): (r: Option<seq<Mac>>)
    requires s != ""
    ensures r.Some? ==> |r.value| == Expected(s)
  {
    ParseMacs(s, Expected(s))
  }

  function Prepend(front: seq<Mac>, r: Option<seq<Mac>>): Option<seq<Mac>> {
    match r case None => None case Some(ms) => Some(front + ms)
  }

  lemma PrependNothing(r: Option<seq<Mac>>)
    ensures Prepend([], r) == r
  {
    assert r.Some? ==> [] + r.value == r.value;
  }

  lemma PrependFirst(macs: seq<Mac>)
    requires macs != []
    ensures Prepend([macs[0]], Some(macs[1..])) == Some(macs)
  {
    assert macs == [macs[0]] + macs[1..];
  }

  lemma PrependOne(front: seq<Mac>, mac: Mac, r: Option<seq<Mac>>)
    ensures Prepend(front, Prepend([mac], r)) == Prepend(front + [mac], r)
  {
    assert r.Some? ==> front + ([mac] + r.value) == front + [mac] + r.value;
  }

  /** After `k` addresses of `s`, those in `parsed`, the rest is in `mls`. */
  ghost predicate HasParsed(s: string, n: nat, parsed: seq<Mac>, k: nat, mls: string)
    requires k <= n
  {
    ParseMacs(s, n) == Prepend(parsed, ParseMacs(mls, n - k)) && ParsedCount(s, n) == k + ParsedCount(mls, n - k)
  }

  lemma ParseNext(s: string, n: nat, parsed: seq<Mac>, k: nat, mls: string)
    requires k < n && HasParsed(s, n, parsed, k, mls)
    ensures if |ScanMac(mls)| < 6 then ParseMacs(s, n) == None && ParsedCount(s, n) == k
            else HasParsed(s, n, parsed + [ScanMac(mls)], k + 1, AfterComma(mls))
  {
    PrependOne(parsed, ScanMac(mls), ParseMacs(AfterComma(mls), n - k - 1));
  }

  class MacList {
    var numMacs: nat
    var curMac: nat
    var macs: seq<Mac>
    /** The session this list belongs to. */
    ghost const owner: nat

    ghost predicate Valid()
      reads this
    {
      numMacs == |macs| && (numMacs > 0 ==> curMac <= numMacs)
    }

    /** An invalid list leaves no addresses, and the cursor at the one that is invalid. */
    constructor (macListString: string, ghost owner: nat)
      requires macListString != ""
      ensures Valid() && curMac == ParsedCount(macListString, Expected(macListString)) && this.owner == owner
      ensures macs == match Parse(macListString) case None => [] case Some(ms) => ms
    {
      var n := CountMacs(macListString);
      var parsed, k := ScanAll(macListString, n);
      macs := if parsed.Some? then parsed.value else [];
      numMacs := if parsed.Some? then n else 0;
      curMac := k;
      this.owner := owner;
    }

    /** One more than the commas after the first character. */
    static method CountMacs(s: string) returns (n: nat)
      requires s != ""
      ensures n == Expected(s)
    {
      n := 1;
      var next := s[1..];
      while Commas(next) > 0
        invariant n + Commas(next) == Expected(s)
        decreases |next|
      {
        n := n + 1;
        next := AfterComma(next);
      }
    }

    /** The loop that fills `macs`; `k` is where it stops. */
    static method ScanAll(s: string, n: nat) returns (r: Option<seq<Mac>>, k: nat)
      ensures r == ParseMacs(s, n) && k == ParsedCount(s, n)
    {
      var parsed: seq<Mac> := [];
      var mls := s;
      k := 0;
      PrependNothing(ParseMacs(s, n));
      while k < n
        invariant k <= n && HasParsed(s, n, parsed, k, mls)
      {
        var fields := ScanMac(mls);
        ParseNext(s, n, parsed, k, mls);
        if |fields| < 6 {
          return None, k;
        }
        parsed := parsed + [fields];
        mls := AfterComma(mls);
        k := k + 1;
      }
      assert parsed + [] == parsed;
      r := Some(parsed);
    }

    /** The address after the current one, wrapping round; nothing if there are none. */
    method NextMac() returns (mac: Option<Mac>)
      requires Valid()
      modifies this`curMac
      ensures Valid()
      ensures numMacs == 0 ==> mac == None && curMac == old(curMac)
      ensures numMacs > 0 ==>
                && curMac == (if old(curMac) + 1 >= numMacs then 0 else old(curMac) + 1)
                && mac == Some(macs[curMac])
    {
      if numMacs == 0 {
        return None;
      }
      curMac := curMac + 1;
      if curMac >= numMacs {
        curMac := 0;
      }
      mac := Some(macs[curMac]);
    }
  }

  // ---------- Printing and parsing back ----------

  function HexChar(n: nat): char
    requires n < 16
  {
    if n < 10 then '0' + n as char else 'a' + (n - 10) as char
  }

  function ByteText(b: int): string
    requires IsByte(b)
  {
    [HexChar(b / 16), HexChar(b % 16)]
  }

  function BytesText(bs: seq<int>): string
    requires bs != [] && forall i | 0 <= i < |bs| :: IsByte(bs[i])
  {
    if |bs| == 1 then ByteText(bs[0]) else ByteText(bs[0]) + ":" + BytesText(bs[1..])
  }

  /** `toString`. */
  function ToString(mac: Mac): string
    requires IsMac(mac)
  {
    BytesText(mac)
  }

  function Join(macs: seq<Mac>): string
    requires macs != [] && forall k | 0 <= k < |macs| :: IsMac(macs[k])
  {
    if |macs| == 1 then ToString(macs[0]) else ToString(macs[0]) + "," + Join(macs[1..])
  }

  predicate Delimited(rest: string) {
    rest == "" || rest[0] == ':' || rest[0] == ','
  }

  lemma HexCharDigit(n: nat)
    requires n < 16
    ensures HexDigit(HexChar(n)) == Some(n) && HexChar(n) != ',' && !IsSpace(HexChar(n))
  {
  }

  lemma ScanByteText(b: int, rest: string)
    requires IsByte(b) && Delimited(rest)
    ensures ScanByte(ByteText(b) + rest) == Some((b, rest))
  {
    ByteNumeral(b);
    ScanField(Field("", ByteText(b)), rest);
    assert "" + ByteText(b) == ByteText(b);
  }

  lemma ByteNumeral(b: int)
    requires IsByte(b)
    ensures AllHex(ByteText(b)) && Numeral(ByteText(b)) == b
  {
    HexCharDigit(b / 16);
    HexCharDigit(b % 16);
    var high := [HexChar(b / 16)];
    assert high[..0] == "" && Numeral(high) == b / 16;
    assert ByteText(b)[..1] == high && ByteText(b)[1] == HexChar(b % 16);
  }

  lemma {:induction false} ScanBytesText(bs: seq<int>, rest: string)
    requires bs != [] && forall i | 0 <= i < |bs| :: IsByte(bs[i])
    requires rest == "" || rest[0] == ','
    ensures ScanFields(BytesText(bs) + rest, |bs|) == bs
    decreases bs
  {
    if |bs| == 1 {
      ScanByteText(bs[0], rest);
      LastField(bs, BytesText(bs) + rest, rest);
    } else {
      var tail := FirstText(bs, rest);
      ScanByteText(bs[0], tail);
      ScanBytesText(bs[1..], rest);
      ConsFields(bs, BytesText(bs) + rest, tail);
    }
  }

  lemma FirstText(bs: seq<int>, rest: string) returns (tail: string)
    requires |bs| > 1 && forall i | 0 <= i < |bs| :: IsByte(bs[i])
    ensures BytesText(bs) + rest == ByteText(bs[0]) + tail
    ensures tail != "" && tail[0] == ':' && tail[1..] == BytesText(bs[1..]) + rest
  {
    tail := ":" + BytesText(bs[1..]) + rest;
  }

  lemma LastField(bs: seq<int>, s: string, rest: string)
    requires |bs| == 1 && ScanByte(s) == Some((bs[0], rest)) && (rest == "" || rest[0] == ',')
    ensures ScanFields(s, |bs|) == bs
  {
    assert bs == [bs[0]];
  }

  lemma ConsFields(bs: seq<int>, s: string, tail: string)
    requires |bs| > 1 && ScanByte(s) == Some((bs[0], tail)) && tail != "" && tail[0] == ':'
    requires ScanFields(tail[1..], |bs| - 1) == bs[1..]
    ensures ScanFields(s, |bs|) == bs
  {
    assert bs == [bs[0]] + bs[1..];
  }

  lemma ScanMacText(mac: Mac, rest: string)
    requires IsMac(mac) && (rest == "" || rest[0] == ',')
    ensures ScanMac(ToString(mac) + rest) == mac
  {
    ScanBytesText(mac, rest);
  }

  predicate NoComma(s: string) {
    forall i | 0 <= i < |s| :: s[i] != ','
  }

  lemma {:induction false} BytesTextNoComma(bs: seq<int>)
    requires bs != [] && forall i | 0 <= i < |bs| :: IsByte(bs[i])
    ensures NoComma(BytesText(bs)) && |BytesText(bs)| > 0
    decreases bs
  {
    HexCharDigit(bs[0] / 16);
    HexCharDigit(bs[0] % 16);
    if |bs| > 1 { BytesTextNoComma(bs[1..]); }
  }

  lemma {:induction false} CommaFollows(s: string, rest: string)
    requires NoComma(s)
    ensures AfterComma(s + "," + rest) == rest && Commas(s + "," + rest) == 1 + Commas(rest)
    ensures Commas(s) == 0
    decreases |s|
  {
    if s == "" {
      assert s + "," + rest == "," + rest;
      assert ("," + rest)[1..] == rest;
    } else {
      CommaFollows(s[1..], rest);
      assert (s + "," + rest)[1..] == s[1..] + "," + rest;
    }
  }

  /** `s` parses as `macs`, and has the right number of commas, none of them first. */
  ghost predicate ParsesAs(s: string, macs: seq<Mac>) {
    ParseMacs(s, |macs|) == Some(macs) && Commas(s) == |macs| - 1 && s != "" && s[0] != ','
  }

  lemma {:induction false} ParseJoin(macs: seq<Mac>)
    requires macs != [] && forall k | 0 <= k < |macs| :: IsMac(macs[k])
    ensures ParsesAs(Join(macs), macs)
    decreases |macs|
  {
    if |macs| == 1 {
      JoinOne(macs[0]);
      assert macs == [macs[0]];
    } else {
      ParseJoin(macs[1..]);
      ParseJoinMore(macs, Join(macs[1..]));
    }
  }

  lemma ParseJoinMore(macs: seq<Mac>, rest: string)
    requires |macs| > 1 && IsMac(macs[0]) && ParsesAs(rest, macs[1..])
    ensures ParsesAs(ToString(macs[0]) + "," + rest, macs)
  {
    JoinMore(macs[0], rest);
    ConsMacs(macs, ToString(macs[0]) + "," + rest);
  }

  lemma JoinOne(mac: Mac)
    requires IsMac(mac)
    ensures ParsesAs(ToString(mac), [mac])
  {
    var s := ToString(mac);
    BytesTextNoComma(mac);
    ScanMacText(mac, "");
    assert s + "" == s;
    CommaFollows(s, "");
    assert ParseMacs(AfterComma(s), 0) == Some([]);
    assert [mac] + [] == [mac];
  }

  lemma JoinMore(mac: Mac, rest: string)
    requires IsMac(mac)
    ensures var s := ToString(mac) + "," + rest;
            ScanMac(s) == mac && AfterComma(s) == rest && Commas(s) == 1 + Commas(rest) && s != "" && s[0] != ','
  {
    BytesTextNoComma(mac);
    ScanMacText(mac, "," + rest);
    assert ToString(mac) + "," + rest == ToString(mac) + ("," + rest);
    CommaFollows(ToString(mac), rest);
  }

  lemma ConsMacs(macs: seq<Mac>, s: string)
    requires macs != [] && IsMac(macs[0]) && ScanMac(s) == macs[0]
    requires ParseMacs(AfterComma(s), |macs| - 1) == Some(macs[1..])
    ensures ParseMacs(s, |macs|) == Some(macs)
  {
    PrependFirst(macs);
  }

  /** Printing any nonempty list and parsing it again gives the same list, and the same count. */
  lemma ParseRoundTrip(macs: seq<Mac>)
    requires macs != [] && forall k | 0 <= k < |macs| :: IsMac(macs[k])
    ensures Join(macs) != "" && Parse(Join(macs)) == Some(macs)
  {
    ParseJoin(macs);
    WholeList(Join(macs), macs);
  }

  lemma WholeList(s: string, macs: seq<Mac>)
    requires s != "" && s[0] != ',' && Commas(s) == |macs| - 1
    requires ParseMacs(s, |macs|) == Some(macs)
    ensures Parse(s) == Some(macs)
  {
    assert Expected(s) == |macs|;
  }

  // ---------- Other spellings ----------

  /** Digits are taken in either case, and printed in lower case. */
  lemma HexDigitIff(c: char, v: nat)
    ensures HexDigit(c) == Some(v)
            <==> v < 16 && (c == "0123456789abcdef"[v] || c == "0123456789ABCDEF"[v])
    ensures v < 16 ==> HexChar(v) == "0123456789abcdef"[v]
  {
  }

  predicate AllHex(s: string) {
    forall i | 0 <= i < |s| :: HexDigit(s[i]).Some?
  }

  function Numeral(digits: string): nat
    requires AllHex(digits)
  {
    if digits == "" then 0 else 16 * Numeral(digits[..|digits| - 1]) + HexDigit(digits[|digits| - 1]).value
  }

  lemma {:induction false} ReadHexOn(a: string, s: string, acc: nat)
    requires AllHex(a)
    ensures ReadHex(a + s, acc) == ReadHex(s, ReadHex(a, acc).0)
  {
    if a == "" {
      assert a + s == s;
    } else {
      assert (a + s)[0] == a[0] && (a + s)[1..] == a[1..] + s;
      ReadHexOn(a[1..], s, 16 * acc + HexDigit(a[0]).value);
    }
  }

  lemma {:induction false} ReadNumeral(digits: string)
    requires AllHex(digits)
    ensures ReadHex(digits, 0).0 == Numeral(digits)
    decreases |digits|
  {
    if digits != "" {
      var front, last := digits[..|digits| - 1], [digits[|digits| - 1]];
      ReadNumeral(front);
      ReadHexOn(front, last, 0);
      assert front + last == digits && last[1..] == "";
    }
  }

  predicate AllSpace(s: string) {
    forall i | 0 <= i < |s| :: s[i] in " \t\n\r" || s[i] == 11 as char || s[i] == 12 as char
  }

  /** How a byte may be written: after white space, any number of digits, of which the value modulo 256
      counts; beyond 64 bits the conversion saturates. */
  datatype Field = Field(space: string, digits: string) {
    predicate Valid() {
      AllSpace(space) && digits != "" && AllHex(digits)
    }

    function Text(): string {
      space + digits
    }

    function Value(): int
      requires Valid()
    {
      if Numeral(digits) >= 0x1_0000_0000_0000_0000 then 255 else Numeral(digits) % 256
    }
  }

  lemma ScanField(f: Field, rest: string)
    requires f.Valid() && (rest == "" || HexDigit(rest[0]).None?)
    ensures ScanByte(f.Text() + rest) == Some((f.Value(), rest))
  {
    var t := f.digits + rest;
    assert f.Text() + rest == f.space + t && t[0] == f.digits[0];
    assert HexDigit(t[..1][0]).Some?;
    SkipTo(f.space, t);
    ReadHexOn(f.digits, rest, 0);
    ReadNumeral(f.digits);
    assert ReadHex(t, 0) == ReadHex(t[1..], HexDigit(t[0]).value);
  }

  /** A field before a colon is scanned as its value, and the rest from there on. */
  lemma FieldThenMore(f: Field, s: string, more: string, n: nat)
    requires f.Valid() && n > 0 && s == f.Text() + (":" + more)
    ensures ScanFields(s, n) == [f.Value()] + ScanFields(more, n - 1)
  {
    ScanField(f, ":" + more);
    assert (":" + more)[1..] == more;
  }

  /** What is no number ends the scan: then an address has fewer than six fields and is invalid. */
  lemma ScanStops(s: string, space: string, t: string, n: nat)
    requires AllSpace(space) && s == space + t && (t == "" || (HexDigit(t[0]).None? && !AllSpace(t[..1])))
    ensures ScanByte(s).None? && ScanFields(s, n) == []
  {
    SkipTo(space, t);
  }

  lemma {:induction false} SkipTo(space: string, t: string)
    requires AllSpace(space) && (t == "" || !AllSpace(t[..1]))
    ensures SkipSpace(space + t) == t
  {
    if space == "" {
      assert space + t == t;
    } else {
      assert (space + t)[0] == space[0] && (space + t)[1..] == space[1..] + t;
      SkipTo(space[1..], t);
    }
  }
}

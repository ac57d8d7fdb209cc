/** Standard base64 (RFC 4648 section 4) as Go's `base64.StdEncoding` reads and writes it. */
module Base64 {
  import opened Common

  function Digit(n: nat): char
    requires n < 64
  {
    if n < 26 then ('A' as int + n) as char
    else if n < 52 then ('a' as int + (n - 26)) as char
    else if n < 62 then ('0' as int + (n - 52)) as char
    else if n == 62 then '+' else '/'
  }

  function Value(c: char): (r: Option<nat>)
    ensures r.Some? ==> r.value < 64
  {
    if 'A' <= c <= 'Z' then Some(c as int - 'A' as int)
    else if 'a' <= c <= 'z' then Some(c as int - 'a' as int + 26)
    else if '0' <= c <= '9' then Some(c as int - '0' as int + 52)
    else if c == '+' then Some(62)
    else if c == '/' then Some(63)
    else None
  }

  predicate AreSextets(q: seq<nat>) {
    forall i :: 0 <= i < |q| ==> q[i] < 64
  }

  function Digits(q: seq<nat>): (r: string)
    requires AreSextets(q)
    ensures |r| == |q| && forall i :: 0 <= i < |q| ==> r[i] == Digit(q[i]) && r[i] != '='
  {
    seq(|q|, i requires 0 <= i < |q| => Digit(q[i]))
  }

  /** The values of all digits, or none if some character is not a digit. */
  function Values(s: string): (r: Option<seq<nat>>)
    ensures r.Some? ==> AreSextets(r.value)
  {
    if |s| == 0 then Some([])
    else match (Value(s[0]), Values(s[1..])) {
      case (Some(v), Some(rest)) => Some([v] + rest)
      case _ => None
    }
  }

  /** The bits of a byte string in groups of six, the last group filled up with zeros. */
  function Sextets(b: Bytes): (q: seq<nat>)
    ensures AreSextets(q)
  {
    if |b| == 0 then []
    else
      var x := b[0] as int;
      if |b| == 1 then [x / 4, x % 4 * 16]
      else
        var y := b[1] as int;
        if |b| == 2 then [x / 4, x % 4 * 16 + y / 16, y % 16 * 4]
        else
          var z := b[2] as int;
          [x / 4, x % 4 * 16 + y / 16, y % 16 * 4 + z / 64, z % 64] + Sextets(b[3..])
  }

  /** Whole bytes out of groups of six bits; left-over bits are dropped. */
  function FromSextets(q: seq<nat>): Bytes
    requires AreSextets(q)
  {
    if |q| < 2 then ""
    else
      var x := (q[0] * 4 + q[1] / 16) as char;
      if |q| == 2 then [x]
      else
        var y := (q[1] % 16 * 16 + q[2] / 4) as char;
        if |q| == 3 then [x, y]
        else [x, y, (q[2] % 4 * 64 + q[3]) as char] + FromSextets(q[4..])
  }

  function Padding(n: nat): string {
    if n % 3 == 1 then "==" else if n % 3 == 2 then "=" else ""
  }

  function Encode(b: Bytes): string {
    Digits(Sextets(b)) + Padding(|b|)
  }

  /** Line ends are skipped wherever they occur. */
  function StripLineEnds(s: string): string {
    if |s| == 0 then ""
    else if s[0] == '\r' || s[0] == '\n' then StripLineEnds(s[1..])
    else [s[0]] + StripLineEnds(s[1..])
  }

  function Decode(s: string): Option<Bytes> {
    DecodeText(StripLineEnds(s))
  }

  /** Groups of four characters, with one or two padding characters in the last group only. The
      unused bits before padding are not checked: the encoding is not in strict mode. */
  function DecodeText(s: string): Option<Bytes> {
    if |s| % 4 != 0 then None
    else match Values(s[..|s| - PadCount(s)])
      case None => None
      case Some(q) => Some(FromSextets(q))
  }

  function PadCount(s: string): (n: nat)
    ensures n <= |s|
  {
    if |s| < 2 || s[|s| - 1] != '=' then 0 else if s[|s| - 2] != '=' then 1 else 2
  }

  /** The characters an encoding consists of: digits and padding. */
  predicate IsText(s: string) {
    forall i :: 0 <= i < |s| ==> s[i] == '=' || Value(s[i]).Some?
  }

  lemma {:induction false} DigitValue(n: nat)
    requires n < 64
    ensures Value(Digit(n)) == Some(n) && Digit(n) != '='
  {
  }

  lemma {:induction false} SextetsRoundTrip(b: Bytes)
    ensures FromSextets(Sextets(b)) == b
  {
    if |b| == 1 {
      TwoSextets(b);
    } else if |b| == 2 {
      ThreeSextets(b);
    } else if |b| > 2 {
      SextetsRoundTrip(b[3..]);
      FourSextets(b);
    }
  }

  lemma {:induction false} TwoSextets(b: Bytes)
    requires |b| == 1
    ensures FromSextets(Sextets(b)) == b
  {
    ThreeBytes(b[0] as int, 0, 0);
    assert FromSextets(Sextets(b)) == [b[0]];
    assert b == [b[0]];
  }

  lemma {:induction false} ThreeSextets(b: Bytes)
    requires |b| == 2
    ensures FromSextets(Sextets(b)) == b
  {
    ThreeBytes(b[0] as int, b[1] as int, 0);
    assert FromSextets(Sextets(b)) == [b[0], b[1]];
    assert b == [b[0], b[1]];
  }

  lemma {:induction false} FourSextets(b: Bytes)
    requires |b| > 2 && FromSextets(Sextets(b[3..])) == b[3..]
    ensures FromSextets(Sextets(b)) == b
  {
    var q, x, y, z := Sextets(b), b[0] as int, b[1] as int, b[2] as int;
    assert q[0] == x / 4 && q[1] == x % 4 * 16 + y / 16 && q[2] == y % 16 * 4 + z / 64 && q[3] == z % 64;
    assert q[4..] == Sextets(b[3..]);
    ThreeBytes(x, y, z);
    assert FromSextets(q) == [x as char, y as char, z as char] + FromSextets(q[4..]);
    assert b == [b[0], b[1], b[2]] + b[3..];
  }

  /** Three bytes survive being cut into four groups of six bits and put together again. */
  lemma {:induction false} ThreeBytes(x: nat, y: nat, z: nat)
    requires x < 256 && y < 256 && z < 256
    ensures x / 4 * 4 + (x % 4 * 16 + y / 16) / 16 == x
    ensures (x % 4 * 16 + y / 16) % 16 * 16 + (y % 16 * 4 + z / 64) / 4 == y
    ensures (y % 16 * 4 + z / 64) % 4 * 64 + z % 64 == z
  {
  }

  lemma {:induction false} ValuesOfDigits(q: seq<nat>)
    requires AreSextets(q)
    ensures Values(Digits(q)) == Some(q)
  {
    if |q| > 0 {
      DigitValue(q[0]);
      ValuesOfDigits(q[1..]);
      assert Digits(q)[1..] == Digits(q[1..]);
      assert q == [q[0]] + q[1..];
    }
  }

  lemma {:induction false} EncodeIsText(b: Bytes)
    ensures IsText(Encode(b))
    ensures |b| > 0 ==> |Encode(b)| > 0
  {
    var q := Sextets(b);
    forall i | 0 <= i < |Encode(b)| ensures Encode(b)[i] == '=' || Value(Encode(b)[i]).Some? {
      if i < |q| { DigitValue(q[i]); }
    }
  }

  lemma {:induction false} StripText(s: string)
    requires IsText(s)
    ensures StripLineEnds(s) == s
  {
    if |s| > 0 {
      assert s[0] == '=' || Value(s[0]).Some?;
      StripText(s[1..]);
    }
  }

  /** Digits and padding make up whole groups of four. */
  lemma {:induction false} PaddedLength(b: Bytes)
    ensures (|Sextets(b)| + |Padding(|b|)|) % 4 == 0
  {
    if |b| > 2 {
      PaddedLength(b[3..]);
      assert |b| % 3 == |b[3..]| % 3;
    }
  }

  /** Digits that fill up groups of four with padding decode to the bytes their bits make up. */
  lemma {:induction false} DecodePadded(d: string, q: seq<nat>, pad: string)
    requires AreSextets(q) && Values(d) == Some(q)
    requires |pad| <= 2 && (|d| + |pad|) % 4 == 0
    requires forall i :: 0 <= i < |d| ==> d[i] != '='
    requires forall i :: 0 <= i < |pad| ==> pad[i] == '='
    ensures DecodeText(d + pad) == Some(FromSextets(q))
  {
    var s := d + pad;
    assert PadCount(s) == |pad|;
    assert s[..|s| - |pad|] == d;
  }

  /** Decoding undoes encoding, for every byte string. */
  lemma {:induction false} TextRoundTrip(b: Bytes)
    ensures DecodeText(Encode(b)) == Some(b)
  {
    SextetsRoundTrip(b);
    PaddedLength(b);
    ValuesOfDigits(Sextets(b));
    DecodePadded(Digits(Sextets(b)), Sextets(b), Padding(|b|));
  }

  lemma {:induction false} RoundTrip(b: Bytes)
    ensures Decode(Encode(b)) == Some(b)
  {
    EncodeIsText(b);
    StripText(Encode(b));
    TextRoundTrip(b);
  }

  // ----- the alphabet and the bits

  lemma {:induction false} Capitals(n: nat)
    requires n < 26
    ensures Digit(n) == "ABCDEFGHIJKLMNOPQRSTUVWXYZ"[n]
  {
  }

  lemma {:induction false} SmallLetters(n: nat)
    requires n < 26
    ensures Digit(26 + n) == "abcdefghijklmnopqrstuvwxyz"[n]
  {
  }

  lemma {:induction false} OtherDigits(n: nat)
    requires n < 12
    ensures Digit(52 + n) == "0123456789+/"[n]
  {
  }

  /** Four digits are the number that three bytes are; fewer bytes are filled up with zero bits. */
  lemma {:induction false} SextetsAreNumbers(b: Bytes)
    ensures |b| == 1 ==> |Sextets(b)| == 2 && 64 * Sextets(b)[0] + Sextets(b)[1] == 16 * b[0] as int
    ensures |b| == 2 ==>
      && |Sextets(b)| == 3
      && 4096 * Sextets(b)[0] + 64 * Sextets(b)[1] + Sextets(b)[2] == 4 * (256 * b[0] as int + b[1] as int)
    ensures |b| > 2 ==>
      && |Sextets(b)| >= 4 && Sextets(b)[4..] == Sextets(b[3..])
      && 262144 * Sextets(b)[0] + 4096 * Sextets(b)[1] + 64 * Sextets(b)[2] + Sextets(b)[3]
         == 65536 * b[0] as int + 256 * b[1] as int + b[2] as int
  {
  }

  lemma {:induction false} ValuesIff(s: string)
    ensures Values(s).Some? <==> forall i :: 0 <= i < |s| ==> Value(s[i]).Some?
  {
    if |s| > 0 {
      ValuesIff(s[1..]);
      assert forall i :: 1 <= i < |s| ==> s[i] == s[1..][i - 1];
    }
  }

  /** Digits, and padding of the given length at the end. */
  predicate PaddedBy(t: string, pad: nat) {
    && pad <= |t| && pad <= 2
    && (forall i :: |t| - pad <= i < |t| ==> t[i] == '=')
    && (forall i :: 0 <= i < |t| - pad ==> t[i] != '=' && Value(t[i]).Some?)
  }

  lemma {:induction false} PadIs(t: string, pad: nat)
    requires PaddedBy(t, pad) && |t| % 4 == 0
    ensures PadCount(t) == pad
  {
    if |t| > 0 { assert |t| >= 4; }
  }

  /** Which texts decode: line ends apart, whole groups of four, digits throughout, and at most two
      padding characters, at the end. */
  lemma {:induction false} DecodesIff(s: string)
    ensures var t := StripLineEnds(s);
      Decode(s).Some? <==> |t| % 4 == 0 && exists pad: nat :: PaddedBy(t, pad)
  {
    var t := StripLineEnds(s);
    if |t| % 4 == 0 {
      if Values(t[..|t| - PadCount(t)]).Some? {
        DigitsPadded(t);
      } else {
        forall pad: nat ensures !PaddedBy(t, pad) { NotPadded(t, pad); }
      }
    }
  }

  lemma {:induction false} DigitsPadded(t: string)
    requires Values(t[..|t| - PadCount(t)]).Some?
    ensures PaddedBy(t, PadCount(t))
  {
    var digits := t[..|t| - PadCount(t)];
    ValuesIff(digits);
    forall i | 0 <= i < |digits| ensures t[i] != '=' && Value(t[i]).Some? {
      assert digits[i] == t[i] && Value('=').None?;
    }
  }

  lemma {:induction false} NotPadded(t: string, pad: nat)
    requires |t| % 4 == 0 && Values(t[..|t| - PadCount(t)]).None?
    ensures !PaddedBy(t, pad)
  {
    var digits := t[..|t| - PadCount(t)];
    ValuesIff(digits);
    var i :| 0 <= i < |digits| && Value(digits[i]).None?;
    assert digits[i] == t[i];
    PadIfPadded(t, pad);
  }

  lemma {:induction false} PadIfPadded(t: string, pad: nat)
    requires |t| % 4 == 0
    ensures PaddedBy(t, pad) ==> PadCount(t) == pad
  {
    if PaddedBy(t, pad) { PadIs(t, pad); }
  }
}

/** Hexadecimal text (RFC 4648 section 8): written in lower case, read in either case. */
module Hex {
  import opened Common

  function Digit(n: nat): char
    requires n < 16
  {
    if n < 10 then ('0' as int + n) as char else ('a' as int + (n - 10)) as char
  }

  function Lower(c: char): char {
    if 'A' <= c <= 'F' then (c as int + 32) as char else c
  }

  function LowerAll(s: string): (r: string)
    ensures |r| == |s| && forall i :: 0 <= i < |s| ==> r[i] == Lower(s[i])
  {
    seq(|s|, i requires 0 <= i < |s| => Lower(s[i]))
  }

  function Value(c: char): (r: Option<nat>)
    ensures r.Some? ==> r.value < 16
  {
    if '0' <= c <= '9' then Some(c as int - '0' as int)
    else if 'a' <= c <= 'f' then Some(c as int - 'a' as int + 10)
    else if 'A' <= c <= 'F' then Some(c as int - 'A' as int + 10)
    else None
  }

  function Encode(b: Bytes): string {
    if |b| == 0 then ""
    else [Digit(b[0] as int / 16), Digit(b[0] as int % 16)] + Encode(b[1..])
  }

  function Decode(s: string): Option<Bytes> {
    if |s| == 0 then Some("")
    else if |s| == 1 then None
    else match (Value(s[0]), Value(s[1]), Decode(s[2..])) {
      case (Some(hi), Some(lo), Some(rest)) => Some([(hi * 16 + lo) as char] + rest)
      case _ => None
    }
  }

  lemma {:induction false} DigitIff(c: char, n: nat)
    requires n < 16
    ensures Value(c) == Some(n) <==> Lower(c) == Digit(n)
  {
  }

  /** The first two characters spell the first byte, the others the rest. */
  lemma {:induction false} FirstByteIff(s: string, b: Bytes)
    requires |s| >= 2 && |b| > 0
    ensures LowerAll(s) == Encode(b) <==>
      && Lower(s[0]) == Digit(b[0] as int / 16) && Lower(s[1]) == Digit(b[0] as int % 16)
      && LowerAll(s[2..]) == Encode(b[1..])
  {
    var two := [Lower(s[0]), Lower(s[1])];
    assert LowerAll(s) == two + LowerAll(s[2..]);
    assert LowerAll(s)[..2] == two && LowerAll(s)[2..] == LowerAll(s[2..]);
    assert Encode(b)[..2] == [Digit(b[0] as int / 16), Digit(b[0] as int % 16)];
    assert Encode(b)[2..] == Encode(b[1..]);
  }

  lemma {:induction false} FirstByteValueIff(s: string, b: Bytes)
    requires |s| >= 2 && |b| > 0
    ensures Decode(s) == Some(b) <==>
      && Value(s[0]) == Some(b[0] as int / 16) && Value(s[1]) == Some(b[0] as int % 16)
      && Decode(s[2..]) == Some(b[1..])
  {
    assert b == [b[0]] + b[1..];
    if Decode(s) == Some(b) {
      assert Decode(s).value[1..] == Decode(s[2..]).value;
    }
  }

  /** Decoding succeeds on exactly the spellings of an encoding that differ in letter case. */
  lemma {:induction false} DecodeIffEncoding(s: string, b: Bytes)
    ensures Decode(s) == Some(b) <==> LowerAll(s) == Encode(b)
  {
    if |s| < 2 || |b| == 0 {
      assert LowerAll(s) == Encode(b) ==> |LowerAll(s)| == |Encode(b)|;
    } else {
      DecodeIffEncoding(s[2..], b[1..]);
      FirstByteIff(s, b);
      FirstByteValueIff(s, b);
      DigitIff(s[0], b[0] as int / 16);
      DigitIff(s[1], b[0] as int % 16);
    }
  }

  lemma {:induction false} Alphabet(n: nat)
    requires n < 16
    ensures Digit(n) == "0123456789abcdef"[n]
  {
  }

  /** Two digits for each byte, the higher one first. */
  lemma {:induction false} DigitsOf(b: Bytes, i: nat)
    requires i < |b|
    ensures |Encode(b)| == 2 * |b|
    ensures Encode(b)[2 * i] == Digit(b[i] as int / 16) && Encode(b)[2 * i + 1] == Digit(b[i] as int % 16)
    decreases i
  {
    EncodeLength(b);
    if i > 0 { DigitsOf(b[1..], i - 1); }
  }

  lemma {:induction false} EncodeLength(b: Bytes)
    ensures |Encode(b)| == 2 * |b|
  {
    if |b| > 0 { EncodeLength(b[1..]); }
  }
}

/** Base32 with the extended hex alphabet (RFC 4648 section 7), written without padding. */
module Base32Hex {
  import opened Common

  function Digit(n: nat): char
    requires n < 32
  {
    if n < 10 then ('0' as int + n) as char else ('A' as int + (n - 10)) as char
  }

  /** How many digits `n` bytes take. */
  function Length(n: nat): nat {
    (8 * n + 4) / 5
  }

  /** The bits of five bytes in eight groups of five. */
  function Group(x: seq<nat>): (r: seq<nat>)
    requires |x| == 5 && forall i :: 0 <= i < 5 ==> x[i] < 256
    ensures |r| == 8 && forall i :: 0 <= i < 8 ==> r[i] < 32
  {
    [x[0] / 8, x[0] % 8 * 4 + x[1] / 64, x[1] / 2 % 32, x[1] % 2 * 16 + x[2] / 16,
     x[2] % 16 * 2 + x[3] / 128, x[3] / 4 % 32, x[3] % 4 * 8 + x[4] / 32, x[4] % 32]
  }

  /** The first five bytes, missing ones read as zero. */
  function FirstFive(b: Bytes): (x: seq<nat>)
    ensures |x| == 5 && forall i :: 0 <= i < 5 ==> x[i] < 256
    ensures forall i :: 0 <= i < 5 ==> x[i] == if i < |b| then b[i] as int else 0
  {
    seq(5, i => if 0 <= i < |b| then b[i] as int else 0)
  }

  /** A last group of fewer than five bytes yields only the digits that carry bits. */
  function Quintets(b: Bytes): (r: seq<nat>)
    ensures |r| == Length(|b|) && forall i :: 0 <= i < |r| ==> r[i] < 32
  {
    if |b| == 0 then []
    else if |b| < 5 then Group(FirstFive(b))[..Length(|b|)]
    else Group(FirstFive(b)) + Quintets(b[5..])
  }

  function Encode(b: Bytes): (r: string)
    ensures |r| == Length(|b|)
    ensures forall i :: 0 <= i < |r| ==> '0' <= r[i] <= '9' || 'A' <= r[i] <= 'V'
  {
    var q := Quintets(b);
    seq(|q|, i requires 0 <= i < |q| => Digit(q[i]))
  }

  lemma {:induction false} DigitInjective(m: nat, n: nat)
    requires m < 32 && n < 32 && Digit(m) == Digit(n)
    ensures m == n
  {
  }

  /** The first digits determine the first bytes: two digits one byte, four two bytes, and so on. */
  lemma {:induction false} GroupInjective(x: seq<nat>, y: seq<nat>, n: nat)
    requires |x| == |y| == 5 && n <= 5
    requires forall i :: 0 <= i < 5 ==> x[i] < 256 && y[i] < 256
    requires forall i :: 0 <= i < Length(n) ==> Group(x)[i] == Group(y)[i]
    ensures forall i :: 0 <= i < n ==> x[i] == y[i]
  {
    var g, h := Group(x), Group(y);
    if n > 0 {
      assert g[0] == h[0] && g[1] == h[1];
      FirstByte(x[0], x[1], y[0], y[1]);
    }
    if n > 1 {
      assert g[2] == h[2] && g[3] == h[3];
      SecondByte(x[1], x[2], y[1], y[2]);
    }
    if n > 2 {
      assert g[4] == h[4];
      ThirdByte(x[2], x[3], y[2], y[3]);
    }
    if n > 3 {
      assert g[5] == h[5] && g[6] == h[6];
      FourthByte(x[3], x[4], y[3], y[4]);
    }
    if n > 4 {
      assert g[7] == h[7];
      LastByte(x[4], y[4]);
    }
  }

  lemma {:induction false} FirstByte(a: nat, b: nat, c: nat, d: nat)
    requires b < 256 && d < 256 && a / 8 == c / 8 && a % 8 * 4 + b / 64 == c % 8 * 4 + d / 64
    ensures a == c && b / 64 == d / 64
  {
  }

  lemma {:induction false} SecondByte(a: nat, b: nat, c: nat, d: nat)
    requires b < 256 && d < 256 && a / 64 == c / 64
    requires a / 2 % 32 == c / 2 % 32 && a % 2 * 16 + b / 16 == c % 2 * 16 + d / 16
    ensures a == c && b / 16 == d / 16
  {
    LowBit(a);
    LowBit(c);
    assert b / 16 < 16 && d / 16 < 16;
  }

  /** The bits above the lowest six, the five below them, and the last one. */
  lemma {:induction false} LowBit(a: nat)
    ensures a == 64 * (a / 64) + 2 * (a / 2 % 32) + a % 2
  {
    var q, s := a / 64, a % 64;
    assert a == 64 * q + s;
    assert a / 2 == 32 * q + s / 2;
    RemainderIs(a / 2, q, s / 2);
  }

  /** The bits above the lowest seven, the five below them, and the last two. */
  lemma {:induction false} LowBits(a: nat)
    ensures a == 128 * (a / 128) + 4 * (a / 4 % 32) + a % 4
  {
    var q, s := a / 128, a % 128;
    assert a == 128 * q + s;
    assert a / 4 == 32 * q + s / 4;
    RemainderIs(a / 4, q, s / 4);
  }

  lemma {:induction false} RemainderIs(n: nat, q: nat, r: nat)
    requires r < 32 && n == 32 * q + r
    ensures n % 32 == r
  {
  }

  lemma {:induction false} ThirdByte(a: nat, b: nat, c: nat, d: nat)
    requires b < 256 && d < 256 && a / 16 == c / 16 && a % 16 * 2 + b / 128 == c % 16 * 2 + d / 128
    ensures a == c && b / 128 == d / 128
  {
  }

  lemma {:induction false} FourthByte(a: nat, b: nat, c: nat, d: nat)
    requires b < 256 && d < 256 && a / 128 == c / 128
    requires a / 4 % 32 == c / 4 % 32 && a % 4 * 8 + b / 32 == c % 4 * 8 + d / 32
    ensures a == c && b / 32 == d / 32
  {
    LowBits(a);
    LowBits(c);
    assert b / 32 < 8 && d / 32 < 8;
  }

  lemma {:induction false} LastByte(a: nat, c: nat)
    requires a / 32 == c / 32 && a % 32 == c % 32
    ensures a == c
  {
  }

  lemma {:induction false} QuintetsInjective(a: Bytes, b: Bytes)
    requires Quintets(a) == Quintets(b)
    ensures a == b
    decreases |a|
  {
    assert |a| == |b|;
    var n := if |a| < 5 then |a| else 5;
    assert forall i :: 0 <= i < Length(n) ==> Quintets(a)[i] == Group(FirstFive(a))[i];
    assert forall i :: 0 <= i < Length(n) ==> Quintets(b)[i] == Group(FirstFive(b))[i];
    GroupInjective(FirstFive(a), FirstFive(b), n);
    assert forall i :: 0 <= i < n ==> a[i] as int == FirstFive(a)[i] == FirstFive(b)[i] == b[i] as int;
    if |a| >= 5 {
      assert Quintets(a)[8..] == Quintets(a[5..]) && Quintets(b)[8..] == Quintets(b[5..]);
      QuintetsInjective(a[5..], b[5..]);
      assert a == a[..5] + a[5..] && b == b[..5] + b[5..];
    }
  }

  /** Different byte strings have different encodings. */
  lemma {:induction false} Injective(a: Bytes, b: Bytes)
    requires Encode(a) == Encode(b)
    ensures a == b
  {
    var p, q := Quintets(a), Quintets(b);
    assert |p| == |Encode(a)| == |Encode(b)| == |q|;
    forall i | 0 <= i < |p| ensures p[i] == q[i] {
      assert Encode(a)[i] == Digit(p[i]) && Encode(b)[i] == Digit(q[i]);
      DigitInjective(p[i], q[i]);
    }
    QuintetsInjective(a, b);
  }

  lemma {:induction false} Alphabet(n: nat)
    requires n < 32
    ensures Digit(n) == "0123456789ABCDEFGHIJKLMNOPQRSTUV"[n]
  {
  }

  /** Eight digits are the number that five bytes are. */
  lemma {:induction false} GroupIsNumber(x: seq<nat>)
    requires |x| == 5 && forall i :: 0 <= i < 5 ==> x[i] < 256
    ensures var g := Group(x);
      32 * (32 * (32 * (32 * (32 * (32 * (32 * g[0] + g[1]) + g[2]) + g[3]) + g[4]) + g[5]) + g[6]) + g[7]
      == 256 * (256 * (256 * (256 * x[0] + x[1]) + x[2]) + x[3]) + x[4]
  {
    var g := Group(x);
    LowBit(x[1]);
    LowBits(x[3]);
    assert 32 * g[0] + g[1] == 4 * x[0] + x[1] / 64;
    assert 32 * (x[1] % 2) + 2 * (x[2] / 16) + x[2] % 16 / 8 == 32 * (x[1] % 2) + x[2] / 8;
    assert 32 * (32 * g[0] + g[1]) + g[2] == 128 * x[0] + x[1] / 2;
    assert 32 * (128 * x[0] + x[1] / 2) + g[3] == 4096 * x[0] + 16 * x[1] + x[2] / 16;
    assert 32 * (4096 * x[0] + 16 * x[1] + x[2] / 16) + g[4] == 131072 * x[0] + 512 * x[1] + 2 * x[2] + x[3] / 128;
    assert 32 * (131072 * x[0] + 512 * x[1] + 2 * x[2] + x[3] / 128) + g[5]
        == 4194304 * x[0] + 16384 * x[1] + 64 * x[2] + x[3] / 4;
  }
}

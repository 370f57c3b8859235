/**
  The base64url helpers that carry keys in and out of JWKs. `Encode` and `Decode` stand for the library's base64
  (section 4 of RFC 4648); the URL-safe alphabet and the dropped padding are section 5.
 */
module Base64Url {
  import opened Wrappers

  type Byte = b: int | 0 <= b < 256

  type Sextet = v: int | 0 <= v < 64

  // ---------- bytes and sextets ----------

  /** Three bytes become four sextets; one or two bytes left over become two or three, filled up with zero bits. */
  function Sextets(b: seq<Byte>): seq<Sextet> {
    if |b| == 0 then []
    else if |b| == 1 then [b[0] / 4, b[0] % 4 * 16]
    else if |b| == 2 then [b[0] / 4, b[0] % 4 * 16 + b[1] / 16, b[1] % 16 * 4]
    else [b[0] / 4, b[0] % 4 * 16 + b[1] / 16, b[1] % 16 * 4 + b[2] / 64, b[2] % 64] + Sextets(b[3..])
  }

  function First(v0: int, v1: int): Byte
    requires 0 <= v0 < 64 && 0 <= v1 < 64
  {
    v0 * 4 + v1 / 16
  }

  function Second(v1: int, v2: int): Byte
    requires 0 <= v1 < 64 && 0 <= v2 < 64
  {
    v1 % 16 * 16 + v2 / 4
  }

  function Third(v2: int, v3: int): Byte
    requires 0 <= v2 < 64 && 0 <= v3 < 64
  {
    v2 % 4 * 64 + v3
  }

  /** Four sextets become three bytes; two or three left over become one or two. */
  function Bytes(v: seq<Sextet>): seq<Byte> {
    if |v| < 2 then []
    else if |v| == 2 then [First(v[0], v[1])]
    else if |v| == 3 then [First(v[0], v[1]), Second(v[1], v[2])]
    else [First(v[0], v[1]), Second(v[1], v[2]), Third(v[2], v[3])] + Bytes(v[4..])
  }

  lemma TripleRegrouped(x: Byte, y: Byte, z: Byte)
    ensures First(x / 4, x % 4 * 16 + y / 16) == x
    ensures Second(x % 4 * 16 + y / 16, y % 16 * 4 + z / 64) == y
    ensures Third(y % 16 * 4 + z / 64, z % 64) == z
  {
  }

  /** Bytes left over are regrouped with zero bits. */
  lemma LeftOverRegrouped(x: Byte, y: Byte)
    ensures First(x / 4, x % 4 * 16) == x
    ensures First(x / 4, x % 4 * 16 + y / 16) == x && Second(x % 4 * 16 + y / 16, y % 16 * 4) == y
  {
    TripleRegrouped(x, y, 0);
    TripleRegrouped(x, 0, 0);
  }

  lemma BytesStep(v0: Sextet, v1: Sextet, v2: Sextet, v3: Sextet, rest: seq<Sextet>)
    ensures Bytes([v0, v1, v2, v3] + rest) == [First(v0, v1), Second(v1, v2), Third(v2, v3)] + Bytes(rest)
  {
    assert ([v0, v1, v2, v3] + rest)[4..] == rest;
  }

  lemma {:induction false} BytesOfSextets(b: seq<Byte>)
    ensures Bytes(Sextets(b)) == b
  {
    if |b| == 0 {
    } else if |b| == 1 {
      LeftOverRegrouped(b[0], 0);
    } else if |b| == 2 {
      LeftOverRegrouped(b[0], b[1]);
    } else {
      BytesOfSextets(b[3..]);
      TripleRegrouped(b[0], b[1], b[2]);
      BytesStep(b[0] / 4, b[0] % 4 * 16 + b[1] / 16, b[1] % 16 * 4 + b[2] / 64, b[2] % 64, Sextets(b[3..]));
    }
  }

  // ---------- the standard text ----------

  function Symbol(v: Sextet): char {
    if v < 26 then 'A' + v as char
    else if v < 52 then 'a' + (v - 26) as char
    else if v < 62 then '0' + (v - 52) as char
    else if v == 62 then '+'
    else '/'
  }

  function Value(c: char): Option<Sextet> {
    if 'A' <= c <= 'Z' then Some((c - 'A') as int)
    else if 'a' <= c <= 'z' then Some((c - 'a') as int + 26)
    else if '0' <= c <= '9' then Some((c - '0') as int + 52)
    else if c == '+' then Some(62)
    else if c == '/' then Some(63)
    else None
  }

  lemma SymbolValue(v: Sextet)
    ensures Value(Symbol(v)) == Some(v)
  {
  }

  function Text(v: seq<Sextet>): string {
    seq(|v|, i requires 0 <= i < |v| => Symbol(v[i]))
  }

  predicate InAlphabet(s: string) {
    forall i | 0 <= i < |s| :: Value(s[i]).Some?
  }

  function Values(s: string): seq<Sextet>
    requires InAlphabet(s)
  {
    seq(|s|, i requires 0 <= i < |s| => Value(s[i]).value)
  }

  lemma ValuesOfText(v: seq<Sextet>)
    ensures InAlphabet(Text(v)) && Values(Text(v)) == v
  {
    forall i | 0 <= i < |v|
      ensures Value(Text(v)[i]) == Some(v[i])
    {
      SymbolValue(v[i]);
    }
  }

  function Padding(n: nat): string {
    seq(n, _ => '=')
  }

  /** How many padding characters the encoding of `b` ends in. */
  function PaddingOf(b: seq<Byte>): nat {
    if |b| % 3 == 0 then 0 else 3 - |b| % 3
  }

  function Encode(b: seq<Byte>): string {
    Text(Sextets(b)) + Padding(PaddingOf(b))
  }

  /** The text without its last one or two characters if those are padding. */
  function Unpad(s: string): string {
    if |s| >= 2 && s[|s| - 2..] == "==" then s[..|s| - 2]
    else if |s| >= 1 && s[|s| - 1] == '=' then s[..|s| - 1]
    else s
  }

  /** Decoding of padded text; `None` for text that is not the encoding of anything. */
  function Decode(s: string): Option<seq<Byte>> {
    if |s| % 4 != 0 || !InAlphabet(Unpad(s)) then None else Some(Bytes(Values(Unpad(s))))
  }

  lemma {:induction false} SextetsLength(b: seq<Byte>)
    ensures (|Sextets(b)| + PaddingOf(b)) % 4 == 0
  {
    if |b| <= 2 {
    } else {
      SextetsLength(b[3..]);
      PaddingStep(|b|);
      assert |Sextets(b)| == 4 + |Sextets(b[3..])|;
    }
  }

  lemma PaddingStep(n: nat)
    requires n > 2
    ensures (n - 3) % 3 == n % 3
  {
  }

  lemma UnpadPadding(s: string, n: nat)
    requires n <= 2 && InAlphabet(s)
    ensures Unpad(s + Padding(n)) == s
  {
    var t := s + Padding(n);
    assert n > 0 ==> t[|t| - 1] == '=';
    assert n == 0 && s != [] ==> t[|t| - 1] == s[|s| - 1];
    assert n == 2 ==> t[|t| - 2..] == "==";
    assert n == 1 && s != [] ==> t[|t| - 2] == s[|s| - 1];
  }

  lemma DecodeEncode(b: seq<Byte>)
    ensures Decode(Encode(b)) == Some(b)
  {
    SextetsLength(b);
    ValuesOfText(Sextets(b));
    UnpadPadding(Text(Sextets(b)), PaddingOf(b));
    BytesOfSextets(b);
  }

  // ---------- the URL-safe alphabet ----------

  function Replace(s: string, from: char, to: char): string {
    seq(|s|, i requires 0 <= i < |s| => if s[i] == from then to else s[i])
  }

  /** Drops all trailing padding. */
  function StripPadding(s: string): string {
    if s != [] && s[|s| - 1] == '=' then StripPadding(s[..|s| - 1]) else s
  }

  function UrlEncode(b: seq<Byte>): string {
    StripPadding(Replace(Replace(Encode(b), '+', '-'), '/', '_'))
  }

  /** Padding to a multiple of four. */
  function PadToFour(s: string): string {
    match |s| % 4
    case 1 => s + "==="
    case 2 => s + "=="
    case 3 => s + "="
    case _ => s
  }

  function UrlDecode(s: string): Option<seq<Byte>> {
    Decode(PadToFour(Replace(Replace(s, '-', '+'), '_', '/')))
  }

  /** The padding is rebuilt one character at a time. */
  method Base64UrlDecode(s: string) returns (r: Option<seq<Byte>>)
    ensures r == UrlDecode(s)
  {
    var b64 := Replace(Replace(s, '-', '+'), '_', '/');
    ghost var start := b64;
    while |b64| % 4 != 0
      invariant |start| <= |b64| && b64[..|start|] == start
      invariant forall i | |start| <= i < |b64| :: b64[i] == '='
      invariant |b64| <= |PadToFour(start)|
      decreases |PadToFour(start)| - |b64|
    {
      b64 := b64 + "=";
    }
    assert b64 == PadToFour(start);
    r := Decode(b64);
  }

  predicate IsUrlSafe(c: char) {
    'A' <= c <= 'Z' || 'a' <= c <= 'z' || '0' <= c <= '9' || c == '-' || c == '_'
  }

  lemma {:induction false} StripPaddingOf(s: string, n: nat)
    requires s == [] || s[|s| - 1] != '='
    ensures StripPadding(s + Padding(n)) == s
  {
    var t := s + Padding(n);
    if n == 0 {
      assert t == s;
    } else {
      StripPaddingOf(s, n - 1);
      assert t[..|t| - 1] == s + Padding(n - 1);
    }
  }

  /** A URL-safe encoding is the standard one, symbol by symbol, without padding. */
  lemma UrlEncodeShape(b: seq<Byte>)
    ensures UrlEncode(b) == Replace(Replace(Text(Sextets(b)), '+', '-'), '/', '_')
  {
    ValuesOfText(Sextets(b));
    var s := Replace(Replace(Text(Sextets(b)), '+', '-'), '/', '_');
    assert Replace(Replace(Encode(b), '+', '-'), '/', '_') == s + Padding(PaddingOf(b));
    StripPaddingOf(s, PaddingOf(b));
  }

  lemma UrlEncodeIsSafe(b: seq<Byte>)
    ensures forall i | 0 <= i < |UrlEncode(b)| :: IsUrlSafe(UrlEncode(b)[i])
  {
    UrlEncodeShape(b);
    ValuesOfText(Sextets(b));
    forall i | 0 <= i < |UrlEncode(b)|
      ensures IsUrlSafe(UrlEncode(b)[i])
    {
      assert Value(Text(Sextets(b))[i]).Some?;
    }
  }

  // ---------- what the text spells ----------

  /** The number that digits to this base spell. */
  function Number(digits: seq<int>, base: nat): int {
    if digits == [] then 0 else Number(digits[..|digits| - 1], base) * base + digits[|digits| - 1]
  }

  lemma NumberOfFour(a: int, b: int, c: int, d: int, base: nat)
    ensures Number([a], base) == a && Number([a, b], base) == a * base + b
    ensures Number([a, b, c], base) == (a * base + b) * base + c
    ensures Number([a, b, c, d], base) == ((a * base + b) * base + c) * base + d
  {
    assert [a][..0] == [] && [a, b][..1] == [a] && [a, b, c][..2] == [a, b] && [a, b, c, d][..3] == [a, b, c];
  }

  /** Each full group of three bytes is the same number as its four symbols, to base 256 and to base 64. */
  lemma {:induction false} GroupsSpellSame(b: seq<Byte>, k: nat)
    requires 3 * k + 3 <= |b|
    ensures 4 * k + 4 <= |Sextets(b)|
    ensures Number(b[3 * k..3 * k + 3], 256) == Number(Sextets(b)[4 * k..4 * k + 4], 64)
  {
    if k == 0 {
      var v := Sextets(b);
      assert b[0..3] == [b[0], b[1], b[2]] && v[0..4] == [v[0], v[1], v[2], v[3]];
      NumberOfFour(b[0], b[1], b[2], 0, 256);
      NumberOfFour(v[0], v[1], v[2], v[3], 64);
    } else {
      GroupsSpellSame(b[3..], k - 1);
      FirstGroup(b);
      DropThenTake(b, 3, 3 * k - 3);
      DropThenTake(Sextets(b), 4, 4 * k - 4);
    }
  }

  lemma FirstGroup(b: seq<Byte>)
    requires |b| >= 3
    ensures |Sextets(b)| == 4 + |Sextets(b[3..])| && Sextets(b)[4..] == Sextets(b[3..])
  {
  }

  lemma DropThenTake<T>(s: seq<T>, n: nat, i: nat)
    requires n + i <= |s|
    ensures s[n..][i..] == s[n + i..]
    ensures n + i + 3 <= |s| ==> s[n..][i..i + 3] == s[n + i..n + i + 3]
    ensures n + i + 4 <= |s| ==> s[n..][i..i + 4] == s[n + i..n + i + 4]
  {
  }

  /** One or two bytes left over are spelled with zero bits behind them. */
  lemma LeftOverSpellsSame(x: Byte, y: Byte)
    ensures |Sextets([x])| == 2 && Number(Sextets([x]), 64) == x * 16
    ensures |Sextets([x, y])| == 3 && Number(Sextets([x, y]), 64) == (x * 256 + y) * 4
  {
    var one, two := Sextets([x]), Sextets([x, y]);
    assert one == [one[0], one[1]] && two == [two[0], two[1], two[2]];
    NumberOfFour(one[0], one[1], 0, 0, 64);
    NumberOfFour(two[0], two[1], two[2], 0, 64);
  }

  lemma {:induction false} LastGroup(b: seq<Byte>)
    ensures |Sextets(b)| == |b| / 3 * 4 + (if |b| % 3 == 0 then 0 else |b| % 3 + 1)
    ensures Sextets(b)[|b| / 3 * 4..] == Sextets(b[|b| / 3 * 3..])
  {
    if |b| < 3 {
      assert b[0..] == b && Sextets(b)[0..] == Sextets(b);
    } else {
      var more := b[3..];
      LastGroup(more);
      assert |b| / 3 == |more| / 3 + 1 && |b| % 3 == |more| % 3;
      FirstGroup(b);
      DropThenTake(b, 3, |more| / 3 * 3);
      DropThenTake(Sextets(b), 4, |more| / 3 * 4);
    }
  }

  /** Each symbol of a URL-safe text is the one its value has in the URL-safe alphabet: the capitals from 0, the small
      letters from 26, the digits from 52, and then the hyphen and the underscore. */
  lemma UrlSymbols(b: seq<Byte>)
    ensures |UrlEncode(b)| == |Sextets(b)|
    ensures forall i | 0 <= i < |UrlEncode(b)| ::
              var c, v := UrlEncode(b)[i] as int, Sextets(b)[i];
              c == if v <= 25 then 'A' as int + v
                   else if v <= 51 then 'a' as int + v - 26
                   else if v <= 61 then '0' as int + v - 52
                   else if v == 62 then '-' as int else '_' as int
  {
    UrlEncodeShape(b);
    forall i | 0 <= i < |UrlEncode(b)|
      ensures UrlEncode(b)[i] == var c := Symbol(Sextets(b)[i]); if c == '+' then '-' else if c == '/' then '_' else c
    {
    }
  }

  /** Mapping to the URL-safe alphabet and back changes no symbol. */
  lemma AlphabetRoundTrip(s: string)
    requires InAlphabet(s)
    ensures Replace(Replace(Replace(Replace(s, '+', '-'), '/', '_'), '-', '+'), '_', '/') == s
  {
  }

  lemma PaddingRebuilt(s: string, n: nat)
    requires n <= 2 && (|s| + n) % 4 == 0
    ensures PadToFour(s) == s + Padding(n)
  {
    assert Padding(0) == "" && Padding(1) == "=" && Padding(2) == "==";
  }

  /** Decoding a URL-safe encoding gives back the bytes, for every length. */
  lemma UrlRoundTrip(b: seq<Byte>)
    ensures UrlDecode(UrlEncode(b)) == Some(b)
  {
    UrlEncodeShape(b);
    ValuesOfText(Sextets(b));
    AlphabetRoundTrip(Text(Sextets(b)));
    SextetsLength(b);
    PaddingRebuilt(Text(Sextets(b)), PaddingOf(b));
    DecodeEncode(b);
  }

  /** So different keys have different URL-safe texts. */
  lemma UrlEncodeInjective(a: seq<Byte>, b: seq<Byte>)
    ensures UrlEncode(a) == UrlEncode(b) <==> a == b
  {
    UrlRoundTrip(a);
    UrlRoundTrip(b);
  }
}

/**
  What the Base64 codec of ortp/src/b64.c is meant to compute, stated on values:
  groups as 24-bit numbers (section 4 of RFC 4648), lines as chunks of text, and
  decoding as a function of the significant characters only.
 */
module Base64Spec {

  /** A C `unsigned char`. */
  type Byte = x: int | 0 <= x < 256

  type Sextet = i: int | 0 <= i < 64

  const CRLF: string := "\r\n"

  // ---------- The alphabet ----------

  /** The character that stands for a six-bit value. */
  function SextetChar(i: Sextet): char {
    if i < 26 then 'A' + i as char
    else if i < 52 then 'a' + (i - 26) as char
    else if i < 62 then '0' + (i - 52) as char
    else if i == 62 then '+' else '/'
  }

  /** The decoding table: the value of an alphabet character, -1 for anything else. */
  function CharSextet(c: char): int {
    if 'A' <= c <= 'Z' then c as int - 'A' as int
    else if 'a' <= c <= 'z' then c as int - 'a' as int + 26
    else if '0' <= c <= '9' then c as int - '0' as int + 52
    else if c == '+' then 62
    else if c == '/' then 63
    else -1
  }

  predicate InAlphabet(c: char) { CharSextet(c) != -1 }

  /** The characters the decoder stores: the alphabet and the pad. */
  predicate IsSignificant(c: char) { c == '=' || InAlphabet(c) }

  predicate AllInAlphabet(t: string) { forall k :: 0 <= k < |t| ==> InAlphabet(t[k]) }

  predicate AllSignificant(t: string) { forall k :: 0 <= k < |t| ==> IsSignificant(t[k]) }

  // ---------- Encoding ----------

  function Number24(a: Byte, b: Byte, c: Byte): (n: int)
    ensures 0 <= n < 0x100_0000
  {
    (a * 256 + b) * 256 + c
  }

  /** Three bytes are one 24-bit number, written as four base-64 digits. */
  function EncodeGroup(a: Byte, b: Byte, c: Byte): (g: string)
    ensures |g| == 4
  {
    var n := Number24(a, b, c);
    [SextetChar(n / 64 / 64 / 64), SextetChar(n / 64 / 64 % 64), SextetChar(n / 64 % 64), SextetChar(n % 64)]
  }

  function Encode(s: seq<Byte>): string {
    if |s| == 0 then ""
    else if |s| == 1 then EncodeGroup(s[0], 0, 0)[..2] + "=="
    else if |s| == 2 then EncodeGroup(s[0], s[1], 0)[..3] + "="
    else EncodeGroup(s[0], s[1], s[2]) + Encode(s[3..])
  }

  /** Text cut into lines of `n` characters, CRLF between lines and none after the last; 0 is no limit. */
  function Wrap(t: string, n: nat): string {
    if n == 0 || |t| <= n then t
    else t[..n] + CRLF + Wrap(t[n..], n)
  }

  // ---------- Decoding ----------

  /** The value stored for a significant character; a pad counts as zero bits. */
  function SigValue(c: char): Sextet {
    if InAlphabet(c) then CharSextet(c) else 0
  }

  /** Number of pads at the end of a group, or of the part of a group read so far. */
  function Pads(g: string): (n: nat)
    ensures n <= |g|
  {
    if g == "" || g[|g| - 1] != '=' then 0 else 1 + Pads(g[..|g| - 1])
  }

  function Bytes24(w: Sextet, x: Sextet, y: Sextet, z: Sextet): (b: seq<Byte>)
    ensures |b| == 3
  {
    var n := ((w * 64 + x) * 64 + y) * 64 + z;
    [n / 256 / 256, n / 256 % 256, n % 256]
  }

  /** Exactly two trailing pads leave one byte and exactly one leaves two; any other count leaves three. */
  function GroupBytes(g: string): (b: seq<Byte>)
    requires |g| == 4
    ensures 1 <= |b| <= 3
  {
    var b := Bytes24(SigValue(g[0]), SigValue(g[1]), SigValue(g[2]), SigValue(g[3]));
    if Pads(g) == 2 then b[..1] else if Pads(g) == 1 then b[..2] else b
  }

  /** Whole groups up to and including the first one that ends in a pad. */
  function DecodeGroups(sig: string): seq<Byte> {
    if |sig| < 4 then []
    else GroupBytes(sig[..4]) + (if sig[3] == '=' then [] else DecodeGroups(sig[4..]))
  }

  /** The text without the characters that decoding passes over. */
  function Significant(t: string): (sig: string)
    ensures AllSignificant(sig)
    ensures |sig| <= |t|
  {
    if t == "" then ""
    else
      var last := t[|t| - 1];
      Significant(t[..|t| - 1]) + (if IsSignificant(last) then [last] else "")
  }

  function Decode(t: string): seq<Byte> {
    DecodeGroups(Significant(t))
  }

  /** Some whole group of significant characters ends in a pad. */
  ghost predicate PadStops(sig: string) {
    exists k :: 0 <= k < |sig| && k % 4 == 3 && sig[k] == '='
  }

  /** Decoding has come to its end within `t`. */
  ghost predicate Finished(t: string) {
    PadStops(Significant(t))
  }

  // ---------- Canonical text ----------

  /** A last group the encoder can produce: unused bits are zero (section 3.5 of RFC 4648). */
  predicate CanonicalTail(g: string)
    requires |g| == 4
  {
    && InAlphabet(g[0]) && InAlphabet(g[1])
    && (|| (InAlphabet(g[2]) && InAlphabet(g[3]))
        || (InAlphabet(g[2]) && SigValue(g[2]) % 4 == 0 && g[3] == '=')
        || (SigValue(g[1]) % 16 == 0 && g[2] == '=' && g[3] == '='))
  }

  predicate Canonical(t: string) {
    && |t| % 4 == 0
    && (t != "" ==> AllInAlphabet(t[..|t| - 4]) && CanonicalTail(t[|t| - 4..]))
  }
}

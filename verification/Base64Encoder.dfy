/**
  The encoder of ortp/src/b64.c as it works: bit slices, a table lookup per character,
  line breaks counted on the way, and a recursive call for the padded tail, all written
  into the caller's buffer.
 */
module Base64Encoder {
  import opened Base64Spec
  import opened Base64Laws
  import opened Base64Sizes
  import opened Arithmetic
  import opened Base64Bits
  import opened Lists

  datatype ReturnCode = Ok | InsufficientBuffer | TruncatedInput | DataError

  const B64_CHARS: string := "ABCDEFGHIJKLMNOPQRSTUVWXYZ" + "abcdefghijklmnopqrstuvwxyz" + "0123456789+/"

  // ---------- The table ----------

  lemma UpperRow(i: nat)
    requires i < 26
    ensures "ABCDEFGHIJKLMNOPQRSTUVWXYZ"[i] == SextetChar(i)
  {
  }

  lemma LowerRow(i: nat)
    requires i < 26
    ensures "abcdefghijklmnopqrstuvwxyz"[i] == SextetChar(26 + i)
  {
  }

  lemma DigitRow(i: nat)
    requires i < 12
    ensures "0123456789+/"[i] == SextetChar(52 + i)
  {
  }

  lemma TableChar(i: Sextet)
    ensures |B64_CHARS| == 64 && B64_CHARS[i] == SextetChar(i)
  {
    hide SextetChar;
    if i < 26 {
      UpperRow(i);
    } else if i < 52 {
      LowerRow(i - 26);
    } else {
      DigitRow(i - 52);
    }
  }

  /** The indexes cut out of three bytes are the base-64 digits of their 24-bit number, so the table spells the group. */
  lemma TableGroup(a: Byte, b: Byte, c: Byte, c0: Sextet, c1: Sextet, c2: Sextet, c3: Sextet)
    requires c0 == a / 4 && c1 == a % 4 * 16 + b / 16 && c2 == b % 16 * 4 + c / 64 && c3 == c % 64
    ensures |B64_CHARS| == 64
    ensures EncodeGroup(a, b, c) == [B64_CHARS[c0], B64_CHARS[c1], B64_CHARS[c2], B64_CHARS[c3]]
  {
    hide SextetChar, B64_CHARS;
    Digits64(Number24(a, b, c), c0, c1, c2, c3);
    TableChar(c0);
    TableChar(c1);
    TableChar(c2);
    TableChar(c3);
  }

  // ---------- What a run emits ----------

  /** Text in which every full line, the last one too, is followed by CRLF. */
  function Terminated(t: string, n: nat): string {
    if n == 0 || |t| < n then t
    else t[..n] + CRLF + Terminated(t[n..], n)
  }

  /** The last line is full, the tail is not padded and the buffer has room left: a CRLF is written after the text. */
  predicate TrailingBreak(s: seq<Byte>, destLen: nat, lineLen: nat) {
    && lineLen > 0 && s != [] && |s| % 3 == 0
    && |Encode(s)| % lineLen == 0
    && destLen != |Wrap(Encode(s), lineLen)|
  }

  /** All characters an accepted call writes. */
  function Emitted(s: seq<Byte>, destLen: nat, lineLen: nat): string {
    Wrap(Encode(s), lineLen) + (if TrailingBreak(s, destLen, lineLen) then CRLF else "")
  }

  /** Whole groups that end on a full line, and exactly one character more room than the size query asks for. */
  predicate OverrunsByOne(srcSize: nat, destLen: nat, lineLen: nat) {
    && lineLen > 0 && srcSize > 0 && srcSize % 3 == 0 && srcSize / 3 * 4 % lineLen == 0
    && destLen == EncodeQuery(srcSize, lineLen) + 1
  }

  /** An accepted call writes no more than the room announced, except for calls the sizes alone give away. */
  lemma EmittedFitsIff(s: seq<Byte>, destLen: nat, lineLen: nat)
    requires |s| < SIZE_MOD && lineLen < UINT_MOD
    ensures |Wrap(Encode(s), lineLen)| < SIZE_MOD && EncodeQuery(|s|, lineLen) <= destLen ==>
              (|Emitted(s, destLen, lineLen)| <= destLen <==> !OverrunsByOne(|s|, destLen, lineLen))
  {
    hide Encode, Wrap, EncodeQuery;
    EncodeQueryExactIff(s, lineLen);
    EncodedLength(s);
    if s == [] { EmittedNothing(destLen, lineLen); }
  }

  /** Such a call: 48 bytes in lines of 64 with 65 characters of room writes 66. */
  lemma OverrunningCall(s: seq<Byte>)
    requires |s| == 48
    ensures EncodeQuery(48, 64) == |Wrap(Encode(s), 64)| == 64
    ensures |Emitted(s, 65, 64)| == 66
  {
    hide Encode;
    EncodedLength(s);
    EncodeQueryExactIff(s, 64);
    assert Wrap(Encode(s), 64) == Encode(s);
  }

  /** Characters on the unfinished line after `x` characters in lines of `n`. */
  function Column(x: nat, n: nat): (c: nat)
    requires n > 0
    ensures c < n
    decreases x
  {
    if x < n then x else Column(x - n, n)
  }

  lemma {:induction false} ColumnIsRemainder(x: nat, n: nat)
    requires n > 0
    ensures Column(x, n) == x % n
    decreases x
  {
    if x < n {
      DivModUnique(x, 0, x, n);
    } else {
      DivModStep(x, n);
      ColumnIsRemainder(x - n, n);
    }
  }

  /** Lines of whole groups: a group never straddles two of them. */
  lemma {:induction false} ColumnStep(x: nat, n: nat)
    requires n > 0 && n % 4 == 0 && x % 4 == 0
    ensures Column(x, n) % 4 == 0 && Column(x, n) + 4 <= n
    ensures Column(x + 4, n) == if Column(x, n) + 4 == n then 0 else Column(x, n) + 4
    decreases x
  {
    if x >= n { ColumnStep(x - n, n); }
  }

  lemma {:induction false} TerminatedIsWrap(t: string, n: nat)
    requires n > 0
    ensures Terminated(t, n) == Wrap(t, n) + (if t != "" && Column(|t|, n) == 0 then CRLF else "")
  {
    if |t| == n {
      assert t[..n] == t;
    } else if |t| > n {
      TerminatedIsWrap(t[n..], n);
    }
  }

  /** Both forms of wrapping begin with the same full line and its break. */
  lemma FirstLine(t: string, g: string, n: nat)
    requires 0 < n <= |t| && g != ""
    ensures Wrap(t + g, n) == (t[..n] + CRLF) + Wrap(t[n..] + g, n)
    ensures Terminated(t, n) == (t[..n] + CRLF) + Terminated(t[n..], n)
  {
    assert (t + g)[..n] == t[..n] && (t + g)[n..] == t[n..] + g;
  }

  lemma OnlyLine(t: string, g: string, n: nat)
    requires n == 0 || (|t| < n && |t + g| <= n)
    ensures Wrap(t + g, n) == t + g && Terminated(t, n) == t
  {
  }

  /** Appending one group, as the loop does: the line break comes before it. */
  lemma {:induction false} WrapAppend(t: string, g: string, n: nat)
    requires n % 4 == 0 && |t| % 4 == 0 && |g| == 4
    ensures Wrap(t + g, n) == Terminated(t, n) + g
  {
    hide Wrap, Terminated, CRLF;
    if n == 0 || |t| < n {
      OnlyLine(t, g, n);
    } else {
      FirstLine(t, g, n);
      WrapAppend(t[n..], g, n);
      Regroup(t[..n] + CRLF, Terminated(t[n..], n), g);
    }
  }

  lemma {:induction false} WrapNotShorter(t: string, n: nat)
    ensures |Wrap(t, n)| >= |t|
  {
    if n != 0 && |t| > n { WrapNotShorter(t[n..], n); }
  }

  lemma {:induction false} TerminatedPrefix(t: string, k: nat, n: nat)
    requires k < |t|
    ensures |Wrap(t[..k], n)| <= |Terminated(t[..k], n)| < |Wrap(t, n)|
  {
    WrapNotShorter(t, n);
    if n != 0 && k >= n {
      TerminatedPrefix(t[n..], k - n, n);
      assert t[..k][..n] == t[..n] && t[..k][n..] == t[n..][..k - n];
    }
  }

  lemma EmittedPart(s: seq<Byte>, destLen: nat, lineLen: nat)
    requires |s| % 3 == 0 && |Wrap(Encode(s), lineLen)| != destLen
    ensures Emitted(s, destLen, lineLen) == Terminated(Encode(s), lineLen)
  {
    hide Wrap, Encode;
    EncodedLength(s);
    if lineLen > 0 {
      TerminatedIsWrap(Encode(s), lineLen);
      ColumnIsRemainder(|Encode(s)|, lineLen);
    } else {
      UnwrappedText(Encode(s));
    }
  }

  /** A further group, padded or not, follows the text so far and its last line break. */
  lemma WrapNextGroup(s: seq<Byte>, tail: seq<Byte>, destLen: nat, lineLen: nat)
    requires |s| % 3 == 0 && 1 <= |tail| <= 3 && lineLen % 4 == 0
    requires |Wrap(Encode(s), lineLen)| != destLen
    ensures Wrap(Encode(s + tail), lineLen) == Emitted(s, destLen, lineLen) + Encode(tail)
    ensures |Encode(s)| % 4 == 0 && |Encode(s + tail)| == |Encode(s)| + 4
  {
    hide Encode, Wrap, Terminated, Emitted;
    EncodeConcat(s, tail);
    EncodedLength(s);
    EncodedLength(tail);
    EmittedPart(s, destLen, lineLen);
    WrapAppend(Encode(s), Encode(tail), lineLen);
  }

  /** One turn of the loop: a group, then a line break if the line is full and the buffer is not. */
  lemma EmittedStep(s: seq<Byte>, g: seq<Byte>, destLen: nat, lineLen: nat)
    requires |s| % 3 == 0 && |g| == 3 && lineLen % 4 == 0
    requires |Wrap(Encode(s), lineLen)| != destLen
    ensures var before := Emitted(s, destLen, lineLen) + Encode(g);
            var full := lineLen > 0 && Column(|Encode(s)|, lineLen) + 4 == lineLen;
            Emitted(s + g, destLen, lineLen)
            == before + (if full && |before| != destLen then CRLF else "")
  {
    hide Encode, Wrap;
    WrapNextGroup(s, g, destLen, lineLen);
    if lineLen > 0 {
      ColumnStep(|Encode(s)|, lineLen);
      ColumnIsRemainder(|Encode(s + g)|, lineLen);
    }
  }

  lemma EncodeOneGroup(a: Byte, b: Byte, c: Byte)
    ensures Encode([a, b, c]) == EncodeGroup(a, b, c)
  {
    hide EncodeGroup;
    assert [a, b, c][3..] == [];
  }

  /** A padded tail never ends with a line break. */
  lemma EmittedTail(s: seq<Byte>, tail: seq<Byte>, destLen: nat, lineLen: nat)
    requires |s| % 3 == 0 && 1 <= |tail| <= 2 && lineLen % 4 == 0
    requires |Wrap(Encode(s), lineLen)| != destLen
    ensures Emitted(s + tail, destLen, lineLen) == Emitted(s, destLen, lineLen) + Encode(tail)
  {
    hide Encode, Wrap, Emitted;
    WrapNextGroup(s, tail, destLen, lineLen);
    NoTrailingBreak(s + tail, destLen, lineLen);
  }

  lemma NoTrailingBreak(s: seq<Byte>, destLen: nat, lineLen: nat)
    requires |s| % 3 != 0
    ensures Emitted(s, destLen, lineLen) == Wrap(Encode(s), lineLen)
  {
    hide Encode, Wrap;
  }

  /** Until the source is used up there is room for more. */
  lemma EmittedPrefix(s: seq<Byte>, i: nat, destLen: nat, lineLen: nat)
    requires i < |s| && i % 3 == 0 && |Wrap(Encode(s), lineLen)| <= destLen
    ensures |Wrap(Encode(s[..i]), lineLen)| < destLen
    ensures |Emitted(s[..i], destLen, lineLen)| < |Wrap(Encode(s), lineLen)|
  {
    hide Encode, Wrap, Terminated, Emitted;
    EncodeConcat(s[..i], s[i..]);
    assert s == s[..i] + s[i..];
    EncodedLength(s[i..]);
    var k := |Encode(s[..i])|;
    assert Encode(s)[..k] == Encode(s[..i]);
    TerminatedPrefix(Encode(s), k, lineLen);
    EmittedPart(s[..i], destLen, lineLen);
  }

  lemma EmittedWithin(s: seq<Byte>, i: nat, destLen: nat, lineLen: nat)
    requires i <= |s| && i % 3 == 0 && |Wrap(Encode(s), lineLen)| <= destLen
    ensures |Emitted(s[..i], destLen, lineLen)| <= |Emitted(s, destLen, lineLen)|
  {
    hide Encode, Wrap;
    if i < |s| {
      EmittedPrefix(s, i, destLen, lineLen);
    } else {
      assert s[..i] == s;
    }
  }

  /** Everything one turn of the loop needs to know, from the source position and the column. */
  lemma LoopStep(s: seq<Byte>, i: nat, g: seq<Byte>, destLen: nat, lineLen: nat, len: nat)
    requires i + 3 <= |s| && i % 3 == 0 && lineLen % 4 == 0 && |Wrap(Encode(s), lineLen)| <= destLen
    requires lineLen > 0 ==> len == Column(|Encode(s[..i])|, lineLen)
    requires g == s[i..i + 3]
    ensures lineLen > 0 ==> len % 4 == 0 && len + 4 <= lineLen
    ensures var e := Emitted(s[..i], destLen, lineLen);
            var e' := Emitted(s[..i + 3], destLen, lineLen);
            var breaks := lineLen > 0 && len + 4 == lineLen && |e| + 4 != destLen;
            && |Encode(g)| == 4
            && e' == e + Encode(g) + (if breaks then CRLF else "")
            && |e'| <= |Emitted(s, destLen, lineLen)|
            && (lineLen > 0 && i + 3 < |s| ==>
                  Column(|Encode(s[..i + 3])|, lineLen) == if breaks then 0 else len + 4)
  {
    hide Encode, Wrap, Emitted, Column;
    EmittedPrefix(s, i, destLen, lineLen);
    EmittedStep(s[..i], g, destLen, lineLen);
    EmittedWithin(s, i + 3, destLen, lineLen);
    WrapNextGroup(s[..i], g, destLen, lineLen);
    EncodedLength(g);
    assert s[..i + 3] == s[..i] + g;
    if lineLen > 0 { ColumnStep(|Encode(s[..i])|, lineLen); }
    if i + 3 < |s| { EmittedPrefix(s, i + 3, destLen, lineLen); }
  }

  // ---------- The code ----------

  /** A buffer with `text` written over it from `off` on. */
  function Overwrite<T>(buffer: seq<T>, off: nat, text: seq<T>): (r: seq<T>)
    requires off + |text| <= |buffer|
    ensures |r| == |buffer|
  {
    buffer[..off] + text + buffer[off + |text|..]
  }

  lemma OverwriteTwice<T>(buffer: seq<T>, off: nat, t: seq<T>, u: seq<T>)
    requires off + |t| + |u| <= |buffer|
    ensures Overwrite(Overwrite(buffer, off, t), off + |t|, u) == Overwrite(buffer, off, t + u)
  {
  }

  method StoreGroup(dest: array<char>, p: nat, a: Byte, b: Byte, c: Byte)
    requires p + 4 <= dest.Length
    modifies dest
    ensures |Encode([a, b, c])| == 4 && dest[..] == Overwrite(old(dest[..]), p, Encode([a, b, c]))
  {
    hide Encode, EncodeGroup, B64_CHARS;
    var c0, c1, c2, c3 := SliceBytes(a, b, c);
    EncodeOneGroup(a, b, c);
    TableGroup(a, b, c, c0, c1, c2, c3);
    dest[p] := B64_CHARS[c0];
    dest[p + 1] := B64_CHARS[c1];
    dest[p + 2] := B64_CHARS[c2];
    dest[p + 3] := B64_CHARS[c3];
  }

  method StoreBreak(dest: array<char>, p: nat)
    requires p + 2 <= dest.Length
    modifies dest
    ensures dest[..] == Overwrite(old(dest[..]), p, CRLF)
  {
    dest[p] := '\r';
    dest[p + 1] := '\n';
  }

  /** The pads that overwrite the end of the group the recursive call wrote. */
  method StorePads(dest: array<char>, p: nat, n: nat)
    requires p + n <= dest.Length
    modifies dest
    ensures dest[..] == Overwrite(old(dest[..]), p, seq(n, _ => '='))
  {
    for k := 0 to n
      invariant forall j :: p <= j < p + k ==> dest[j] == '='
      invariant forall j :: 0 <= j < p || p + k <= j < dest.Length ==> dest[j] == old(dest[j])
    {
      dest[p + k] := '=';
    }
  }

  lemma EmittedNothing(destLen: nat, lineLen: nat)
    ensures Encode([]) == "" && Emitted([], destLen, lineLen) == ""
  {
  }

  /** The group of a short tail boosted with zero bytes, with pads put over its end. */
  lemma PaddedTail(tail: seq<Byte>)
    requires 1 <= |tail| <= 2
    ensures var g := Encode(tail + seq(3 - |tail|, _ => 0));
            && |g| == 4
            && Emitted(tail + seq(3 - |tail|, _ => 0), 12, 0) == g
            && Encode(tail) == g[..1 + |tail|] + seq(3 - |tail|, _ => '=')
  {
    hide EncodeGroup;
    var boosted := tail + seq(3 - |tail|, _ => 0);
    EncodeOneGroup(boosted[0], boosted[1], boosted[2]);
    assert boosted == [boosted[0], boosted[1], boosted[2]];
    assert boosted[0] == tail[0] && boosted[2] == 0;
    if |tail| == 1 {
      assert boosted[1] == 0;
      assert seq(2, _ => '=') == "==";
    } else {
      assert seq(1, _ => '=') == "=";
    }
  }

  /**
    Writes the encoding of `src` into `dest` from `off` on, told that there is room for `destLen`
    characters; a null `dest` only asks for the size. The encoded text has to be small enough to be
    addressed, and the characters an accepted call writes have to lie inside the buffer.
   */
  method EncodeAt(src: seq<Byte>, dest: array?<char>, off: nat, destLen: nat, lineLen: nat)
    returns (total: nat, rc: ReturnCode)
    requires lineLen % 4 == 0 && lineLen < UINT_MOD
    requires |src| < SIZE_MOD
    requires dest != null ==> |Wrap(Encode(src), lineLen)| < SIZE_MOD
    requires dest != null && EncodeQuery(|src|, lineLen) <= destLen
             ==> off + |Emitted(src, destLen, lineLen)| <= dest.Length
    modifies if dest == null then {} else {dest}
    ensures dest == null ==> total == EncodeQuery(|src|, lineLen) && rc == Ok
    ensures dest != null && destLen < EncodeQuery(|src|, lineLen) ==>
              total == 0 && rc == InsufficientBuffer && dest[..] == old(dest[..])
    ensures dest != null && destLen >= EncodeQuery(|src|, lineLen) ==>
              && total == EncodeQuery(|src|, lineLen) && rc == Ok
              && dest[..] == Overwrite(old(dest[..]), off, Emitted(src, destLen, lineLen))
    decreases |src| % 3
  {
    hide Encode, EncodeGroup, Wrap, B64_CHARS, EncodeQuery, Emitted, Overwrite;
    total, rc := EncodeQuery(|src|, lineLen), Ok;
    if dest == null {
      return;
    } else if destLen < total {
      return 0, InsufficientBuffer;
    }
    assert src == [] || |Wrap(Encode(src), lineLen)| <= destLen by { EncodeQueryExactIff(src, lineLen); }
    ghost var buffer, out := dest[..], "";
    var i, p, len := 0, off, 0;
    EmittedNothing(destLen, lineLen);
    assert src[..0] == [];
    OverwriteNothing(buffer, off);
    while |src| - i >= 3
      invariant 0 <= i <= |src| && i % 3 == 0
      invariant out == Emitted(src[..i], destLen, lineLen)
      invariant p == off + |out| <= dest.Length
      invariant dest[..] == Overwrite(buffer, off, out)
      invariant lineLen > 0 && i < |src| ==> len == Column(|Encode(src[..i])|, lineLen)
    {
      var a, b, c := src[i], src[i + 1], src[i + 2];
      assert src[i..i + 3] == [a, b, c];
      LoopStep(src, i, [a, b, c], destLen, lineLen, len);
      assert lineLen != len + 1 && lineLen != len + 2 && lineLen != len + 3;
      StoreGroup(dest, p, a, b, c);
      OverwriteTwice(buffer, off, out, Encode([a, b, c]));
      out := out + Encode([a, b, c]);
      p, len := p + 4, len + 4;
      if len == lineLen && p != off + destLen {
        StoreBreak(dest, p);
        OverwriteTwice(buffer, off, out, CRLF);
        out := out + CRLF;
        p, len := p + 2, 0;
      }
      i := i + 3;
    }
    if i != |src| {
      EncodeTail(src, i, dest, off, destLen, lineLen, p);
      OverwriteTwice(buffer, off, out, Encode(src[i..]));
    } else {
      assert src[..i] == src;
    }
  }

  /** The tail of one or two bytes: boosted to three, encoded by a call told it has 12 characters of room, padded. */
  method EncodeTail(src: seq<Byte>, i: nat, dest: array<char>, ghost off: nat, ghost destLen: nat,
                    ghost lineLen: nat, p: nat)
    requires i % 3 == 0 && i < |src| < i + 3 && lineLen % 4 == 0
    requires |Wrap(Encode(src), lineLen)| <= destLen
    requires p == off + |Emitted(src[..i], destLen, lineLen)|
    requires off + |Emitted(src, destLen, lineLen)| <= dest.Length
    modifies dest
    ensures |Emitted(src, destLen, lineLen)| == p + 4 - off
    ensures dest[..] == Overwrite(old(dest[..]), p, Encode(src[i..]))
    ensures Emitted(src, destLen, lineLen) == Emitted(src[..i], destLen, lineLen) + Encode(src[i..])
    decreases |src| % 3, 0
  {
    hide Encode, EncodeGroup, Wrap, B64_CHARS, EncodeQuery, Emitted, Overwrite;
    ghost var buffer, tail := dest[..], src[i..];
    assert src == src[..i] + tail;
    EmittedPrefix(src, i, destLen, lineLen);
    EmittedTail(src[..i], tail, destLen, lineLen);
    EncodedLength(tail);
    var pads := 3 - (|src| - i);
    var dummy := src[i..] + seq(pads, _ => 0);
    PaddedTail(tail);
    EncodeQueryOneGroup();
    ghost var g := Encode(dummy);
    UnwrappedText(g);
    assert g == g[..4 - pads] + g[4 - pads..];
    var n, rc := EncodeAt(dummy, dest, p, 12, 0);
    StorePads(dest, p + 4 - pads, pads);
    OverwriteEnd(buffer, p, g[..4 - pads], g[4 - pads..], seq(pads, _ => '='));
  }

  lemma EncodeQueryOneGroup()
    ensures EncodeQuery(3, 0) == 4
  {
  }

  lemma OverwriteEnd<T>(buffer: seq<T>, off: nat, t: seq<T>, u: seq<T>, v: seq<T>)
    requires off + |t + u| <= |buffer| && |u| == |v|
    ensures Overwrite(Overwrite(buffer, off, t + u), off + |t|, v) == Overwrite(buffer, off, t + v)
  {
  }

  lemma OverwriteNothing<T>(buffer: seq<T>, off: nat)
    requires off <= |buffer|
    ensures Overwrite(buffer, off, []) == buffer
  {
  }

  // ---------- The two entry points ----------

  /** The line length chosen by the low four bits of the flags; a negative parameter means 64. */
  function LineLength(flags: nat, lineLen: int): nat {
    match flags % 16
    case 0 => if lineLen >= 0 then lineLen else 64
    case 2 => 64
    case 3 => 76
    case _ => 0
  }

  /** The lines of a text, split at CRLF, are full but for the last, which has 1 to `columns` characters. */
  predicate LinesOf(text: string, columns: nat) {
    var ls := Lines(text);
    && (forall i :: 0 <= i < |ls| - 1 ==> |ls[i]| == columns)
    && 1 <= |ls[|ls| - 1]| <= columns
  }

  /**
    What a call with lines of `columns` characters (0: no lines) returns and does to its buffer:
    the size query, the rejection, and the accepted call.
   */
  ghost predicate Wrapped(src: seq<Byte>, columns: nat, query: bool, destLen: nat, before: string, after: string,
                          total: nat, rc: ReturnCode)
  {
    var text, size := Wrap(Encode(src), columns), EncodeQuery(|src|, columns);
    && (query ==> total == size && rc == Ok)
    && ((src != [] || columns == 0) && |text| < 0x1_0000_0000_0000_0000 ==> size == |text|)
    && (!query && destLen < size ==> total == 0 && rc == InsufficientBuffer && after == before)
    && (!query && destLen >= size ==> rc == Ok && total == size)
    && (!query && destLen >= size && src == [] && columns > 0 ==> after == before)
    && (!query && destLen >= size && (src != [] || columns == 0) ==>
          && |text| == total <= |before| == |after| && after[..total] == text
          && (src != [] && columns > 0 ==> LinesOf(after[..total], columns))
          && (if columns > 0 && src != [] && |src| % 3 == 0 && |src| / 3 * 4 % columns == 0 && destLen > total then
                total + 2 <= |before| && after[total..] == "\r\n" + before[total + 2..]
              else after[total..] == before[total..]))
  }

  /**
    The low four bits of the flags choose the line length: 2 is 64, 3 is 76, 0 is the parameter or 64 if
    that is negative, and anything else is no lines. The buffer has to hold what an accepted call writes;
    `EmittedFitsIff` says when `destLen` characters are enough.
   */
  method B64Encode2(src: seq<Byte>, dest: array?<char>, destLen: nat, flags: nat, lineLen: int)
    returns (total: nat, rc: ReturnCode)
    requires LineLength(flags, lineLen) % 4 == 0 && lineLen < 0x8000_0000
    requires |src| < SIZE_MOD
    requires var columns := LineLength(flags, lineLen);
             dest != null ==>
               && destLen <= dest.Length
               && |Wrap(Encode(src), columns)| < SIZE_MOD
               && (EncodeQuery(|src|, columns) <= destLen ==> |Emitted(src, destLen, columns)| <= dest.Length)
    modifies if dest == null then {} else {dest}
    ensures var before, after := if dest == null then "" else old(dest[..]), if dest == null then "" else dest[..];
            && (flags % 16 == 2 ==> Wrapped(src, 64, dest == null, destLen, before, after, total, rc))
            && (flags % 16 == 3 ==> Wrapped(src, 76, dest == null, destLen, before, after, total, rc))
            && (flags % 16 == 0 && lineLen >= 0 ==> Wrapped(src, lineLen, dest == null, destLen, before, after, total, rc))
            && (flags % 16 == 0 && lineLen < 0 ==> Wrapped(src, 64, dest == null, destLen, before, after, total, rc))
            && (flags % 16 == 1 || flags % 16 > 3 ==> Wrapped(src, 0, dest == null, destLen, before, after, total, rc))
  {
    hide Wrapped, Encode, Wrap, EncodeQuery, Emitted, Overwrite;
    var columns := LineLength(flags, lineLen);
    ghost var before := if dest == null then "" else dest[..];
    total, rc := EncodeAt(src, dest, 0, destLen, columns);
    ghost var after := if dest == null then "" else dest[..];
    WrappedCall(src, columns, dest == null, destLen, before, after, total, rc);
  }

  /** The contract of the encoder at offset 0 in these terms. */
  lemma WrappedCall(src: seq<Byte>, columns: nat, query: bool, destLen: nat, before: string, after: string,
                    total: nat, rc: ReturnCode)
    requires |src| < SIZE_MOD && columns < UINT_MOD
    requires query ==> total == EncodeQuery(|src|, columns) && rc == Ok
    requires !query ==> |Wrap(Encode(src), columns)| < SIZE_MOD
    requires !query && destLen < EncodeQuery(|src|, columns) ==>
               total == 0 && rc == InsufficientBuffer && after == before
    requires !query && destLen >= EncodeQuery(|src|, columns) ==>
               && total == EncodeQuery(|src|, columns) && rc == Ok
               && |Emitted(src, destLen, columns)| <= |before|
               && after == Overwrite(before, 0, Emitted(src, destLen, columns))
    ensures Wrapped(src, columns, query, destLen, before, after, total, rc)
  {
    hide Encode, Wrap, EncodeQuery, Emitted, Overwrite, TrailingBreak, Lines;
    EncodeQueryExactIff(src, columns);
    EmittedNothing(destLen, columns);
    OverwriteNothing(before, 0);
    TrailingBreakIff(src, destLen, columns);
    if src != [] && columns > 0 { EncodedLines(src, columns); }
    if !query && EncodeQuery(|src|, columns) <= destLen { OverwriteEmitted(src, destLen, columns, before); }
  }

  /** The two parts of what is written over the start of a buffer. */
  lemma OverwriteEmitted(s: seq<Byte>, destLen: nat, lineLen: nat, buffer: string)
    requires |Emitted(s, destLen, lineLen)| <= |buffer|
    ensures var text := Wrap(Encode(s), lineLen);
            var after := Overwrite(buffer, 0, Emitted(s, destLen, lineLen));
            && |text| <= |buffer| && after[..|text|] == text
            && (if TrailingBreak(s, destLen, lineLen) then
                  |text| + 2 <= |buffer| && after[|text|..] == CRLF + buffer[|text| + 2..]
                else after[|text|..] == buffer[|text|..])
  {
    hide Encode, Wrap, TrailingBreak;
  }

  /** The sizes alone say whether a break follows the text. */
  lemma TrailingBreakIff(s: seq<Byte>, destLen: nat, lineLen: nat)
    ensures TrailingBreak(s, destLen, lineLen) <==>
            && lineLen > 0 && s != [] && |s| % 3 == 0 && |s| / 3 * 4 % lineLen == 0
            && destLen != |Wrap(Encode(s), lineLen)|
  {
    hide Encode, Wrap;
    EncodedLength(s);
  }

  method B64Encode(src: seq<Byte>, dest: array?<char>, destLen: nat) returns (total: nat)
    requires |src| < SIZE_MOD
    requires dest != null ==> destLen <= dest.Length && |Encode(src)| < SIZE_MOD
    modifies if dest == null then {} else {dest}
    ensures dest == null ==> total == EncodeQuery(|src|, 0)
    ensures dest != null && destLen < |Encode(src)| ==> total == 0 && dest[..] == old(dest[..])
    ensures dest != null && destLen >= |Encode(src)| ==>
              total == |Encode(src)| && dest[..] == Encode(src) + old(dest[total..])
  {
    hide Encode, Wrap, EncodeQuery;
    UnwrappedText(Encode(src));
    if dest != null {
      EncodeQueryExactIff(src, 0);
      if |Encode(src)| <= destLen { EmittedFitsIff(src, destLen, 0); }
    }
    var rc;
    total, rc := EncodeAt(src, dest, 0, destLen, 0);
  }
}

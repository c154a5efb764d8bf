/**
  The decoder of ortp/src/b64.c as it works: one pass over the text, four indexes and a
  count of pads at a time, skipping or rejecting characters as the flags say.
 */
module Base64Decoder {
  import opened Base64Spec
  import opened Base64Laws
  import opened Base64Sizes
  import opened Base64Encoder
  import opened Base64Bits
  import opened Options

  // ---------- Rejected characters ----------

  /** B64_F_STOP_ON_UNKNOWN_CHAR is bit 8, B64_F_STOP_ON_UNEXPECTED_WS is bit 9. */
  predicate StopOnUnknown(flags: nat) { flags / 256 % 2 == 1 }
  predicate StopOnSpace(flags: nat) { flags / 512 % 2 == 1 }

  /** Space, tab, backspace and vertical tab; CR and LF are always passed over. */
  predicate IsSpace(c: char) {
    c == ' ' || c == '\t' || c == 8 as char || c == 11 as char
  }

  predicate Forbidden(c: char, flags: nat) {
    && !IsSignificant(c) && c != '\r' && c != '\n'
    && (if IsSpace(c) then StopOnSpace(flags) else StopOnUnknown(flags))
  }

  /** A forbidden character met before decoding has come to its end. */
  ghost predicate Rejects(t: string, flags: nat, i: nat) {
    i < |t| && Forbidden(t[i], flags) && !Finished(t[..i])
  }

  /**
    The flags by value, whatever their other bits: 0x100 stops on characters outside the alphabet that are
    not white space, 0x200 on white space other than CR and LF, 0x300 on both, neither bit on nothing.
   */
  lemma RejectedCharacters(t: string, i: nat, low: nat, high: nat)
    requires i < |t| && !Finished(t[..i]) && low < 0x100
    ensures var c := t[i];
            var space := c == ' ' || c == '\t' || c == 8 as char || c == 11 as char;
            var known := space || c == '\r' || c == '\n' || c == '=' || c == '+' || c == '/'
                         || 'A' <= c <= 'Z' || 'a' <= c <= 'z' || '0' <= c <= '9';
            && !Rejects(t, 0x400 * high + low, i)
            && (Rejects(t, 0x400 * high + 0x100 + low, i) <==> !known)
            && (Rejects(t, 0x400 * high + 0x200 + low, i) <==> space)
            && (Rejects(t, 0x400 * high + 0x300 + low, i) <==> !known || space)
  {
    hide Finished;
    FlagBits(low, high);
  }

  lemma FlagBits(low: nat, high: nat)
    requires low < 0x100
    ensures !StopOnUnknown(0x400 * high + low) && !StopOnSpace(0x400 * high + low)
    ensures StopOnUnknown(0x400 * high + 0x100 + low) && !StopOnSpace(0x400 * high + 0x100 + low)
    ensures !StopOnUnknown(0x400 * high + 0x200 + low) && StopOnSpace(0x400 * high + 0x200 + low)
    ensures StopOnUnknown(0x400 * high + 0x300 + low) && StopOnSpace(0x400 * high + 0x300 + low)
  {
    assert (0x400 * high + low) / 256 == 4 * high && (0x400 * high + low) / 512 == 2 * high;
    assert (0x400 * high + 0x100 + low) / 256 == 4 * high + 1 && (0x400 * high + 0x100 + low) / 512 == 2 * high;
    assert (0x400 * high + 0x200 + low) / 256 == 4 * high + 2 && (0x400 * high + 0x200 + low) / 512 == 2 * high + 1;
    assert (0x400 * high + 0x300 + low) / 256 == 4 * high + 3 && (0x400 * high + 0x300 + low) / 512 == 2 * high + 1;
  }

  lemma FinishedStays(t: string, i: nat, j: nat)
    requires i <= j <= |t| && Finished(t[..i])
    ensures Finished(t[..j])
  {
    assert t[..j] == t[..i] + t[i..j];
    SignificantConcat(t[..i], t[i..j]);
    var sig := Significant(t[..i]);
    var k :| 0 <= k < |sig| && k % 4 == 3 && sig[k] == '=';
    assert Significant(t[..j])[k] == '=';
  }

  // ---------- One group ----------

  method StoreBytes(dest: array<Byte>, d: nat, indexes: seq<Sextet>, numPads: nat, ghost g: string) returns (d': nat)
    requires |indexes| == 4 && |g| == 4
    requires forall k :: 0 <= k < 4 ==> indexes[k] == SigValue(g[k])
    requires numPads == Pads(g) && d + |GroupBytes(g)| <= dest.Length
    modifies dest
    ensures d' == d + |GroupBytes(g)|
    ensures dest[..] == Overwrite(old(dest[..]), d, GroupBytes(g))
  {
    hide GroupBytes, Bytes24, SigValue, Pads;
    var b0, b1, b2 := JoinIndexes(indexes[0], indexes[1], indexes[2], indexes[3]);
    JoinedBytes(indexes, g, b0, b1, b2);
    dest[d] := b0;
    d' := d + 1;
    if numPads != 2 {
      dest[d'] := b1;
      d' := d' + 1;
      if numPads != 1 {
        dest[d'] := b2;
        d' := d' + 1;
      }
    }
  }

  lemma JoinedBytes(indexes: seq<Sextet>, g: string, b0: Byte, b1: Byte, b2: Byte)
    requires |indexes| == 4 && |g| == 4
    requires forall k :: 0 <= k < 4 ==> indexes[k] == SigValue(g[k])
    requires Bytes24(indexes[0], indexes[1], indexes[2], indexes[3]) == [b0, b1, b2]
    ensures GroupBytes(g) == if Pads(g) == 2 then [b0] else if Pads(g) == 1 then [b0, b1] else [b0, b1, b2]
  {
    hide SigValue, Pads, Bytes24;
  }

  // ---------- One character ----------

  lemma GroupsOpen(p: string, q: string)
    requires |p| % 4 == 0 && |q| < 4 && !PadStops(p)
    ensures DecodeGroups(p + q) == DecodeGroups(p) && !PadStops(p + q)
  {
    hide GroupBytes, PadStops;
    GroupsConcat(p, q);
    PadStopsOpen(p, q);
  }

  lemma PadStopsOpen(p: string, q: string)
    requires |p| % 4 == 0 && |q| < 4 && !PadStops(p)
    ensures !PadStops(p + q)
  {
    var m := |p| / 4;
    forall k | 0 <= k < |p + q| && k % 4 == 3 ensures (p + q)[k] != '=' {
      assert k < 4 * m + 3 && k == 4 * (k / 4) + 3;
      assert (p + q)[k] == p[k];
    }
  }

  lemma GroupsClose(p: string, g: string)
    requires |p| % 4 == 0 && |g| == 4 && !PadStops(p)
    ensures DecodeGroups(p + g) == DecodeGroups(p) + GroupBytes(g)
    ensures PadStops(p + g) <==> Pads(g) != 0
  {
    hide GroupBytes;
    GroupsConcat(p, g);
    assert g[..4] == g && g[4..] == "" && DecodeGroups(g) == GroupBytes(g) + [];
    PadStopsAtEnd(p, g);
  }

  lemma PadStopsAtEnd(p: string, g: string)
    requires |p| % 4 == 0 && |g| == 4 && !PadStops(p)
    ensures PadStops(p + g) <==> g[3] == '='
  {
    forall k | 0 <= k < |p| && k % 4 == 3 ensures (p + g)[k] != '=' {
      assert (p + g)[k] == p[k];
    }
    assert (p + g)[|p| + 3] == g[3];
  }

  lemma SignificantNext(t: string, k: nat)
    requires k < |t|
    ensures Significant(t[..k + 1]) == Significant(t[..k]) + (if IsSignificant(t[k]) then [t[k]] else "")
  {
    assert t[..k + 1][..k] == t[..k];
  }

  lemma PadsNext(g: string, c: char)
    ensures Pads(g + [c]) == if c == '=' then Pads(g) + 1 else 0
  {
    assert (g + [c])[..|g|] == g;
  }

  // ---------- The code ----------

  /** What a call with enough room does to the buffer and returns. */
  ghost predicate DecodeOutcome(src: string, flags: nat, before: seq<Byte>, after: seq<Byte>,
                                n: nat, badChar: Option<nat>, rc: ReturnCode)
  {
    if exists i :: Rejects(src, flags, i) then
      && rc == DataError && n == 0 && badChar.Some?
      && Rejects(src, flags, badChar.value)
      && (forall j :: 0 <= j < badChar.value ==> !Forbidden(src[j], flags))
      && Wrote(before, after, Decode(src[..badChar.value]))
    else
      rc == Ok && n == |Decode(src)| && badChar == None && Wrote(before, after, Decode(src))
  }

  ghost predicate Wrote(before: seq<Byte>, after: seq<Byte>, bytes: seq<Byte>) {
    |bytes| <= |before| && after == Overwrite(before, 0, bytes)
  }

  /** The switch over a character outside the alphabet. */
  method Objects(ch: char, flags: nat) returns (stop: bool)
    requires !IsSignificant(ch)
    ensures stop <==> Forbidden(ch, flags)
  {
    if IsSpace(ch) {
      stop := StopOnSpace(flags);
    } else if ch == '\r' || ch == '\n' {
      stop := false;
    } else {
      stop := StopOnUnknown(flags);
    }
  }

  /** The text read so far is whole groups `p`, none ending in a pad, and an open group `q`. */
  ghost predicate ReadSoFar(t: string, p: string, q: string) {
    Significant(t) == p + q && |p| % 4 == 0 && |q| < 4 && !PadStops(p)
  }

  lemma ReadOpen(t: string, p: string, q: string)
    requires ReadSoFar(t, p, q)
    ensures !Finished(t) && Decode(t) == DecodeGroups(p)
  {
    GroupsOpen(p, q);
  }

  /** The last group read ended in a pad and nothing before it was forbidden. */
  lemma NoneRejected(src: string, flags: nat, k: nat)
    requires k <= |src| && (k < |src| ==> Finished(src[..k]))
    requires forall j :: 0 <= j < k ==> !Forbidden(src[j], flags)
    ensures forall i :: !Rejects(src, flags, i)
    ensures Decode(src) == Decode(src[..k])
  {
    hide Significant, PadStops, DecodeGroups, Forbidden;
    forall i: nat | k <= i < |src| ensures !Rejects(src, flags, i) {
      FinishedStays(src, k, i);
    }
    assert src == src[..k] + src[k..];
    if k < |src| {
      DecodeAfterFinish(src[..k], src[k..]);
    } else {
      assert src[..k] == src;
    }
  }

  /** The bytes written so far and those of the group just completed stay within the announced size. */
  lemma WithinQuery(src: string, k: nat, p: string)
    requires k <= |src| && Significant(src[..k]) == p
    ensures |DecodeGroups(p)| <= DecodeQuery(|src|)
  {
    GroupsBound(p);
    assert |p| / 4 <= |src| / 4;
  }

  method DecodeAll(src: string, dest: array?<Byte>, destSize: nat, flags: nat)
    returns (n: nat, badChar: Option<nat>, rc: ReturnCode)
    requires dest != null ==> destSize <= dest.Length
    modifies if dest == null then {} else {dest}
    ensures dest == null ==> n == DecodeQuery(|src|) && rc == Ok && badChar == None
    ensures dest != null && destSize < DecodeQuery(|src|) ==>
              n == 0 && rc == InsufficientBuffer && badChar == None && dest[..] == old(dest[..])
    ensures dest != null && destSize >= DecodeQuery(|src|) ==>
              DecodeOutcome(src, flags, old(dest[..]), dest[..], n, badChar, rc)
  {
    hide Significant, DecodeGroups, GroupBytes, Pads, PadStops, SigValue, CharSextet, Overwrite, IsSpace, StopOnSpace,
         StopOnUnknown;
    badChar, rc := None, Ok;
    if dest == null {
      return DecodeQuery(|src|), None, Ok;
    } else if destSize < DecodeQuery(|src|) {
      return 0, None, InsufficientBuffer;
    }
    ghost var buffer := dest[..];
    ghost var p, q := "", "";
    var begin, currIndex, numPads, d := 0, 0, 0, 0;
    var indexes: seq<Sextet> := [0, 0, 0, 0];
    NothingRead(buffer, src);
    while begin < |src|
      invariant 0 <= begin <= |src|
      invariant ReadSoFar(src[..begin], p, q) && |q| == currIndex
      invariant |indexes| == 4 && forall j :: 0 <= j < currIndex ==> indexes[j] == SigValue(q[j])
      invariant numPads == Pads(q)
      invariant d == |DecodeGroups(p)| <= dest.Length
      invariant dest[..] == Overwrite(buffer, 0, DecodeGroups(p))
      invariant forall j :: 0 <= j < begin ==> !Forbidden(src[j], flags)
    {
      var ch := src[begin];
      SignificantNext(src, begin);
      PadsNext(q, ch);
      if ch == '=' {
        indexes := indexes[currIndex := 0];
        currIndex, numPads := currIndex + 1, numPads + 1;
        assert SigValue(ch) == 0 by { PadValue(); }
      } else {
        var ix := CharSextet(ch);
        if ix == -1 {
          var stop := Objects(ch, flags);
          if stop {
            ReadOpen(src[..begin], p, q);
            assert Rejects(src, flags, begin);
            return 0, Some(begin), DataError;
          }
          assert p + q + "" == p + q;
          begin := begin + 1;
          continue;
        }
        numPads := 0;
        SextetOf(ch);
        indexes := indexes[currIndex := ix];
        currIndex := currIndex + 1;
      }
      q := q + [ch];
      assert Significant(src[..begin + 1]) == p + q;
      if currIndex == 4 {
        GroupsClose(p, q);
        WithinQuery(src, begin + 1, p + q);
        d := StoreBytes(dest, d, indexes, numPads, q);
        OverwriteTwice(buffer, 0, DecodeGroups(p), GroupBytes(q));
        currIndex := 0;
        if numPads != 0 {
          NoneRejected(src, flags, begin + 1);
          return d, None, Ok;
        }
        p, q := p + q, "";
        assert p + "" == p;
      }
      begin := begin + 1;
    }
    assert src[..begin] == src;
    ReadOpen(src, p, q);
    NoneRejected(src, flags, |src|);
    n := d;
  }

  lemma NothingRead(buffer: seq<Byte>, src: string)
    ensures ReadSoFar(src[..0], "", "") && Pads("") == 0 && DecodeGroups("") == []
    ensures Overwrite(buffer, 0, []) == buffer
  {
    assert src[..0] == "";
    OverwriteNothing(buffer, 0);
  }

  lemma PadValue()
    ensures SigValue('=') == 0
  {
  }

  lemma SextetOf(c: char)
    requires CharSextet(c) != -1
    ensures 0 <= CharSextet(c) < 64 && SigValue(c) == CharSextet(c)
  {
  }

  // ---------- Entry point and round trip ----------

  /** Without stop flags nothing is ever rejected. */
  method B64Decode(src: string, dest: array?<Byte>, destSize: nat) returns (n: nat)
    requires dest != null ==> destSize <= dest.Length
    modifies if dest == null then {} else {dest}
    ensures dest == null ==> n == DecodeQuery(|src|)
    ensures dest != null && destSize < DecodeQuery(|src|) ==> n == 0 && dest[..] == old(dest[..])
    ensures dest != null && destSize >= DecodeQuery(|src|) ==>
              n == |Decode(src)| <= dest.Length && dest[..] == Decode(src) + old(dest[n..])
  {
    hide Decode, Finished, IsSignificant;
    var badChar, rc;
    n, badChar, rc := DecodeAll(src, dest, destSize, 0);
  }

  /** No stop flag objects to encoded text, wrapped or not. */
  lemma EncodedTextAccepted(s: seq<Byte>, lineLen: nat, flags: nat)
    ensures forall i :: !Rejects(Wrap(Encode(s), lineLen), flags, i)
  {
    hide Encode, Wrap, Finished, IsSignificant;
    EncodeDecodeGroups(s);
    var t := Wrap(Encode(s), lineLen);
    forall i: nat | i < |t| ensures !Forbidden(t[i], flags) {
      WrapCharacters(Encode(s), lineLen, i);
    }
  }

  /** Ask, encode, ask, decode: the bytes come back, whatever the line length and the stop flags. */
  method EncodeThenDecode(src: seq<Byte>, lineLen: nat, flags: nat)
    returns (text: string, bytes: seq<Byte>, badChar: Option<nat>, rc: ReturnCode)
    requires lineLen % 4 == 0 && lineLen < UINT_MOD && (src != [] || lineLen == 0)
    requires |src| < SIZE_MOD && |Wrap(Encode(src), lineLen)| < SIZE_MOD
    ensures text == Wrap(Encode(src), lineLen)
    ensures rc == Ok && badChar == None && bytes == src
  {
    hide Encode, Wrap, EncodeQuery, Decode, Rejects;
    EncodeQueryExactIff(src, lineLen);
    var total, _ := EncodeAt(src, null, 0, 0, lineLen);
    var dest := new char[total];
    EmittedFitsIff(src, total, lineLen);
    var written, _ := EncodeAt(src, dest, 0, total, lineLen);
    text := dest[..written];
    RoundTrip(src, lineLen);
    EncodedTextAccepted(src, lineLen, flags);
    var room, _, _ := DecodeAll(text, null, 0, flags);
    var out := new Byte[room];
    var n;
    n, badChar, rc := DecodeAll(text, out, room, flags);
    bytes := out[..n];
  }
}

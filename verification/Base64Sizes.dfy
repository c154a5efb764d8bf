/**
  The size formulas of ortp/src/b64.c with their `size_t` arithmetic, against the
  lengths of the texts and byte strings they announce.
 */
module Base64Sizes {
  import opened Base64Spec
  import opened Base64Laws
  import opened Arithmetic

  /** One more than the largest `size_t` (64-bit target) and the largest `unsigned`. */
  const SIZE_MOD: nat := 0x1_0000_0000_0000_0000
  const UINT_MOD: nat := 0x1_0000_0000

  // ---------- Encoded text ----------

  lemma {:induction false} WrapLength(t: string, n: nat)
    requires n > 0 && t != ""
    ensures |Wrap(t, n)| == |t| + 2 * ((|t| + n - 1) / n - 1)
  {
    DivModStep(|t| + n - 1, n);
    if |t| <= n {
      DivModUnique(|t| - 1, 0, |t| - 1, n);
    } else {
      WrapLength(t[n..], n);
    }
  }

  /** Encoded length before line breaks, computed modulo 2^64 as the code does. */
  function UnwrappedQuery(srcSize: nat): nat {
    (srcSize + 2) % SIZE_MOD / 3 * 4 % SIZE_MOD
  }

  function AddBreaks(total: nat, lineLen: nat): nat
    requires lineLen > 0
  {
    var numLines := (total + (lineLen - 1)) % SIZE_MOD / lineLen;
    (total + 2 * (numLines - 1)) % SIZE_MOD
  }

  /** The answer to a NULL destination. */
  function EncodeQuery(srcSize: nat, lineLen: nat): (total: nat)
    ensures total < SIZE_MOD
  {
    if lineLen > 0 then AddBreaks(UnwrappedQuery(srcSize), lineLen) else UnwrappedQuery(srcSize)
  }

  /** No intermediate sum wraps when the final one does not: many lines of breaks outweigh one line. */
  lemma LineSumFits(total: nat, lineLen: nat)
    requires 0 < lineLen < UINT_MOD && total > 0
    requires total + 2 * ((total + lineLen - 1) / lineLen - 1) < SIZE_MOD
    ensures total + lineLen - 1 < SIZE_MOD
  {
    var lines := (total + lineLen - 1) / lineLen;
    assert lines * lineLen + (total + lineLen - 1) % lineLen == total + lineLen - 1;
    if lines <= UINT_MOD {
      MulMonotone(lines, UINT_MOD, lineLen);
    }
  }

  lemma UnwrappedQueryExact(srcSize: nat)
    requires (srcSize + 2) / 3 * 4 < SIZE_MOD
    ensures UnwrappedQuery(srcSize) == (srcSize + 2) / 3 * 4
  {
    assert srcSize + 2 < SIZE_MOD;
  }

  lemma SmallMod(x: nat)
    requires x < SIZE_MOD
    ensures x % SIZE_MOD == x
  {
  }

  lemma AddBreaksExact(total: nat, lineLen: nat, lines: nat)
    requires lineLen > 0 && total + (lineLen - 1) < SIZE_MOD
    requires lines == (total + (lineLen - 1)) / lineLen && lines >= 1
    requires total + 2 * (lines - 1) < SIZE_MOD
    ensures AddBreaks(total, lineLen) == total + 2 * (lines - 1)
  {
    SmallMod(total + (lineLen - 1));
    SmallMod(total + 2 * (lines - 1));
  }

  /** For no bytes and a positive line length the query wraps around to 2^64 - 2. */
  lemma EmptyWrappedQuery(lineLen: nat)
    requires 0 < lineLen < UINT_MOD
    ensures EncodeQuery(0, lineLen) == 0xffff_ffff_ffff_fffe && Wrap(Encode([]), lineLen) == ""
  {
    hide UnwrappedQuery;
    UnwrappedQueryExact(0);
    SmallMod(0 + (lineLen - 1));
    DivModUnique(lineLen - 1, 0, lineLen - 1, lineLen);
  }

  lemma WrappedQueryExact(s: seq<Byte>, lineLen: nat)
    requires 0 < lineLen < UINT_MOD && s != []
    requires |Wrap(Encode(s), lineLen)| < SIZE_MOD
    ensures EncodeQuery(|s|, lineLen) == |Wrap(Encode(s), lineLen)|
  {
    hide AddBreaks, UnwrappedQuery, Encode, Wrap;
    EncodedLength(s);
    var t := Encode(s);
    WrapLength(t, lineLen);
    var lines := (|t| + lineLen - 1) / lineLen;
    assert lines >= 1 by { DivModStep(|t| + lineLen - 1, lineLen); }
    UnwrappedQueryExact(|s|);
    LineSumFits(|t|, lineLen);
    AddBreaksExact(|t|, lineLen, lines);
  }

  /** The size query is the encoded length exactly when that fits a `size_t` and a wrapped source is not empty. */
  lemma EncodeQueryExactIff(s: seq<Byte>, lineLen: nat)
    requires |s| < SIZE_MOD && lineLen < UINT_MOD
    ensures EncodeQuery(|s|, lineLen) == |Wrap(Encode(s), lineLen)|
            <==> |Wrap(Encode(s), lineLen)| < 0x1_0000_0000_0000_0000 && (s != [] || lineLen == 0)
  {
    hide AddBreaks, UnwrappedQuery, Encode, Wrap;
    if s == [] && lineLen > 0 {
      EmptyWrappedQuery(lineLen);
    } else if |Wrap(Encode(s), lineLen)| < SIZE_MOD {
      if lineLen > 0 {
        WrappedQueryExact(s, lineLen);
      } else {
        EncodedLength(s);
        assert Wrap(Encode(s), 0) == Encode(s) by { UnwrappedText(Encode(s)); }
        UnwrappedQueryExact(|s|);
      }
    }
  }

  /**
    The answer for all sizes, whether they fit or not. Without lines it is the encoded length modulo 2^64,
    or 0 for the two sizes whose rounding wraps. With lines it adds the breaks modulo 2^64, or takes 2 away
    when the rounding to lines wraps.
   */
  lemma EncodeQueryEverywhere(srcSize: nat, lineLen: nat)
    requires srcSize < 0x1_0000_0000_0000_0000 && 0 < lineLen < 0x1_0000_0000
    ensures srcSize < 0xffff_ffff_ffff_fffe ==> EncodeQuery(srcSize, 0) == (srcSize + 2) / 3 * 4 % 0x1_0000_0000_0000_0000
    ensures srcSize >= 0xffff_ffff_ffff_fffe ==> EncodeQuery(srcSize, 0) == 0
    ensures var t := EncodeQuery(srcSize, 0);
            if t + lineLen > 0x1_0000_0000_0000_0000 then EncodeQuery(srcSize, lineLen) == t - 2
            else EncodeQuery(srcSize, lineLen) == (t + 2 * ((t + lineLen - 1) / lineLen - 1)) % 0x1_0000_0000_0000_0000
  {
    hide AddBreaks, UnwrappedQuery;
    UnwrappedQueryEverywhere(srcSize);
    AddBreaksEverywhere(EncodeQuery(srcSize, 0), lineLen);
  }

  lemma UnwrappedQueryEverywhere(srcSize: nat)
    requires srcSize < SIZE_MOD
    ensures UnwrappedQuery(srcSize) == if srcSize + 2 < SIZE_MOD then (srcSize + 2) / 3 * 4 % SIZE_MOD else 0
  {
    if srcSize + 2 < SIZE_MOD {
      SmallMod(srcSize + 2);
    }
  }

  lemma AddBreaksEverywhere(t: nat, lineLen: nat)
    requires t < SIZE_MOD && 0 < lineLen < UINT_MOD
    ensures if t + lineLen > SIZE_MOD then t >= 2 && AddBreaks(t, lineLen) == t - 2
            else AddBreaks(t, lineLen) == (t + 2 * ((t + (lineLen - 1)) / lineLen - 1)) % SIZE_MOD
  {
    var x := t + (lineLen - 1);
    if t + lineLen > SIZE_MOD {
      assert x % SIZE_MOD == x - SIZE_MOD;
      DivModUnique(x - SIZE_MOD, 0, x - SIZE_MOD, lineLen);
      SmallMod(t - 2);
    } else {
      SmallMod(x);
    }
  }

  lemma UnwrappedText(t: string)
    ensures Wrap(t, 0) == t
  {
  }

  // ---------- Decoded bytes ----------

  /** Three bytes for every started group of four characters. */
  function DecodeQuery(srcLen: nat): nat {
    (srcLen / 4 + (if srcLen % 4 != 0 then 1 else 0)) * 3
  }

  /** Three bytes for the least number of groups of four that covers the text. */
  lemma DecodeQueryCovers(n: nat, k: nat)
    ensures DecodeQuery(n) % 3 == 0
    ensures 4 * k >= n <==> 3 * k >= DecodeQuery(n)
  {
  }

  lemma {:induction false} GroupsBound(sig: string)
    ensures |DecodeGroups(sig)| <= |sig| / 4 * 3
  {
    hide GroupBytes;
    if |sig| >= 4 { GroupsBound(sig[4..]); }
  }

  /** The query is always large enough. */
  lemma DecodeWithinQuery(t: string)
    ensures |Decode(t)| <= |Significant(t)| / 4 * 3 <= DecodeQuery(|t|)
  {
    GroupsBound(Significant(t));
    assert |Significant(t)| / 4 <= |t| / 4;
  }

  /** Texts made of significant characters in whole groups, of which only the last may end in a pad. */
  predicate FullGroups(t: string) {
    && |t| % 4 == 0 && AllSignificant(t)
    && (forall k :: 0 <= k < |t| - 4 && k % 4 == 3 ==> t[k] != '=')
    && (t != "" ==> Pads(t[|t| - 4..]) != 1 && Pads(t[|t| - 4..]) != 2)
  }

  lemma SignificantShorter(t: string, k: nat)
    requires k < |t| && !IsSignificant(t[k])
    ensures |Significant(t)| < |t|
  {
    hide Significant;
    var before, c, after := t[..k], [t[k]], t[k + 1..];
    SignificantConcat(before, c + after);
    SignificantConcat(c, after);
    assert t == before + (c + after);
    assert Significant(c) == "" by { SkippedAlone(t[k]); }
  }

  lemma SkippedAlone(c: char)
    requires !IsSignificant(c)
    ensures Significant([c]) == ""
  {
    assert [c][..0] == "";
  }

  lemma GroupBytesLength(g: string)
    requires |g| == 4
    ensures |GroupBytes(g)| == 3 <==> Pads(g) != 1 && Pads(g) != 2
    ensures g[3] != '=' ==> Pads(g) == 0
  {
  }

  lemma {:induction false} FullGroupsIff(sig: string)
    requires AllSignificant(sig) && |sig| % 4 == 0
    ensures |DecodeGroups(sig)| == |sig| / 4 * 3 <==> FullGroups(sig)
  {
    hide GroupBytes, IsSignificant, Pads;
    if |sig| == 4 {
      assert sig[..4] == sig && sig[0..] == sig && sig[4..] == "";
      GroupBytesLength(sig);
    } else if |sig| > 4 {
      var u := sig[4..];
      FullGroupsIff(u);
      GroupsBound(u);
      GroupBytesLength(sig[..4]);
      FullGroupsRest(sig);
    }
  }

  lemma FullGroupsRest(sig: string)
    requires AllSignificant(sig) && |sig| % 4 == 0 && |sig| > 4
    ensures FullGroups(sig) <==> sig[3] != '=' && FullGroups(sig[4..])
  {
    hide IsSignificant, Pads;
    var u := sig[4..];
    assert u[|u| - 4..] == sig[|sig| - 4..];
    if sig[3] != '=' && FullGroups(u) {
      forall k | 0 <= k < |sig| - 4 && k % 4 == 3 ensures sig[k] != '=' {
        if k != 3 { assert sig[k] == u[k - 4]; }
      }
    }
  }

  /** When the query is exact, and not just an upper bound. */
  lemma DecodeQueryExactIff(t: string)
    ensures |Decode(t)| == DecodeQuery(|t|) <==> FullGroups(t)
  {
    var sig := Significant(t);
    GroupsBound(sig);
    if AllSignificant(t) {
      SignificantIsIdentity(t);
      if |t| % 4 == 0 { FullGroupsIff(t); }
    } else {
      var k :| 0 <= k < |t| && !IsSignificant(t[k]);
      SignificantShorter(t, k);
    }
  }

  /** A text for which it is not: four characters that hold one byte, with room for three asked for. */
  lemma DecodeQueryTooLarge()
    ensures |Decode("QQ==")| == 1 && DecodeQuery(4) == 3
  {
    var t := "QQ==";
    assert AllSignificant(t);
    SignificantIsIdentity(t);
    PadsOfGroup(t);
    assert t[..4] == t && t[3] == '=' && t[2] == '=' && t[1] != '=';
  }
}

/**
  Laws of the value-level codec: the encoder is a bijection between byte strings
  and canonical texts, line breaks and other skipped characters never matter, and
  both directions work chunk by chunk.
 */
module Base64Laws {
  import opened Base64Spec

  // ---------- Digits of a 24-bit number ----------

  lemma Digits64(n: int, w: Sextet, x: Sextet, y: Sextet, z: Sextet)
    requires n == ((w * 64 + x) * 64 + y) * 64 + z
    ensures n / 64 / 64 / 64 == w && n / 64 / 64 % 64 == x && n / 64 % 64 == y && n % 64 == z
  {
    assert n / 64 == (w * 64 + x) * 64 + y;
    assert n / 64 / 64 == w * 64 + x;
  }

  lemma Digits256(n: int, a: Byte, b: Byte, c: Byte)
    requires n == (a * 256 + b) * 256 + c
    ensures n / 256 / 256 == a && n / 256 % 256 == b && n % 256 == c
  {
    assert n / 256 == a * 256 + b;
  }

  // ---------- One group ----------

  lemma AlphabetInverse(i: Sextet)
    ensures CharSextet(SextetChar(i)) == i
  {
  }

  lemma AlphabetInverseChar(c: char)
    requires InAlphabet(c)
    ensures SextetChar(SigValue(c)) == c
  {
  }

  lemma GroupValues(a: Byte, b: Byte, c: Byte)
    ensures var n := Number24(a, b, c);
            var g := EncodeGroup(a, b, c);
            && AllInAlphabet(g)
            && SigValue(g[0]) == n / 64 / 64 / 64 && SigValue(g[1]) == n / 64 / 64 % 64
            && SigValue(g[2]) == n / 64 % 64 && SigValue(g[3]) == n % 64
  {
    var n := Number24(a, b, c);
    AlphabetInverse(n / 64 / 64 / 64);
    AlphabetInverse(n / 64 / 64 % 64);
    AlphabetInverse(n / 64 % 64);
    AlphabetInverse(n % 64);
  }

  lemma NumberDigits(a: Byte, b: Byte, c: Byte)
    ensures var n := Number24(a, b, c); n / 256 / 256 == a && n / 256 % 256 == b && n % 256 == c
  {
    Digits256(Number24(a, b, c), a, b, c);
  }

  lemma GroupRoundTrip(a: Byte, b: Byte, c: Byte)
    ensures var g := EncodeGroup(a, b, c);
            Bytes24(SigValue(g[0]), SigValue(g[1]), SigValue(g[2]), SigValue(g[3])) == [a, b, c]
  {
    hide EncodeGroup, SigValue, Number24;
    var n := Number24(a, b, c);
    GroupValues(a, b, c);
    NumberDigits(a, b, c);
    assert ((n / 64 / 64 / 64 * 64 + n / 64 / 64 % 64) * 64 + n / 64 % 64) * 64 + n % 64 == n;
  }

  lemma Bytes24RoundTrip(w: Sextet, x: Sextet, y: Sextet, z: Sextet)
    ensures var b := Bytes24(w, x, y, z);
            EncodeGroup(b[0], b[1], b[2]) == [SextetChar(w), SextetChar(x), SextetChar(y), SextetChar(z)]
  {
    var n := ((w * 64 + x) * 64 + y) * 64 + z;
    Digits64(n, w, x, y, z);
  }

  lemma PadsOfGroup(g: string)
    requires |g| == 4
    ensures Pads(g) == if g[3] != '=' then 0 else if g[2] != '=' then 1 else if g[1] != '=' then 2
                       else if g[0] != '=' then 3 else 4
  {
    var g3, g2, g1 := g[..3], g[..2], g[..1];
    assert g3[..2] == g2 && g2[..1] == g1 && g1[..0] == "";
    assert Pads(g1) == if g[0] != '=' then 0 else 1;
    assert Pads(g2) == if g[1] != '=' then 0 else 1 + Pads(g1);
    assert Pads(g3) == if g[2] != '=' then 0 else 1 + Pads(g2);
  }

  lemma FullGroup(a: Byte, b: Byte, c: Byte)
    ensures var g := EncodeGroup(a, b, c); AllInAlphabet(g) && GroupBytes(g) == [a, b, c]
  {
    hide EncodeGroup, Bytes24, Number24;
    GroupValues(a, b, c);
    GroupRoundTrip(a, b, c);
    assert InAlphabet(EncodeGroup(a, b, c)[3]);
  }

  lemma TailDigits(a: Byte, b: Byte)
    ensures var n := Number24(a, b, 0);
            n % 64 == 0 && n / 64 % 4 == 0 && (b == 0 ==> n / 64 % 64 == 0 && n / 64 / 64 % 16 == 0)
  {
    var n := Number24(a, b, 0);
    assert n / 64 == a * 1024 + b * 4;
    assert b == 0 ==> n / 64 / 64 == a * 16;
  }

  lemma TailValues(a: Byte, b: Byte)
    ensures var e := EncodeGroup(a, b, 0);
            && InAlphabet(e[0]) && InAlphabet(e[1]) && InAlphabet(e[2])
            && SigValue(e[3]) == 0 && SigValue(e[2]) % 4 == 0
            && (b == 0 ==> SigValue(e[2]) == 0 && SigValue(e[1]) % 16 == 0)
            && Bytes24(SigValue(e[0]), SigValue(e[1]), SigValue(e[2]), 0) == [a, b, 0]
  {
    hide EncodeGroup, Bytes24, Number24, CharSextet, SextetChar;
    GroupValues(a, b, 0);
    GroupRoundTrip(a, b, 0);
    TailDigits(a, b);
  }

  /** A padded last group: the digits the pads replace are zero, so decoding reads the same number. */
  lemma TailGroup(s: seq<Byte>)
    requires 1 <= |s| <= 2
    ensures var g := Encode(s);
            |g| == 4 && CanonicalTail(g) && AllSignificant(g) && GroupBytes(g) == s
  {
    hide EncodeGroup, Bytes24, CharSextet, Pads;
    var b: Byte := if |s| == 2 then s[1] else 0;
    var e := EncodeGroup(s[0], b, 0);
    TailValues(s[0], b);
    PadNotInAlphabet();
    PadsOfGroup(Encode(s));
    if |s| == 1 {
      assert Encode(s) == [e[0], e[1], '=', '='];
    } else {
      assert Encode(s) == [e[0], e[1], e[2], '='];
    }
  }

  lemma TailBytes(w: Sextet, x: Sextet, y: Sextet)
    requires y % 4 == 0
    ensures Bytes24(w, x, y, 0)[2] == 0
    ensures y == 0 && x % 16 == 0 ==> Bytes24(w, x, y, 0)[1] == 0
  {
    Digits256(((w * 64 + x) * 64 + y) * 64, w * 4 + x / 16, x % 16 * 16 + y / 4, 0);
  }

  /** The same the other way: a canonical last group is what its bytes encode to. */
  lemma CanonicalTailRoundTrip(g: string)
    requires |g| == 4 && CanonicalTail(g)
    ensures AllSignificant(g) && Encode(GroupBytes(g)) == g
  {
    hide EncodeGroup, Bytes24, CharSextet, SextetChar;
    var w, x, y, z := SigValue(g[0]), SigValue(g[1]), SigValue(g[2]), SigValue(g[3]);
    var b := Bytes24(w, x, y, z);
    Bytes24RoundTrip(w, x, y, z);
    PadNotInAlphabet();
    PadsOfGroup(g);
    AlphabetInverseChar(g[0]);
    AlphabetInverseChar(g[1]);
    if Pads(g) == 1 {
      AlphabetInverseChar(g[2]);
      TailBytes(w, x, y);
    } else if Pads(g) == 2 {
      TailBytes(w, x, y);
    } else {
      AlphabetInverseChar(g[2]);
      AlphabetInverseChar(g[3]);
      assert b[3..] == [];
    }
  }

  lemma PadNotInAlphabet()
    ensures !InAlphabet('=')
  {
  }

  // ---------- Whole texts ----------

  lemma {:induction false} EncodedLength(s: seq<Byte>)
    ensures |Encode(s)| == (|s| + 2) / 3 * 4
  {
    hide EncodeGroup;
    if |s| >= 3 { EncodedLength(s[3..]); }
  }

  lemma {:induction false} EncodeDecodeGroups(s: seq<Byte>)
    ensures AllSignificant(Encode(s)) && DecodeGroups(Encode(s)) == s
  {
    hide EncodeGroup, GroupBytes, CharSextet;
    if 1 <= |s| <= 2 {
      TailGroup(s);
      assert Encode(s)[..4] == Encode(s) && Encode(s)[4..] == "";
    } else if |s| >= 3 {
      FullGroup(s[0], s[1], s[2]);
      PadNotInAlphabet();
      EncodeDecodeGroups(s[3..]);
      var g := EncodeGroup(s[0], s[1], s[2]);
      assert Encode(s)[..4] == g && Encode(s)[4..] == Encode(s[3..]);
      assert InAlphabet(g[3]);
      assert s == [s[0], s[1], s[2]] + s[3..];
    }
  }

  lemma {:induction false} SignificantConcat(t: string, u: string)
    ensures Significant(t + u) == Significant(t) + Significant(u)
  {
    if u == "" {
      assert t + u == t;
    } else {
      var last := u[|u| - 1];
      assert (t + u)[..|t + u| - 1] == t + u[..|u| - 1];
      SignificantConcat(t, u[..|u| - 1]);
    }
  }

  lemma {:induction false} SignificantIsIdentity(t: string)
    requires AllSignificant(t)
    ensures Significant(t) == t
  {
    if t != "" {
      SignificantIsIdentity(t[..|t| - 1]);
      assert t == t[..|t| - 1] + [t[|t| - 1]];
    }
  }

  lemma LineBreakNotSignificant()
    ensures Significant(CRLF) == ""
  {
    assert CRLF[..1] == "\r";
    assert "\r"[..0] == "";
  }

  lemma {:induction false} SignificantIgnoresWrap(t: string, n: nat)
    ensures Significant(Wrap(t, n)) == Significant(t)
  {
    if n != 0 && |t| > n {
      SignificantIgnoresWrap(t[n..], n);
      LineBreakNotSignificant();
      SignificantConcat(t[..n] + CRLF, Wrap(t[n..], n));
      SignificantConcat(t[..n], CRLF);
      SignificantConcat(t[..n], t[n..]);
      assert t == t[..n] + t[n..];
    }
  }

  /** Wrapping adds CR and LF only. */
  lemma {:induction false} WrapCharacters(t: string, n: nat, k: nat)
    requires AllSignificant(t) && k < |Wrap(t, n)|
    ensures var c := Wrap(t, n)[k]; IsSignificant(c) || c == '\r' || c == '\n'
  {
    if n != 0 && |t| > n && k >= n + 2 {
      WrapCharacters(t[n..], n, k - n - 2);
    }
  }

  /** Decoding undoes encoding, whatever the line length. */
  lemma RoundTrip(s: seq<Byte>, lineLen: nat)
    ensures Decode(Wrap(Encode(s), lineLen)) == s
  {
    EncodeDecodeGroups(s);
    SignificantIsIdentity(Encode(s));
    SignificantIgnoresWrap(Encode(s), lineLen);
  }

  // ---------- Canonical texts are exactly the encoder's outputs ----------

  lemma {:induction false} EncodeIsCanonical(s: seq<Byte>)
    ensures Canonical(Encode(s))
  {
    hide EncodeGroup, CharSextet, GroupBytes;
    var t := Encode(s);
    if 1 <= |s| <= 2 {
      TailGroup(s);
      assert t[0..] == t;
    } else if |s| >= 3 {
      FullGroup(s[0], s[1], s[2]);
      EncodeIsCanonical(s[3..]);
      var g, u := EncodeGroup(s[0], s[1], s[2]), Encode(s[3..]);
      assert InAlphabet(g[0]) && InAlphabet(g[1]) && InAlphabet(g[2]) && InAlphabet(g[3]);
      if u == "" {
        assert t[0..] == g;
      } else {
        assert t[|t| - 4..] == u[|u| - 4..];
        assert t[..|t| - 4] == g + u[..|u| - 4];
      }
    }
  }

  lemma CanonicalFirst(t: string)
    requires Canonical(t) && |t| > 4
    ensures t[3] != '=' && CanonicalTail(t[..4]) && |GroupBytes(t[..4])| == 3 && Canonical(t[4..])
  {
    hide Bytes24, CharSextet, Pads;
    var u, init := t[4..], t[..|t| - 4];
    assert u[|u| - 4..] == t[|t| - 4..];
    assert t[..4] == init[..4];
    assert u[..|u| - 4] == init[4..];
    assert InAlphabet(init[0]) && InAlphabet(init[1]) && InAlphabet(init[2]) && InAlphabet(init[3]);
    PadNotInAlphabet();
    PadsOfGroup(t[..4]);
  }

  lemma {:induction false} CanonicalGroups(t: string)
    requires Canonical(t)
    ensures AllSignificant(t) && Encode(DecodeGroups(t)) == t
  {
    hide Encode, GroupBytes, IsSignificant, CanonicalTail;
    if |t| == 4 {
      assert t[0..] == t && t[..4] == t && t[4..] == "";
      CanonicalTailRoundTrip(t);
      assert GroupBytes(t) + [] == GroupBytes(t);
    } else if |t| > 4 {
      CanonicalFirst(t);
      var g, u := t[..4], t[4..];
      CanonicalTailRoundTrip(g);
      CanonicalGroups(u);
      EncodeConcat(GroupBytes(g), DecodeGroups(u));
      assert t == g + u;
    } else {
      EncodeNothing();
    }
  }

  lemma EncodeNothing()
    ensures Encode([]) == ""
  {
  }

  lemma CanonicalRoundTrip(t: string)
    requires Canonical(t)
    ensures Encode(Decode(t)) == t
  {
    CanonicalGroups(t);
    SignificantIsIdentity(t);
  }

  /** Encoding is a bijection onto the canonical texts, and those are the only fixed points of decode-then-encode. */
  lemma CanonicalIff(t: string)
    ensures Canonical(t) <==> Encode(Decode(t)) == t
    ensures Canonical(t) <==> exists s :: Encode(s) == t
  {
    if Canonical(t) { CanonicalRoundTrip(t); }
    if Encode(Decode(t)) == t { EncodeIsCanonical(Decode(t)); }
    if s :| Encode(s) == t { EncodeIsCanonical(s); }
  }

  lemma EncodeInjective(s: seq<Byte>, s': seq<Byte>, n: nat, n': nat)
    requires Wrap(Encode(s), n) == Wrap(Encode(s'), n')
    ensures s == s'
  {
    RoundTrip(s, n);
    RoundTrip(s', n');
  }

  // ---------- Chunking ----------

  lemma {:induction false} EncodeConcat(a: seq<Byte>, b: seq<Byte>)
    requires |a| % 3 == 0
    ensures Encode(a + b) == Encode(a) + Encode(b)
  {
    hide EncodeGroup;
    if a == [] {
      assert a + b == b;
    } else {
      EncodeConcat(a[3..], b);
      assert (a + b)[3..] == a[3..] + b;
      if |a| + |b| >= 3 { assert Encode(a + b) == EncodeGroup(a[0], a[1], a[2]) + Encode((a + b)[3..]); }
    }
  }

  lemma PadStopsRest(sig: string)
    requires |sig| >= 4 && sig[3] != '='
    ensures PadStops(sig) <==> PadStops(sig[4..])
  {
    if PadStops(sig) {
      var k :| 0 <= k < |sig| && k % 4 == 3 && sig[k] == '=';
      assert sig[4..][k - 4] == '=';
    }
    if PadStops(sig[4..]) {
      var k :| 0 <= k < |sig[4..]| && k % 4 == 3 && sig[4..][k] == '=';
      assert sig[k + 4] == '=';
    }
  }

  lemma PadStopsFirst(p: string)
    ensures |p| < 4 ==> !PadStops(p)
    ensures |p| >= 4 && p[3] == '=' ==> PadStops(p)
  {
  }

  lemma {:induction false} GroupsConcat(p: string, q: string)
    requires |p| % 4 == 0 && !PadStops(p)
    ensures DecodeGroups(p + q) == DecodeGroups(p) + DecodeGroups(q)
  {
    hide GroupBytes, PadStops;
    if p == "" {
      assert p + q == q;
    } else {
      PadStopsFirst(p);
      PadStopsRest(p);
      GroupsConcat(p[4..], q);
      FirstGroup(p, q);
      var g := GroupBytes(p[..4]);
      assert g + (DecodeGroups(p[4..]) + DecodeGroups(q)) == (g + DecodeGroups(p[4..])) + DecodeGroups(q);
    }
  }

  lemma FirstGroup(p: string, q: string)
    requires |p| >= 4
    ensures (p + q)[..4] == p[..4] && (p + q)[4..] == p[4..] + q && (p + q)[3] == p[3]
  {
  }

  lemma {:induction false} GroupsAfterStop(p: string, q: string)
    requires PadStops(p)
    ensures DecodeGroups(p + q) == DecodeGroups(p)
  {
    hide GroupBytes, PadStops;
    PadStopsFirst(p);
    FirstGroup(p, q);
    if p[3] != '=' {
      PadStopsRest(p);
      GroupsAfterStop(p[4..], q);
    }
  }

  /** Whole groups none of which ends in a pad: the rest decodes on its own. */
  lemma DecodeConcat(t: string, u: string)
    requires |Significant(t)| % 4 == 0 && !Finished(t)
    ensures Decode(t + u) == Decode(t) + Decode(u)
  {
    SignificantConcat(t, u);
    GroupsConcat(Significant(t), Significant(u));
  }

  /** After a group that ends in a pad nothing more is read. */
  lemma DecodeAfterFinish(t: string, u: string)
    requires Finished(t)
    ensures Decode(t + u) == Decode(t)
  {
    SignificantConcat(t, u);
    GroupsAfterStop(Significant(t), Significant(u));
  }

  /** A trailing incomplete group adds nothing. */
  lemma DecodeIncompleteGroup(t: string, u: string)
    requires |Significant(t)| % 4 == 0 && |Significant(u)| < 4
    ensures Decode(t + u) == Decode(t)
  {
    if Finished(t) {
      DecodeAfterFinish(t, u);
    } else {
      DecodeConcat(t, u);
    }
  }

  /** A character outside the alphabet and not the pad may be inserted or deleted anywhere. */
  lemma SkippedCharacterIrrelevant(t: string, c: char, u: string)
    requires !IsSignificant(c)
    ensures Decode(t + [c] + u) == Decode(t + u)
  {
    SignificantConcat(t + [c], u);
    SignificantConcat(t, [c]);
    SignificantConcat(t, u);
    assert [c][..0] == "";
    assert Significant([c]) == "";
    assert t + [c] + u == (t + [c]) + u;
    assert Significant(t) + "" == Significant(t);
  }

  // ---------- Lines ----------

  /** The lines of a text, split at every CRLF. */
  function Lines(w: string): (ls: seq<string>)
    ensures |ls| >= 1
  {
    if w == "" then [""]
    else if "\r\n" <= w then [""] + Lines(w[2..])
    else
      var rest := Lines(w[1..]);
      [[w[0]] + rest[0]] + rest[1..]
  }

  function Join(ls: seq<string>): string {
    if ls == [] then "" else ls[0] + Join(ls[1..])
  }

  predicate NoBreak(t: string) { forall k :: 0 <= k < |t| ==> t[k] != '\r' }

  lemma {:induction false} LinesOfOneLine(t: string)
    requires NoBreak(t)
    ensures Lines(t) == [t]
  {
    if t != "" {
      assert CRLF[0] == '\r';
      LinesOfOneLine(t[1..]);
      assert [t[0]] + t[1..] == t;
    }
  }

  lemma {:induction false} LinesFirst(t: string, w: string)
    requires NoBreak(t)
    ensures Lines(t + CRLF + w) == [t] + Lines(w)
  {
    var all := t + CRLF + w;
    if t == "" {
      assert all[..2] == CRLF && all[2..] == w;
    } else {
      assert CRLF[0] == '\r' && all[0] == t[0];
      LinesFirst(t[1..], w);
      assert all[1..] == t[1..] + CRLF + w;
      assert [t[0]] + t[1..] == t;
    }
  }

  /** Wrapped text: full lines, then one of 1 to n characters, holding the unwrapped text in order. */
  lemma {:induction false} WrapLines(t: string, n: nat)
    requires n > 0 && t != "" && NoBreak(t)
    ensures var ls := Lines(Wrap(t, n));
            && (forall i :: 0 <= i < |ls| - 1 ==> |ls[i]| == n)
            && 1 <= |ls[|ls| - 1]| <= n
            && Join(ls) == t
  {
    hide Lines;
    if |t| <= n {
      LinesOfOneLine(t);
      assert Join([t]) == t + Join([]);
    } else {
      WrapLines(t[n..], n);
      var rest := Lines(Wrap(t[n..], n));
      LinesFirst(t[..n], Wrap(t[n..], n));
      var ls := [t[..n]] + rest;
      assert ls[1..] == rest;
      assert t[..n] + t[n..] == t;
    }
  }

  lemma EncodedLines(s: seq<Byte>, n: nat)
    requires n > 0 && s != []
    ensures var ls := Lines(Wrap(Encode(s), n));
            && (forall i :: 0 <= i < |ls| - 1 ==> |ls[i]| == n)
            && 1 <= |ls[|ls| - 1]| <= n
            && Join(ls) == Encode(s)
  {
    EncodeDecodeGroups(s);
    EncodedLength(s);
    WrapLines(Encode(s), n);
  }
}

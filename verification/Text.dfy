/**
 ASCII text as the bridge uses it: trimming, lower-casing and MAC addresses.
 `NormalizeMAC` is the regular-expression version of internal/config; the loop
 version of internal/openmiio is proved equal to it in module Openmiio.
 */
module Text {

  predicate IsHex(c: char) {
    '0' <= c <= '9' || 'a' <= c <= 'f' || 'A' <= c <= 'F'
  }

  predicate IsSpace(c: char) {
    c == ' ' || '\t' <= c <= '\r'
  }

  function LowerChar(c: char): char {
    if 'A' <= c <= 'Z' then (c as int + 32) as char else c
  }

  function ToLower(s: string): (r: string)
    ensures |r| == |s|
    ensures forall i :: 0 <= i < |s| ==> r[i] == LowerChar(s[i])
  {
    seq(|s|, i requires 0 <= i < |s| => LowerChar(s[i]))
  }

  function TrimLeft(s: string): string {
    if s != "" && IsSpace(s[0]) then TrimLeft(s[1..]) else s
  }

  function TrimRight(s: string): string {
    if s != "" && IsSpace(s[|s| - 1]) then TrimRight(s[..|s| - 1]) else s
  }

  function TrimSpace(s: string): string {
    TrimRight(TrimLeft(s))
  }

  /** The 26 letters are lowered and everything else stays. */
  lemma LowerIs(c: char, k: nat)
    requires k < 26
    ensures LowerChar("ABCDEFGHIJKLMNOPQRSTUVWXYZ"[k]) == "abcdefghijklmnopqrstuvwxyz"[k]
    ensures c !in "ABCDEFGHIJKLMNOPQRSTUVWXYZ" ==> LowerChar(c) == c
  {
    var upper := "ABCDEFGHIJKLMNOPQRSTUVWXYZ";
    if 'A' <= c <= 'Z' {
      assert upper[c as int - 'A' as int] == c;
    }
  }

  /** strings.EqualFold on ASCII text. */
  predicate EqualFold(s: string, t: string) {
    ToLower(s) == ToLower(t)
  }

  /** regexp `[^0-9A-Fa-f]` replaced by nothing. */
  function HexDigits(s: string): string {
    if s == "" then "" else (if IsHex(s[0]) then [s[0]] else "") + HexDigits(s[1..])
  }

  /** Twelve digits as six lower-case pairs joined by colons. */
  function Colons(hex: string): string
    requires |hex| == 12
  {
    var h := ToLower(hex);
    [h[0], h[1], ':', h[2], h[3], ':', h[4], h[5], ':', h[6], h[7], ':', h[8], h[9], ':', h[10], h[11]]
  }

  function NormalizeMAC(s: string): string {
    var hex := HexDigits(s);
    if |hex| != 12 then ToLower(TrimSpace(s)) else Colons(hex)
  }

  // ---------------------------------------------------------------- trimming

  /** Already trimmed: empty, or no space at either end. */
  predicate Trimmed(s: string) {
    s != "" ==> !IsSpace(s[0]) && !IsSpace(s[|s| - 1])
  }

  lemma {:induction false} TrimLeftFacts(s: string)
    ensures |TrimLeft(s)| <= |s|
    ensures TrimLeft(s) != "" ==> !IsSpace(TrimLeft(s)[0])
    ensures HexDigits(TrimLeft(s)) == HexDigits(s)
  {
    if s != "" && IsSpace(s[0]) {
      TrimLeftFacts(s[1..]);
    }
  }

  lemma {:induction false} TrimRightFacts(s: string)
    ensures TrimRight(s) <= s
    ensures TrimRight(s) != "" ==> !IsSpace(TrimRight(s)[|TrimRight(s)| - 1])
    ensures HexDigits(TrimRight(s)) == HexDigits(s)
  {
    if s != "" && IsSpace(s[|s| - 1]) {
      TrimRightFacts(s[..|s| - 1]);
      HexDigitsConcat(s[..|s| - 1], s[|s| - 1..]);
      assert s == s[..|s| - 1] + s[|s| - 1..];
    }
  }

  lemma TrimSpaceIsTrimmed(s: string)
    ensures Trimmed(TrimSpace(s))
    ensures HexDigits(TrimSpace(s)) == HexDigits(s)
  {
    TrimLeftFacts(s);
    TrimRightFacts(TrimLeft(s));
  }

  predicate AllSpaces(s: string) {
    forall i :: 0 <= i < |s| ==> s[i] == ' ' || 9 <= s[i] as int <= 13
  }

  lemma {:induction false} TrimLeftExact(s: string) returns (n: nat)
    ensures n <= |s| && TrimLeft(s) == s[n..] && AllSpaces(s[..n])
  {
    if s != "" && IsSpace(s[0]) {
      n := TrimLeftExact(s[1..]);
      n := n + 1;
      assert s[..n] == [s[0]] + s[1..][..n - 1];
    } else {
      n := 0;
    }
  }

  lemma {:induction false} TrimRightExact(s: string) returns (n: nat)
    ensures n <= |s| && TrimRight(s) == s[..n] && AllSpaces(s[n..])
  {
    if s != "" && IsSpace(s[|s| - 1]) {
      n := TrimRightExact(s[..|s| - 1]);
      assert s[n..] == s[..|s| - 1][n..] + [s[|s| - 1]];
      assert s[..|s| - 1][..n] == s[..n];
    } else {
      n := |s|;
    }
  }

  lemma SliceOfRest(s: string, i: nat, n: nat)
    requires i + n <= |s|
    ensures s[i..][..n] == s[i..i + n]
    ensures s[i..][n..] == s[i + n..]
  {
  }

  /** Only white space goes, at the two ends, and none of it stays there. */
  lemma {:induction false} TrimSpaceExact(s: string) returns (i: nat, j: nat)
    ensures i <= j <= |s| && TrimSpace(s) == s[i..j]
    ensures AllSpaces(s[..i]) && AllSpaces(s[j..])
    ensures i < j ==> !AllSpaces([s[i]]) && !AllSpaces([s[j - 1]])
  {
    i := TrimLeftExact(s);
    var n := TrimRightExact(s[i..]);
    j := i + n;
    SliceOfRest(s, i, n);
    TrimSpaceIsTrimmed(s);
    if i < j {
      var t := TrimSpace(s);
      assert t[0] == s[i] && t[|t| - 1] == s[j - 1];
      assert [s[i]][0] == s[i] && [s[j - 1]][0] == s[j - 1];
    }
  }

  /** Trimming changes exactly the strings that are not trimmed. */
  lemma TrimSpaceFixes(s: string)
    ensures TrimSpace(s) == s <==> Trimmed(s)
  {
    TrimSpaceIsTrimmed(s);
  }

  lemma LowerKeepsShape(c: char)
    ensures IsSpace(LowerChar(c)) <==> IsSpace(c)
    ensures IsHex(LowerChar(c)) <==> IsHex(c)
    ensures LowerChar(LowerChar(c)) == LowerChar(c)
  {
  }

  // -------------------------------------------------------------- MAC digits

  lemma {:induction false} HexDigitsConcat(s: string, t: string)
    ensures HexDigits(s + t) == HexDigits(s) + HexDigits(t)
  {
    if s == "" {
      assert s + t == t;
    } else {
      var head := if IsHex(s[0]) then [s[0]] else "";
      HexDigitsConcat(s[1..], t);
      calc {
        HexDigits(s + t);
        head + HexDigits((s + t)[1..]);
        { assert (s + t)[1..] == s[1..] + t; }
        head + (HexDigits(s[1..]) + HexDigits(t));
        (head + HexDigits(s[1..])) + HexDigits(t);
        HexDigits(s) + HexDigits(t);
      }
    }
  }

  lemma {:induction false} HexDigitsOfHex(s: string)
    requires forall i :: 0 <= i < |s| ==> IsHex(s[i])
    ensures HexDigits(s) == s
  {
    if s == "" {
    } else {
      HexDigitsOfHex(s[1..]);
    }
  }

  lemma {:induction false} HexDigitsAreHex(s: string)
    ensures forall i :: 0 <= i < |HexDigits(s)| ==> IsHex(HexDigits(s)[i])
  {
    if s == "" {
    } else {
      HexDigitsAreHex(s[1..]);
    }
  }

  lemma {:induction false} HexDigitsOfLower(s: string)
    ensures HexDigits(ToLower(s)) == ToLower(HexDigits(s))
  {
    if s == "" {
    } else {
      LowerKeepsShape(s[0]);
      assert ToLower(s)[1..] == ToLower(s[1..]);
      HexDigitsOfLower(s[1..]);
    }
  }

  lemma PairDigits(a: char, b: char, rest: string)
    requires IsHex(a) && IsHex(b)
    ensures HexDigits([a, b, ':'] + rest) == [a, b] + HexDigits(rest)
  {
    HexDigitsConcat([a, b, ':'], rest);
    assert HexDigits([b, ':']) == [b] + HexDigits([':']);
  }

  lemma HexDigitsOfColons(hex: string)
    requires |hex| == 12
    requires forall i :: 0 <= i < 12 ==> IsHex(hex[i])
    ensures HexDigits(Colons(hex)) == ToLower(hex)
  {
    var h := ToLower(hex);
    forall i | 0 <= i < 12 ensures IsHex(h[i]) { LowerKeepsShape(hex[i]); }
    var t5 := [h[10], h[11]];
    var t4 := [h[8], h[9], ':'] + t5;
    var t3 := [h[6], h[7], ':'] + t4;
    var t2 := [h[4], h[5], ':'] + t3;
    var t1 := [h[2], h[3], ':'] + t2;
    assert Colons(hex) == [h[0], h[1], ':'] + t1;
    PairDigits(h[0], h[1], t1);
    PairDigits(h[2], h[3], t2);
    PairDigits(h[4], h[5], t3);
    PairDigits(h[6], h[7], t4);
    PairDigits(h[8], h[9], t5);
    HexDigitsOfHex(t5);
    assert h == [h[0], h[1]] + ([h[2], h[3]] + ([h[4], h[5]] + ([h[6], h[7]] + ([h[8], h[9]] + t5))));
  }

  /** Normalising a normalised address changes nothing, for every string. */
  lemma NormalizeMACIdempotent(s: string)
    ensures NormalizeMAC(NormalizeMAC(s)) == NormalizeMAC(s)
  {
    var hex := HexDigits(s);
    if |hex| == 12 {
      HexDigitsAreHex(s);
      HexDigitsOfColons(hex);
      forall i | 0 <= i < 12 { LowerKeepsShape(hex[i]); }
      assert ToLower(ToLower(hex)) == ToLower(hex);
    } else {
      var t := TrimSpace(s);
      TrimSpaceIsTrimmed(s);
      HexDigitsOfLower(t);
      forall i | 0 <= i < |t| { LowerKeepsShape(t[i]); }
      TrimSpaceFixes(ToLower(t));
      assert ToLower(ToLower(t)) == ToLower(t);
    }
  }

  /** Two spellings with twelve hex digits are one address iff the digits agree up to case. */
  lemma SameMACIff(s: string, t: string)
    requires |HexDigits(s)| == 12 && |HexDigits(t)| == 12
    ensures NormalizeMAC(s) == NormalizeMAC(t) <==> EqualFold(HexDigits(s), HexDigits(t))
  {
    HexDigitsAreHex(s);
    HexDigitsAreHex(t);
    HexDigitsOfColons(HexDigits(s));
    HexDigitsOfColons(HexDigits(t));
  }

  /** EqualFold and equality agree on normalised addresses. */
  lemma NormalizedIsLower(s: string)
    ensures ToLower(NormalizeMAC(s)) == NormalizeMAC(s)
  {
    var hex := HexDigits(s);
    if |hex| == 12 {
      forall i | 0 <= i < 12 { LowerKeepsShape(hex[i]); }
    } else {
      var t := TrimSpace(s);
      forall i | 0 <= i < |t| { LowerKeepsShape(t[i]); }
      assert ToLower(ToLower(t)) == ToLower(t);
    }
  }
}
